/** The records the scanner passes around. */
module Types {

  datatype Option<T> = None | Some(value: T)

  /** A catalog entry as the declared interface describes it; the line-by-line
      CSV reader fills exactly these six fields. */
  datatype TobaccoProduct = TobaccoProduct(
    tradeName: string,
    packagingStyle: string,
    upc: string,
    cartonName: string,
    cartonUpc: string,
    manufacturer: string)

  /** The object the header-keyed registry builder stores: its codes are
      digit strings and it carries the packaging/brand-style label as `productType`. */
  datatype CatalogProduct = CatalogProduct(
    manufacturer: string,
    tradeName: string,
    upc: string,
    cartonUpc: string,
    productType: string)

  /** The outcome of one scan. `timestamp` is the clock reading the caller supplies. */
  datatype ScanResult<P> = ScanResult(
    code: string,
    timestamp: int,
    isApproved: bool,
    product: Option<P>)

  datatype AppStatus = Idle | Scanning | Result
}
