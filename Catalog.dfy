/**
  The header-keyed catalog of `src/constants.ts`: cleaning a CSV cell into
  digits (with spreadsheet scientific notation expanded), expanding one code
  into its UPC-A / EAN-13 / GTIN-14 keys, reading a field under any of its
  header aliases, and building the registry that maps every key of every
  row to that row's product.
 */
module Catalog {
  import opened Text
  import opened Types
  import opened SciNotation

  /* ---------- Cell cleaning ---------- */

  /** `expandScientific`: a blank cell gives `""`; a cell that, once unquoted and
      stripped of white space, is not scientific notation is returned in that
      form; otherwise the unsigned expansion of the match (the sign is dropped). */
  function ExpandScientific(raw: string): (r: string)
    ensures Trim(raw) == [] ==> r == []
    ensures Match(RemoveSpaces(Unquote(raw))).None? ==> r == RemoveSpaces(Unquote(raw))
    ensures Match(RemoveSpaces(Unquote(raw))).Some? ==>
              r == Expansion(Match(RemoveSpaces(Unquote(raw))).value) && r != [] && IsDigits(r)
  {
    if Trim(raw) == [] then []
    else
      var cleaned := RemoveSpaces(Unquote(raw));
      match Match(cleaned)
      case None => cleaned
      case Some(x) => Expansion(x)
  }

  /** A cell holding only a pair of quotes is not blank, yet expands to `""`
      like a blank cell: nothing is left once the quotes are stripped. */
  lemma QuotesOnlyCell(cell: string)
    requires |cell| == 2 && cell[0] == '"' && cell[1] == '"'
    ensures Trim(cell) != [] && ExpandScientific(cell) == []
  {
    assert NoSpaces(cell);
    assert StripQuotes(cell) == [];
    assert Unquote(cell) == [];
  }

  /** `cleanCsvBarcode`: only digits remain. A cell that is not scientific
      notation keeps exactly its own digits, in order; a scientific one becomes
      its expansion. */
  function CleanCsvBarcode(raw: string): (r: string)
    ensures IsDigits(r)
    ensures Match(RemoveSpaces(Unquote(raw))).None? ==> r == Digits(raw)
    ensures Match(RemoveSpaces(Unquote(raw))).Some? ==>
              r == Expansion(Match(RemoveSpaces(Unquote(raw))).value)
  {
    DigitsIgnoreSpaces(Unquote(raw));
    Digits(ExpandScientific(raw))
  }

  /* ---------- Barcode keys ---------- */

  predicate IsKeyLength(k: string) {
    8 <= |k| <= 14
  }

  predicate NoDuplicates(s: seq<string>) {
    forall i, j :: 0 <= i < j < |s| ==> s[i] != s[j]
  }

  /** Every form a code is added under before the length filter: the digits
      themselves; for 14 digits the forms without leading zeros, without the
      first digit and without the first two; for 13 digits led by `0` the 12
      after it; for 12 digits the 13-digit form with a `0` in front; for 8 to 11
      digits the 12-digit zero-padded form and that form with a `0` in front.
      The empty string (a 14-digit code of zeros only) is never added. */
  predicate IsCandidate(d: string, k: string) {
    && d != [] && k != []
    && (|| k == d
        || (|d| == 14 && (k == StripLeadingZeros(d) || k == d[1..] || k == d[2..]))
        || (|d| == 13 && d[0] == '0' && k == d[1..])
        || (|d| == 12 && k == "0" + d)
        || (8 <= |d| <= 11 && (k == PadStart(d, 12) || k == "0" + PadStart(d, 12))))
  }

  /** The forms of `d` that are keys: candidates of 8 to 14 characters. */
  predicate IsKeyOf(d: string, k: string) {
    IsCandidate(d, k) && IsKeyLength(k)
  }

  function Candidates(d: string): set<string> {
    if d == [] then {}
    else if |d| == 14 then {d, StripLeadingZeros(d), d[1..], d[2..]} - {[]}
    else if |d| == 13 && d[0] == '0' then {d, d[1..]}
    else if |d| == 12 then {d, "0" + d}
    else if 8 <= |d| <= 11 then {d, PadStart(d, 12), "0" + PadStart(d, 12)}
    else {d}
  }

  lemma CandidateMembers(d: string, k: string)
    ensures k in Candidates(d) <==> IsCandidate(d, k)
  {
    if d == [] {
    } else if |d| == 14 {
      Gtin14Members(d, k);
    } else if |d| == 13 && d[0] == '0' {
      Ean13Members(d, k);
    } else if |d| == 12 {
      UpcAMembers(d, k);
    } else if 8 <= |d| <= 11 {
      ShortMembers(d, k);
    }
  }

  lemma Gtin14Members(d: string, k: string)
    requires |d| == 14
    ensures k in Candidates(d) <==> IsCandidate(d, k)
  {
    var z, a, b := StripLeadingZeros(d), d[1..], d[2..];
    var c := {d, z, a, b};
    assert Candidates(d) == c - {[]};
    assert k in c <==> k == d || k == z || k == a || k == b;
    assert IsCandidate(d, k) <==> k != [] && (k == d || k == z || k == a || k == b);
  }

  lemma Ean13Members(d: string, k: string)
    requires |d| == 13 && d[0] == '0'
    ensures k in Candidates(d) <==> IsCandidate(d, k)
  {
    assert k in Candidates(d) <==> k == d || k == d[1..];
  }

  lemma UpcAMembers(d: string, k: string)
    requires |d| == 12
    ensures k in Candidates(d) <==> IsCandidate(d, k)
  {
    assert k in Candidates(d) <==> k == d || k == "0" + d;
  }

  lemma ShortMembers(d: string, k: string)
    requires 8 <= |d| <= 11
    ensures k in Candidates(d) <==> IsCandidate(d, k)
  {
    ShortCandidates(d);
    assert k in Candidates(d) <==> k == d || k == PadStart(d, 12) || k == "0" + PadStart(d, 12);
  }

  /** The keys a code is registered and looked up under, as a set. */
  function KeySet(raw: string): (r: set<string>)
    ensures forall k :: k in r <==> IsKeyOf(Digits(raw), k)
    ensures forall k :: k in r ==> IsDigits(k) && IsKeyLength(k)
  {
    var d := Digits(raw);
    forall k ensures k in Candidates(d) <==> IsCandidate(d, k) {
      CandidateMembers(d, k);
    }
    forall k | IsCandidate(d, k) ensures IsDigits(k) {
      CandidateDigits(d, k);
    }
    set k | k in Candidates(d) && IsKeyLength(k)
  }

  lemma CandidateDigits(d: string, k: string)
    requires IsDigits(d) && IsCandidate(d, k)
    ensures IsDigits(k)
  {
    if |d| == 14 && k == StripLeadingZeros(d) {
      assert k == d[|d| - |k|..];
    } else if 8 <= |d| <= 11 {
      assert PadStart(d, 12) == Zeros(12 - |d|) + d;
    }
  }

  /** A UPC-A code and the EAN-13 code with a `0` in front have the same keys,
      so a product registered under one is found under the other. */
  lemma UpcEanSameKeys(d: string)
    requires IsDigits(d) && |d| == 12
    ensures KeySet(d) == KeySet("0" + d) == {d, "0" + d}
  {
    var e := "0" + d;
    assert Digits(e) == e;
    assert e[1..] == d;
    assert Candidates(e) == {e, d};
    assert Candidates(d) == {d, e};
  }

  /** `keys.add(v)` behind `v &&`: the empty string and repeats are ignored and
      the insertion order of the JavaScript `Set` is kept. */
  function Insert(keys: seq<string>, v: string): (r: seq<string>)
    ensures NoDuplicates(keys) ==> NoDuplicates(r)
    ensures forall k :: k in r <==> k in keys || (k == v && v != [])
    ensures keys != [] ==> r != [] && r[0] == keys[0]
    ensures r == keys || r == keys + [v]
    ensures |r| <= |keys| + 1
  {
    if v == [] || v in keys then keys else keys + [v]
  }

  /** `.filter((k) => k.length >= 8 && k.length <= 14)` */
  function KeepKeyLengths(s: seq<string>): (r: seq<string>)
    ensures forall k :: k in r <==> k in s && IsKeyLength(k)
    ensures NoDuplicates(s) ==> NoDuplicates(r)
    ensures s != [] && IsKeyLength(s[0]) ==> r != [] && r[0] == s[0]
    ensures |s| == 1 ==> r == if IsKeyLength(s[0]) then s else []
  {
    if s == [] then []
    else
      var rest := KeepKeyLengths(s[1..]);
      assert NoDuplicates(s) ==> s[0] !in s[1..] && NoDuplicates(s[1..]);
      (if IsKeyLength(s[0]) then [s[0]] else []) + rest
  }

  /** The filter keeps the order: filtering a concatenation filters each part. */
  lemma {:induction false} KeepKeyLengthsAppend(a: seq<string>, b: seq<string>)
    ensures KeepKeyLengths(a + b) == KeepKeyLengths(a) + KeepKeyLengths(b)
    decreases |a|
  {
    if a == [] {
      assert a + b == b;
    } else {
      var head := if IsKeyLength(a[0]) then [a[0]] else [];
      assert (a + b)[0] == a[0];
      assert (a + b)[1..] == a[1..] + b;
      KeepKeyLengthsAppend(a[1..], b);
      assert head + (KeepKeyLengths(a[1..]) + KeepKeyLengths(b))
          == (head + KeepKeyLengths(a[1..])) + KeepKeyLengths(b);
    }
  }

  /** `barcodeKeys`: the keys of one code, each once, exactly the members of
      `KeySet`, the plain digits first when they are a key themselves. */
  method BarcodeKeys(raw: string) returns (keys: seq<string>)
    ensures NoDuplicates(keys)
    ensures forall k :: k in keys <==> k in KeySet(raw)
    ensures IsKeyLength(Digits(raw)) ==> keys != [] && keys[0] == Digits(raw)
    ensures var d := Digits(raw); |d| == 14 ==> |keys| <= 4
    ensures var d := Digits(raw); |d| == 13 ==> keys == if d[0] == '0' then [d, d[1..]] else [d]
    ensures var d := Digits(raw); |d| == 12 ==> keys == [d, "0" + d]
    ensures var d := Digits(raw); 8 <= |d| <= 11 ==> keys == [d, PadStart(d, 12), "0" + PadStart(d, 12)]
    ensures var d := Digits(raw); |d| < 8 || |d| > 14 ==> keys == []
  {
    var digits := Digits(raw);
    if digits == [] {
      return [];
    }
    var added: seq<string> := [];
    added := Insert(added, digits);
    assert added == [digits];
    if |digits| == 14 {
      added := Insert(added, StripLeadingZeros(digits));
      added := Insert(added, digits[1..]);
      added := Insert(added, digits[2..]);
      AddedGtin14(digits);
    }
    if |digits| == 13 && digits[0] == '0' {
      added := Insert(added, digits[1..]);
      AddedEan13(digits);
    }
    if |digits| == 12 {
      added := Insert(added, "0" + digits);
      AddedUpcA(digits);
    }
    if 8 <= |digits| <= 11 {
      var upc12 := PadStart(digits, 12);
      added := Insert(added, upc12);
      added := Insert(added, "0" + upc12);
      AddedShort(digits);
    }
    if !(|digits| == 14 || (|digits| == 13 && digits[0] == '0') || 8 <= |digits| <= 12) {
      AddedAlone(digits);
    }
    keys := KeepKeyLengths(added);
  }

  /** The keys of a 14-digit code: the code, the code without its first one
      and two digits, and the code without its leading zeros when that still
      has eight digits or more; nothing else. */
  lemma KeysOfGtin14(raw: string)
    requires |Digits(raw)| == 14
    ensures var d, z := Digits(raw), StripLeadingZeros(Digits(raw));
            && d in KeySet(raw) && d[1..] in KeySet(raw) && d[2..] in KeySet(raw)
            && (z in KeySet(raw) <==> 8 <= |z|)
            && forall k :: k in KeySet(raw) ==> k == d || k == d[1..] || k == d[2..] || k == z
  {
  }

  /** A GTIN-14 code made of two zeros and a UPC-A code has the UPC-A code
      and its EAN-13 form among its keys, so all three forms meet in the registry. */
  lemma Gtin14FindsUpcA(d: string)
    requires |d| == 12 && IsDigits(d)
    ensures d in KeySet("00" + d) && "0" + d in KeySet("00" + d)
  {
    var g := "00" + d;
    assert IsDigits(g);
    assert g[2..] == d;
    assert g[1..] == "0" + d;
    assert IsKeyOf(g, d) && IsKeyOf(g, "0" + d);
  }

  /* What `barcodeKeys` has added before the length filter, one lemma per
     length: every candidate, each once, the plain digits first. */

  lemma AddedGtin14(d: string)
    requires |d| == 14
    ensures var a := Insert(Insert(Insert([d], StripLeadingZeros(d)), d[1..]), d[2..]);
            && NoDuplicates(a) && a[0] == d && (forall k :: k in a <==> IsCandidate(d, k))
            && |KeepKeyLengths(a)| <= 4
  {
    var z, d1, d2 := StripLeadingZeros(d), d[1..], d[2..];
    assert |d1| == 13 && |d2| == 12;
    var a1 := Insert([d], z);
    assert NoDuplicates([d]);
    assert NoDuplicates(a1) && a1[0] == d;
    assert forall k :: k in a1 <==> k == d || (k == z && z != []);
    var a2 := Insert(a1, d1);
    assert NoDuplicates(a2) && a2[0] == d;
    assert forall k :: k in a2 <==> k == d || (k == z && z != []) || k == d1;
    var a := Insert(a2, d2);
    assert NoDuplicates(a) && a[0] == d;
    assert forall k :: k in a <==> k == d || (k == z && z != []) || k == d1 || k == d2;
    Gtin14Candidates(d);
    KeepShorter(a);
  }

  lemma Gtin14Candidates(d: string)
    requires |d| == 14
    ensures forall k :: IsCandidate(d, k) <==>
              k == d || (k != [] && (k == StripLeadingZeros(d) || k == d[1..] || k == d[2..]))
  {
  }

  lemma ShortCandidates(d: string)
    requires 8 <= |d| <= 11
    ensures forall k :: IsCandidate(d, k) <==>
              k == d || k == PadStart(d, 12) || k == "0" + PadStart(d, 12)
  {
  }

  lemma AddedEan13(d: string)
    requires |d| == 13 && d[0] == '0'
    ensures var a := Insert([d], d[1..]);
            && a == [d, d[1..]] && KeepKeyLengths(a) == a
            && NoDuplicates(a) && forall k :: k in a <==> IsCandidate(d, k)
  {
    assert d[1..] != d;
    KeepAllKeys([d, d[1..]]);
  }

  lemma AddedUpcA(d: string)
    requires |d| == 12
    ensures var a := Insert([d], "0" + d);
            && a == [d, "0" + d] && KeepKeyLengths(a) == a
            && NoDuplicates(a) && forall k :: k in a <==> IsCandidate(d, k)
  {
    assert "0" + d != d;
    KeepAllKeys([d, "0" + d]);
  }

  lemma AddedShort(d: string)
    requires 8 <= |d| <= 11
    ensures var p := PadStart(d, 12);
            var a := Insert(Insert([d], p), "0" + p);
            && a == [d, p, "0" + p] && KeepKeyLengths(a) == a
            && NoDuplicates(a) && forall k :: k in a <==> IsCandidate(d, k)
  {
    var p := PadStart(d, 12);
    var q := "0" + p;
    assert |d| < |p| < |q|;
    InsertNew([d], p);
    assert [d] + [p] == [d, p];
    InsertNew([d, p], q);
    assert [d, p] + [q] == [d, p, q];
    KeepAllKeys([d, p, q]);
    ShortCandidates(d);
  }

  lemma InsertNew(keys: seq<string>, v: string)
    requires v != [] && v !in keys
    ensures Insert(keys, v) == keys + [v]
  {
  }

  lemma AddedAlone(d: string)
    requires d != []
    requires !(|d| == 14 || (|d| == 13 && d[0] == '0') || 8 <= |d| <= 12)
    ensures NoDuplicates([d]) && forall k :: k in [d] <==> IsCandidate(d, k)
    ensures KeepKeyLengths([d]) == if IsKeyLength(d) then [d] else []
  {
    assert [d][..0] == [];
  }

  lemma {:induction false} KeepAllKeys(s: seq<string>)
    requires forall i :: 0 <= i < |s| ==> IsKeyLength(s[i])
    ensures KeepKeyLengths(s) == s
  {
    if s != [] {
      KeepAllKeys(s[1..]);
      assert [s[0]] + s[1..] == s;
    }
  }

  lemma {:induction false} KeepShorter(s: seq<string>)
    ensures |KeepKeyLengths(s)| <= |s|
  {
    if s != [] {
      KeepShorter(s[1..]);
    }
  }

  /* ---------- Fields ---------- */

  /** One parsed CSV row: header name to cell text; a column the row lacks is absent. */
  type Row = map<string, string>

  const ManufacturerAliases: seq<string> := ["Manufacturer", "manufacturer"]
  const TradeNameAliases: seq<string> := ["Trade Name", "TradeName", "tradeName", "trade name"]
  const ProductTypeAliases: seq<string> :=
    ["Packaging/Brand Style", "Packaging Brand Style", "productType", "Product Type", "type"]
  const UpcAliases: seq<string> := ["UPC", "upc"]
  const CartonUpcAliases: seq<string> := ["UPC (Carton or Roll)", "UPC Carton or Roll", "cartonUpc"]

  /** The row has the column and its cell is not blank. */
  predicate Filled(row: Row, name: string) {
    name in row && Trim(row[name]) != []
  }

  /** The trimmed cell of the first filled alias at position `from` or later,
      or `""` when none is filled. */
  function FieldFrom(row: Row, aliases: seq<string>, from: nat): string
    requires from <= |aliases|
    decreases |aliases| - from
  {
    if from == |aliases| then []
    else if Filled(row, aliases[from]) then Trim(row[aliases[from]])
    else FieldFrom(row, aliases, from + 1)
  }

  /** `FieldFrom` is `""` exactly when no alias from `from` on is filled. */
  lemma {:induction false} FieldFromEmpty(row: Row, aliases: seq<string>, from: nat)
    requires from <= |aliases|
    ensures FieldFrom(row, aliases, from) == [] <==> forall i :: from <= i < |aliases| ==> !Filled(row, aliases[i])
    decreases |aliases| - from
  {
    if from < |aliases| && !Filled(row, aliases[from]) {
      FieldFromEmpty(row, aliases, from + 1);
    }
  }

  /** A non-empty `FieldFrom` is the trimmed cell of the first filled alias from `from` on. */
  lemma {:induction false} FieldFromFirst(row: Row, aliases: seq<string>, from: nat)
    requires from <= |aliases|
    ensures var r := FieldFrom(row, aliases, from);
            r != [] ==>
              exists i :: from <= i < |aliases| && Filled(row, aliases[i]) && r == Trim(row[aliases[i]])
                          && forall j :: from <= j < i ==> !Filled(row, aliases[j])
    decreases |aliases| - from
  {
    if from < |aliases| {
      if Filled(row, aliases[from]) {
        assert Filled(row, aliases[from]) && FieldFrom(row, aliases, from) == Trim(row[aliases[from]]);
      } else {
        FieldFromFirst(row, aliases, from + 1);
        SkipUnfilled(row, aliases, from, FieldFrom(row, aliases, from + 1));
      }
    }
  }

  /** An unfilled alias in front does not change which alias is the first filled one. */
  lemma SkipUnfilled(row: Row, aliases: seq<string>, from: nat, r: string)
    requires from < |aliases| && !Filled(row, aliases[from])
    requires r != [] ==>
               exists i :: from + 1 <= i < |aliases| && Filled(row, aliases[i]) && r == Trim(row[aliases[i]])
                           && forall j :: from + 1 <= j < i ==> !Filled(row, aliases[j])
    ensures r != [] ==>
              exists i :: from <= i < |aliases| && Filled(row, aliases[i]) && r == Trim(row[aliases[i]])
                          && forall j :: from <= j < i ==> !Filled(row, aliases[j])
  {
    if r != [] {
      var i :| from + 1 <= i < |aliases| && Filled(row, aliases[i]) && r == Trim(row[aliases[i]])
               && forall j :: from + 1 <= j < i ==> !Filled(row, aliases[j]);
      assert forall j :: from <= j < i ==> !Filled(row, aliases[j]);
    }
  }

  /** The trimmed cell of the first alias that is filled, or `""` when none is. */
  function FieldValue(row: Row, aliases: seq<string>): (r: string)
    ensures r == [] <==> forall i :: 0 <= i < |aliases| ==> !Filled(row, aliases[i])
    ensures r != [] ==>
              exists i :: 0 <= i < |aliases| && Filled(row, aliases[i]) && r == Trim(row[aliases[i]])
                          && forall j :: 0 <= j < i ==> !Filled(row, aliases[j])
  {
    FieldFromEmpty(row, aliases, 0);
    FieldFromFirst(row, aliases, 0);
    FieldFrom(row, aliases, 0)
  }

  /** `getField`: tries the aliases in order and returns at the first filled one. */
  method GetField(row: Row, aliases: seq<string>) returns (r: string)
    ensures r == FieldValue(row, aliases)
  {
    assert FieldValue(row, aliases) == FieldFrom(row, aliases, 0);
    for i := 0 to |aliases|
      invariant FieldFrom(row, aliases, i) == FieldFrom(row, aliases, 0)
    {
      var name := aliases[i];
      if name in row && Trim(row[name]) != [] {
        assert FieldFrom(row, aliases, i) == Trim(row[name]);
        return Trim(row[name]);
      }
      assert FieldFrom(row, aliases, i) == FieldFrom(row, aliases, i + 1);
    }
    return [];
  }

  /* ---------- Registry ---------- */

  /** The product a row yields, or `None` when both of its cleaned codes are empty. */
  function Entry(row: Row): (r: Option<CatalogProduct>)
    ensures r.Some? ==> IsDigits(r.value.upc) && IsDigits(r.value.cartonUpc)
    ensures r.Some? ==> r.value.upc != [] || r.value.cartonUpc != []
    ensures r.Some? ==> r.value.upc == CleanCsvBarcode(FieldValue(row, UpcAliases))
                        && r.value.cartonUpc == CleanCsvBarcode(FieldValue(row, CartonUpcAliases))
    ensures r.Some? ==> r.value.manufacturer == FieldValue(row, ManufacturerAliases)
                        && r.value.tradeName == FieldValue(row, TradeNameAliases)
                        && r.value.productType == FieldValue(row, ProductTypeAliases)
  {
    var upc := CleanCsvBarcode(FieldValue(row, UpcAliases));
    var cartonUpc := CleanCsvBarcode(FieldValue(row, CartonUpcAliases));
    if upc == [] && cartonUpc == [] then None
    else Some(CatalogProduct(
      FieldValue(row, ManufacturerAliases),
      FieldValue(row, TradeNameAliases),
      upc,
      cartonUpc,
      FieldValue(row, ProductTypeAliases)))
  }

  /** The keys a product is registered under: those of its unit code and of its carton code. */
  function ProductKeys(p: CatalogProduct): set<string> {
    KeySet(p.upc) + KeySet(p.cartonUpc)
  }

  /** The keys a row writes. */
  function RowKeys(row: Row): set<string> {
    match Entry(row)
    case None => {}
    case Some(p) => ProductKeys(p)
  }

  /** `m` with every key in `keys` set to `p`. */
  function SetAll(m: map<string, CatalogProduct>, keys: set<string>, p: CatalogProduct): map<string, CatalogProduct> {
    m + map k | k in keys :: p
  }

  /** The entry of each row, in order. */
  function Entries(rows: seq<Row>): (r: seq<Option<CatalogProduct>>)
    ensures |r| == |rows|
  {
    if rows == [] then [] else Entries(rows[..|rows| - 1]) + [Entry(rows[|rows| - 1])]
  }

  /** The registry after the given entries, in order: each product's keys point
      to it, and a later entry overwrites an earlier one's key. */
  function Registry(entries: seq<Option<CatalogProduct>>): (m: map<string, CatalogProduct>)
    decreases |entries|
  {
    if entries == [] then map[]
    else Apply(Registry(entries[..|entries| - 1]), entries[|entries| - 1])
  }

  /** What one entry does to the registry: nothing when the row yielded no
      product, otherwise every key of its product now maps to that product. */
  function Apply(m: map<string, CatalogProduct>, entry: Option<CatalogProduct>): (r: map<string, CatalogProduct>)
    ensures entry.None? ==> r == m
    ensures entry.Some? ==> r.Keys == m.Keys + ProductKeys(entry.value)
    ensures entry.Some? ==> forall k :: k in r ==> r[k] == if k in ProductKeys(entry.value) then entry.value else m[k]
  {
    match entry
    case None => m
    case Some(p) => SetAll(m, ProductKeys(p), p)
  }

  /** The entry is a product one of whose keys is `k`. */
  predicate Writes(e: Option<CatalogProduct>, k: string) {
    e.Some? && k in ProductKeys(e.value)
  }

  /** A key is in the registry exactly when some entry writes it. */
  lemma {:induction false} RegistryDomain(es: seq<Option<CatalogProduct>>, k: string)
    ensures k in Registry(es) <==> exists i :: 0 <= i < |es| && Writes(es[i], k)
    decreases |es|
  {
    if es != [] {
      var init, last := es[..|es| - 1], es[|es| - 1];
      RegistryDomain(init, k);
      ApplyDomain(Registry(init), last, k);
      if k in Registry(init) {
        var i :| 0 <= i < |init| && Writes(init[i], k);
        assert init[i] == es[i];
      }
      if exists i :: 0 <= i < |es| && Writes(es[i], k) {
        var i :| 0 <= i < |es| && Writes(es[i], k);
        if i < |init| {
          assert init[i] == es[i];
        }
      }
    }
  }

  lemma ApplyDomain(m: map<string, CatalogProduct>, e: Option<CatalogProduct>, k: string)
    ensures k in Apply(m, e) <==> k in m || Writes(e, k)
  {
  }

  /** Every key is an 8-to-14-digit string and is one of the keys of the
      product it finds. */
  lemma {:induction false} RegistryKeysOwn(es: seq<Option<CatalogProduct>>)
    ensures forall k :: k in Registry(es) ==> IsDigits(k) && IsKeyLength(k) && k in ProductKeys(Registry(es)[k])
    decreases |es|
  {
    if es != [] {
      RegistryKeysOwn(es[..|es| - 1]);
    }
  }

  /** The product a key finds is that of the last entry writing the key. */
  lemma {:induction false} RegistryLastWins(es: seq<Option<CatalogProduct>>, i: nat, k: string)
    requires i < |es| && Writes(es[i], k)
    requires forall j :: i < j < |es| ==> !Writes(es[j], k)
    ensures k in Registry(es) && Registry(es)[k] == es[i].value
    decreases |es|
  {
    var init := es[..|es| - 1];
    if i < |es| - 1 {
      assert init[i] == es[i];
      assert forall j :: i < j < |init| ==> init[j] == es[j];
      RegistryLastWins(init, i, k);
    }
  }

  /** A cell yields no code exactly when it holds no digit: in particular a
      blank or absent cell never does. */
  lemma CleanEmptyIffNoDigits(raw: string)
    ensures CleanCsvBarcode(raw) == [] <==> Digits(raw) == []
  {
    var s := RemoveSpaces(Unquote(raw));
    DigitsIgnoreSpaces(Unquote(raw));
    if Match(s).Some? {
      NotationHasDigits(s);
    }
  }

  /** A text the notation pattern matches holds a digit. */
  lemma NotationHasDigits(s: string)
    requires Match(s).Some?
    ensures Digits(s) != []
  {
    var x := Match(s).value;
    MatchSound(s);
    var tail := FractionText(x.fracDigits) + ExponentText(x.marker, x.expSign, x.expDigits);
    DigitsAppend(x.sign, x.intDigits + tail);
    DigitsAppend(x.intDigits, tail);
  }

  /** A row is skipped exactly when neither its unit code cell nor its carton
      code cell holds a digit. */
  lemma SkippedRow(row: Row)
    ensures Entry(row).None? <==>
              Digits(FieldValue(row, UpcAliases)) == [] && Digits(FieldValue(row, CartonUpcAliases)) == []
  {
    var u := FieldValue(row, UpcAliases);
    var c := FieldValue(row, CartonUpcAliases);
    assert Entry(row).None? <==> CleanCsvBarcode(u) == [] && CleanCsvBarcode(c) == [];
    CleanEmptyIffNoDigits(u);
    CleanEmptyIffNoDigits(c);
  }

  /** A kept row whose only code is shorter than eight digits (a short
      store code) yields a product but registers it under no key. */
  lemma ShortCodeRegistersNothing(m: map<string, CatalogProduct>, p: CatalogProduct)
    requires IsDigits(p.upc) && 1 <= |p.upc| < 8 && p.cartonUpc == []
    ensures ProductKeys(p) == {}
    ensures Apply(m, Some(p)) == m
  {
    assert Candidates(p.upc) == {p.upc};
    assert Digits(p.cartonUpc) == [];
  }

  /** The set of the elements of a sequence of keys. */
  function Elements(s: seq<string>): set<string> {
    set k | k in s
  }

  lemma ElementsSnoc(s: seq<string>, j: nat)
    requires j < |s|
    ensures Elements(s[..j + 1]) == Elements(s[..j]) + {s[j]}
  {
    assert s[..j + 1] == s[..j] + [s[j]];
  }

  /** Setting the keys of a sequence one at a time: before the first step. */
  lemma SetAllNone(m: map<string, CatalogProduct>, keys: seq<string>, p: CatalogProduct)
    ensures SetAll(m, Elements(keys[..0]), p) == m
  {
    assert Elements(keys[..0]) == {};
  }

  /** Setting the keys of a sequence one at a time: one more step. */
  lemma SetAllSnoc(m: map<string, CatalogProduct>, keys: seq<string>, j: nat, p: CatalogProduct)
    requires j < |keys|
    ensures SetAll(m, Elements(keys[..j + 1]), p) == SetAll(m, Elements(keys[..j]), p)[keys[j] := p]
  {
    ElementsSnoc(keys, j);
  }

  lemma ElementsOfKeys(keys: seq<string>, raw: string)
    requires forall k :: k in keys <==> k in KeySet(raw)
    ensures Elements(keys) == KeySet(raw)
  {
  }

  /** Setting two sets of keys in turn is setting their union. */
  lemma SetAllUnion(m: map<string, CatalogProduct>, a: set<string>, b: set<string>, p: CatalogProduct)
    ensures SetAll(SetAll(m, a, p), b, p) == SetAll(m, a + b, p)
  {
  }

  lemma EntriesSnoc(rows: seq<Row>, i: nat)
    requires i < |rows|
    ensures Entries(rows[..i + 1]) == Entries(rows[..i]) + [Entry(rows[i])]
  {
    assert rows[..i + 1][..i] == rows[..i];
  }

  /** One more entry on the registry. */
  lemma RegistrySnoc(es: seq<Option<CatalogProduct>>, e: Option<CatalogProduct>)
    ensures Registry(es + [e]) == Apply(Registry(es), e)
  {
    assert (es + [e])[..|es|] == es;
  }

  /** `for (const k of keys) lookup.set(k, product)` */
  method SetEach(lookup: map<string, CatalogProduct>, keys: seq<string>, product: CatalogProduct)
    returns (next: map<string, CatalogProduct>)
    ensures next == SetAll(lookup, Elements(keys), product)
  {
    next := lookup;
    SetAllNone(lookup, keys, product);
    for j := 0 to |keys|
      invariant next == SetAll(lookup, Elements(keys[..j]), product)
    {
      SetAllSnoc(lookup, keys, j, product);
      next := next[keys[j] := product];
    }
    assert keys[..|keys|] == keys;
  }

  /** One pass of `parseCSV`'s row loop: a row without a code is skipped,
      otherwise the product is set under every key of its unit code and then of
      its carton code. */
  method AddRow(lookup: map<string, CatalogProduct>, row: Row) returns (next: map<string, CatalogProduct>)
    ensures next == Apply(lookup, Entry(row))
  {
    var manufacturer := GetField(row, ManufacturerAliases);
    var tradeName := GetField(row, TradeNameAliases);
    var productType := GetField(row, ProductTypeAliases);
    var upcCell := GetField(row, UpcAliases);
    var upc := CleanCsvBarcode(upcCell);
    var cartonCell := GetField(row, CartonUpcAliases);
    var cartonUpc := CleanCsvBarcode(cartonCell);

    if upc == [] && cartonUpc == [] {
      return lookup;
    }

    var product := CatalogProduct(manufacturer, tradeName, upc, cartonUpc, productType);
    assert Entry(row) == Some(product);
    var unitKeys := BarcodeKeys(upc);
    next := SetEach(lookup, unitKeys, product);
    ElementsOfKeys(unitKeys, upc);
    var cartonKeys := BarcodeKeys(cartonUpc);
    next := SetEach(next, cartonKeys, product);
    ElementsOfKeys(cartonKeys, cartonUpc);
    SetAllUnion(lookup, KeySet(upc), KeySet(cartonUpc), product);
  }

  /** `parseCSV` over the rows the CSV reader produced: the registry of their entries. */
  method ParseCsv(rows: seq<Row>) returns (lookup: map<string, CatalogProduct>)
    ensures lookup == Registry(Entries(rows))
  {
    lookup := map[];
    for i := 0 to |rows|
      invariant lookup == Registry(Entries(rows[..i]))
    {
      EntriesSnoc(rows, i);
      RegistrySnoc(Entries(rows[..i]), Entry(rows[i]));
      lookup := AddRow(lookup, rows[i]);
    }
    assert rows[..|rows|] == rows;
  }
}
