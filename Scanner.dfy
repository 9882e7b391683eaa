/**
  The scanning screen of `App.js`: the catalog index built once from the
  embedded CSV text, the verdict for one decoded barcode, and the scan
  history, newest first and capped at fifty entries.
 */
module Scanner {
  import opened Text
  import opened Types
  import opened LegacyCatalog

  /** The most entries the history keeps. */
  const HistoryLimit: nat := 50

  /** The verdict for one decoded text: its digits are looked up as they are,
      with no other code form tried. `now` is the clock reading. */
  function Scan(products: map<string, TobaccoProduct>, decodedText: string, now: int)
    : (r: ScanResult<TobaccoProduct>)
    ensures r.code == Digits(decodedText) && r.timestamp == now
    ensures r.isApproved <==> Digits(decodedText) in products
    ensures r.product.Some? <==> r.isApproved
    ensures r.isApproved ==> r.product.value == products[r.code]
  {
    var code := Digits(decodedText);
    if code in products then ScanResult(code, now, true, Some(products[code]))
    else ScanResult(code, now, false, None)
  }

  /** The verdict a result records agrees with the index it was looked up in. */
  predicate Agrees(products: map<string, TobaccoProduct>, r: ScanResult<TobaccoProduct>) {
    && (r.isApproved <==> r.code in products)
    && (r.product.Some? <==> r.isApproved)
    && (r.isApproved ==> r.product.value == products[r.code])
  }

  /** `[result, ...history.slice(0, 49)]`: the new result in front of the
      newest 49 old ones, so at most fifty entries, in their old order. */
  function Prepend<T>(history: seq<T>, result: T): (r: seq<T>)
    ensures |r| == if |history| < HistoryLimit then |history| + 1 else HistoryLimit
    ensures r[0] == result
    ensures r[1..] == history[..|r| - 1]
  {
    var kept := if |history| < HistoryLimit - 1 then |history| else HistoryLimit - 1;
    [result] + history[..kept]
  }

  /** The history after a sequence of scans, starting empty. */
  function History<T>(results: seq<T>): (h: seq<T>)
    decreases |results|
  {
    if results == [] then []
    else Prepend(History(results[..|results| - 1]), results[|results| - 1])
  }

  /** The newest `HistoryLimit` results, newest first. */
  function Latest<T>(results: seq<T>): (r: seq<T>)
    ensures |r| == if |results| < HistoryLimit then |results| else HistoryLimit
  {
    var n := if |results| < HistoryLimit then |results| else HistoryLimit;
    seq(n, i requires 0 <= i < n => results[|results| - 1 - i])
  }

  /** The history holds exactly the fifty newest scans, newest first. */
  lemma {:induction false} HistoryIsLatest<T>(results: seq<T>)
    ensures History(results) == Latest(results)
    decreases |results|
  {
    if results != [] {
      var init := results[..|results| - 1];
      HistoryIsLatest(init);
      var h := History(results);
      var l := Latest(results);
      assert |h| == |l|;
      forall i | 0 <= i < |h|
        ensures h[i] == l[i]
      {
        if i > 0 {
          assert h[i] == h[1..][i - 1];
          assert h[i] == Latest(init)[i - 1];
        }
      }
    }
  }

  /** A scanned text with no digit never matches: no key is empty. */
  lemma NoDigitsNoMatch(es: seq<Option<TobaccoProduct>>, decodedText: string, now: int)
    requires Digits(decodedText) == []
    ensures !Scan(Index(es), decodedText, now).isApproved
  {
    IndexKeysOwn(es);
  }

  /** A scan is approved exactly when some data line carries the scanned
      digits, verbatim, as its unit or carton code. */
  lemma ApprovedIffWritten(es: seq<Option<TobaccoProduct>>, decodedText: string, now: int)
    ensures Scan(Index(es), decodedText, now).isApproved <==>
              exists i :: 0 <= i < |es| && Writes(es[i], Digits(decodedText))
  {
    IndexDomain(es, Digits(decodedText));
  }

  /** A scan finds the product of the last line carrying the scanned digits. */
  lemma FindsLastWriter(es: seq<Option<TobaccoProduct>>, i: nat, decodedText: string, now: int)
    requires i < |es| && Writes(es[i], Digits(decodedText))
    requires forall j :: i < j < |es| ==> !Writes(es[j], Digits(decodedText))
    ensures Scan(Index(es), decodedText, now) ==
              ScanResult(Digits(decodedText), now, true, Some(es[i].value))
  {
    IndexLastWins(es, i, Digits(decodedText));
  }

  /** The app's state: the index, the screen, the last verdict and the history. */
  class ScannerApp {
    var products: map<string, TobaccoProduct>
    var status: AppStatus
    var lastResult: Option<ScanResult<TobaccoProduct>>
    var history: seq<ScanResult<TobaccoProduct>>

    /** The history is capped and every entry in it agrees with the index. */
    predicate Valid()
      reads this
    {
      && |history| <= HistoryLimit
      && (forall i :: 0 <= i < |history| ==> Agrees(products, history[i]))
      && (lastResult.Some? ==> Agrees(products, lastResult.value))
    }

    /** Start-up: the index is read from the embedded CSV text. */
    constructor(csv: string)
      ensures products == Index(LineProducts(Split(csv)[1..]))
      ensures status == Idle && lastResult == None && history == []
      ensures Valid()
    {
      var index := ParseCsv(csv);
      products := index;
      status := Idle;
      lastResult := None;
      history := [];
    }

    /** `handleScan`: record the verdict, put it at the head of the history,
        and show it. */
    method HandleScan(decodedText: string, now: int)
      requires Valid()
      modifies this
      ensures lastResult == Some(Scan(products, decodedText, now))
      ensures history == Prepend(old(history), Scan(products, decodedText, now))
      ensures status == Result && products == old(products)
      ensures Valid()
    {
      var result := Scan(products, decodedText, now);
      lastResult := Some(result);
      history := Prepend(history, result);
      status := Result;
      forall i | 0 <= i < |history|
        ensures Agrees(products, history[i])
      {
        if i > 0 {
          assert history[i] == old(history)[i - 1];
        }
      }
    }

    /** The Clear button: the history is emptied and nothing else changes. */
    method ClearHistory()
      requires Valid()
      modifies this
      ensures history == []
      ensures products == old(products) && status == old(status) && lastResult == old(lastResult)
      ensures Valid()
    {
      history := [];
    }
  }
}
