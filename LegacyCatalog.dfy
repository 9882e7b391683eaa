/**
  The older, self-contained catalog reader of `constants.ts`. It splits the
  embedded CSV text into lines, skips the header, pulls the fields out of
  each line with one regular expression, and indexes each product under its
  unit code and its carton code exactly as written: no digit extraction,
  no padding, no other code forms.
 */
module LegacyCatalog {
  import opened Text
  import opened Types

  /* ---------- Lines ---------- */

  /** `s.split("\n")`: the pieces between line feeds; there is always at least one. */
  function Split(s: string): (r: seq<string>)
    ensures |r| >= 1
    ensures forall i :: 0 <= i < |r| ==> '\n' !in r[i]
    decreases |s|
  {
    if s == [] then [[]]
    else
      var rest := Split(s[1..]);
      if s[0] == '\n' then [[]] + rest
      else [[s[0]] + rest[0]] + rest[1..]
  }

  /** `lines.join("\n")`, the inverse of `Split`. */
  function Join(lines: seq<string>): string
    requires |lines| >= 1
    decreases |lines|
  {
    if |lines| == 1 then lines[0] else lines[0] + "\n" + Join(lines[1..])
  }

  /** Splitting loses nothing: joining the lines gives back the text. */
  lemma {:induction false} JoinSplit(s: string)
    ensures Join(Split(s)) == s
    decreases |s|
  {
    if s != [] {
      var rest := Split(s[1..]);
      JoinSplit(s[1..]);
      if s[0] == '\n' {
        assert Split(s)[1..] == rest;
      } else {
        var r := Split(s);
        assert r[1..] == rest[1..];
        if |rest| > 1 {
          assert rest == [rest[0]] + rest[1..];
          assert Join(rest) == rest[0] + "\n" + Join(rest[1..]);
        }
      }
    }
  }

  /** The text before the first line feed is the first line, and the
      remaining lines are those of the text after it. */
  lemma {:induction false} SplitHeader(header: string, body: string)
    requires '\n' !in header
    ensures Split(header + "\n" + body) == [header] + Split(body)
    decreases |header|
  {
    if header == [] {
      assert [] + "\n" + body == "\n" + body;
      assert ("\n" + body)[1..] == body;
    } else {
      var s := header + "\n" + body;
      assert s[0] == header[0];
      assert s[1..] == header[1..] + "\n" + body;
      SplitHeader(header[1..], body);
      assert [header[0]] + header[1..] == header;
    }
  }

  /* ---------- Fields: /(".*?"|[^",\s]+)(?=\s*,|\s*$)/g ---------- */

  /** A character `.` does not match (the pattern has no `s` flag). */
  predicate IsLineTerminator(c: char) {
    c == '\n' || c == '\r' || c == '\U{2028}' || c == '\U{2029}'
  }

  /** A character of an unquoted field: `[^",\s]`. */
  predicate IsBareChar(c: char) {
    c != '"' && c != ',' && !IsSpace(c)
  }

  /** The first position at or after `q` that is not white space. */
  function SkipSpaces(s: string, q: nat): (r: nat)
    requires q <= |s|
    ensures q <= r <= |s|
    ensures forall i :: q <= i < r ==> IsSpace(s[i])
    ensures r == |s| || !IsSpace(s[r])
    decreases |s| - q
  {
    if q < |s| && IsSpace(s[q]) then SkipSpaces(s, q + 1) else q
  }

  /** The lookahead `(?=\s*,|\s*$)`: only white space lies between `q` and
      the next comma or the end of the line. */
  predicate FieldEnds(s: string, q: nat)
    requires q <= |s|
  {
    var r := SkipSpaces(s, q);
    r == |s| || s[r] == ','
  }

  /** Only white space lies between `q` and `r`, and `r` is the end or a comma. */
  predicate SpacesThenEnd(s: string, q: nat, r: nat)
    requires q <= r <= |s|
  {
    (forall i :: q <= i < r ==> IsSpace(s[i])) && (r == |s| || s[r] == ',')
  }

  /** `FieldEnds` is the lookahead as the pattern reads it: some run of
      white space from `q` is followed by a comma or by the end of the line. */
  lemma FieldEndsLookahead(s: string, q: nat)
    requires q <= |s|
    ensures FieldEnds(s, q) <==> exists r :: q <= r <= |s| && SpacesThenEnd(s, q, r)
  {
    var e := SkipSpaces(s, q);
    if FieldEnds(s, q) {
      assert SpacesThenEnd(s, q, e);
    }
    if exists r :: q <= r <= |s| && SpacesThenEnd(s, q, r) {
      var r :| q <= r <= |s| && SpacesThenEnd(s, q, r);
      if r < |s| {
        assert !IsSpace(s[r]);
      }
    }
  }

  /** The lazy `".*?"` after its opening quote: the first closing quote, at
      `j` or later, that the lookahead accepts, without crossing a line
      terminator. The result is the end of the match. */
  function QuotedEnd(s: string, j: nat): (r: Option<nat>)
    requires j <= |s|
    ensures r.Some? ==> j < r.value <= |s| && s[r.value - 1] == '"' && FieldEnds(s, r.value)
    ensures r.Some? ==> forall i :: j <= i < r.value ==> !IsLineTerminator(s[i])
    ensures r.Some? ==> forall i :: j <= i < r.value - 1 ==> !(s[i] == '"' && FieldEnds(s, i + 1))
    ensures r.None? ==> forall i :: j <= i < |s| && s[i] == '"' && FieldEnds(s, i + 1) ==>
                          exists k :: j <= k < i && IsLineTerminator(s[k])
    decreases |s| - j
  {
    if j == |s| then None
    else if s[j] == '"' && FieldEnds(s, j + 1) then Some(j + 1)
    else if IsLineTerminator(s[j]) then None
    else QuotedEnd(s, j + 1)
  }

  /** The end of the longest run of field characters starting at `p`. */
  function BareEnd(s: string, p: nat): (r: nat)
    requires p <= |s|
    ensures p <= r <= |s|
    ensures forall i :: p <= i < r ==> IsBareChar(s[i])
    ensures r == |s| || !IsBareChar(s[r])
    decreases |s| - p
  {
    if p < |s| && IsBareChar(s[p]) then BareEnd(s, p + 1) else p
  }

  /** The end of the match that starts at `p`, if any. The quoted alternative
      is tried first; the unquoted one can only end where its run ends,
      since the lookahead fails on a field character. */
  function MatchAt(s: string, p: nat): (r: Option<nat>)
    requires p < |s|
    ensures r.Some? ==> p < r.value <= |s| && FieldEnds(s, r.value) && IsField(s[p..r.value])
  {
    var quoted := if s[p] == '"' then QuotedEnd(s, p + 1) else None;
    if quoted.Some? then
      var e := quoted.value;
      assert s[p..e][|s[p..e]| - 1] == s[e - 1];
      quoted
    else
      var e := BareEnd(s, p);
      if e > p && FieldEnds(s, e) then Some(e) else None
  }

  /** The shape of every field the pattern yields: a quoted text, or a
      non-empty run without quotes, commas or white space. */
  predicate IsField(t: string) {
    || (|t| >= 2 && t[0] == '"' && t[|t| - 1] == '"')
    || (t != [] && forall i :: 0 <= i < |t| ==> IsBareChar(t[i]))
  }

  /** `line.match(pattern)` with the `g` flag, from position `p`: each match
      is taken and the search resumes at its end; where nothing matches the
      search moves on by one character. */
  function Fields(s: string, p: nat): (r: seq<string>)
    requires p <= |s|
    ensures forall i :: 0 <= i < |r| ==> IsField(r[i])
    decreases |s| - p
  {
    if p == |s| then []
    else
      match MatchAt(s, p)
      case Some(e) => [s[p..e]] + Fields(s, e)
      case None => Fields(s, p + 1)
  }

  /** `clean(s)` on a field the pattern yielded: one leading and one
      trailing quote removed, then trimmed. A quoted field loses its quotes
      and the white space inside them; an unquoted field is kept as it is. */
  function Clean(t: string): (r: string)
    ensures IsField(t) && t[0] == '"' ==> r == Trim(t[1..|t| - 1])
    ensures IsField(t) && t[0] != '"' ==> r == t
    ensures IsTrimmed(r)
  {
    assert IsField(t) && t[0] != '"' ==> NoSpaces(t);
    Trim(StripQuotes(t))
  }

  /** `clean(parts[i])`: a field the line does not have reads as `""`. */
  function Part(parts: seq<string>, i: nat): (r: string)
    ensures i >= |parts| ==> r == []
    ensures i < |parts| ==> r == Clean(parts[i])
  {
    if i < |parts| then Clean(parts[i]) else []
  }

  /** The product a line describes, its fields taken by position. */
  function Product(parts: seq<string>): (p: TobaccoProduct)
    ensures p.tradeName == Part(parts, 0) && p.packagingStyle == Part(parts, 1)
    ensures p.upc == Part(parts, 2) && p.cartonName == Part(parts, 3)
    ensures p.cartonUpc == Part(parts, 4) && p.manufacturer == Part(parts, 5)
    ensures |parts| >= 6 ==>
              p == TobaccoProduct(Clean(parts[0]), Clean(parts[1]), Clean(parts[2]),
                                  Clean(parts[3]), Clean(parts[4]), Clean(parts[5]))
    ensures |parts| < 6 ==> p.manufacturer == []
    ensures |parts| < 5 ==> p.cartonUpc == [] && p.manufacturer == []
    ensures |parts| < 3 ==> p.upc == [] && p.cartonUpc == []
    ensures IsTrimmed(p.tradeName) && IsTrimmed(p.packagingStyle) && IsTrimmed(p.upc)
    ensures IsTrimmed(p.cartonName) && IsTrimmed(p.cartonUpc) && IsTrimmed(p.manufacturer)
  {
    TobaccoProduct(Part(parts, 0), Part(parts, 1), Part(parts, 2),
                   Part(parts, 3), Part(parts, 4), Part(parts, 5))
  }

  /** What one data line contributes: nothing when it is blank or has no
      field, otherwise its product. */
  function LineProduct(line: string): (r: Option<TobaccoProduct>)
    ensures Trim(line) == [] ==> r.None?
    ensures r.Some? <==> Fields(Trim(line), 0) != []
  {
    var t := Trim(line);
    if t == [] then None
    else
      var parts := Fields(t, 0);
      if parts == [] then None else Some(Product(parts))
  }

  /* ---------- The index ---------- */

  /** The codes a product is indexed under: those of its two codes that are not empty. */
  function Codes(p: TobaccoProduct): (r: set<string>)
    ensures forall k :: k in r <==> k != [] && (k == p.upc || k == p.cartonUpc)
  {
    (if p.upc != [] then {p.upc} else {}) + (if p.cartonUpc != [] then {p.cartonUpc} else {})
  }

  /** The two `products.set` calls of one line: unit code, then carton code. */
  function Store(m: map<string, TobaccoProduct>, line: Option<TobaccoProduct>): (r: map<string, TobaccoProduct>)
    ensures line.None? ==> r == m
    ensures line.Some? ==> r.Keys == m.Keys + Codes(line.value)
    ensures line.Some? ==> forall k :: k in r ==> r[k] == if k in Codes(line.value) then line.value else m[k]
  {
    match line
    case None => m
    case Some(p) =>
      var withUnit := if p.upc != [] then m[p.upc := p] else m;
      if p.cartonUpc != [] then withUnit[p.cartonUpc := p] else withUnit
  }

  /** What each data line contributes, line by line. */
  function LineProducts(lines: seq<string>): (r: seq<Option<TobaccoProduct>>)
    ensures |r| == |lines|
    decreases |lines|
  {
    if lines == [] then []
    else LineProducts(lines[..|lines| - 1]) + [LineProduct(lines[|lines| - 1])]
  }

  /** The index built from the lines' products, in order. */
  function Index(entries: seq<Option<TobaccoProduct>>): (m: map<string, TobaccoProduct>)
    decreases |entries|
  {
    if entries == [] then map[]
    else Store(Index(entries[..|entries| - 1]), entries[|entries| - 1])
  }

  /** `parseCSV`: the products of every line after the first, in order. */
  method ParseCsv(csv: string) returns (products: map<string, TobaccoProduct>)
    ensures products == Index(LineProducts(Split(csv)[1..]))
  {
    var lines := Split(csv);
    products := map[];
    for i := 1 to |lines|
      invariant products == Index(LineProducts(lines[1..i]))
    {
      LineProductsSnoc(lines, i);
      IndexSnoc(LineProducts(lines[1..i]), LineProduct(lines[i]));
      var line := Trim(lines[i]);
      if line == [] {
        continue;
      }
      var parts := Fields(line, 0);
      if parts == [] {
        continue;
      }
      var product := Product(parts);
      assert LineProduct(lines[i]) == Some(product);
      if product.upc != [] {
        products := products[product.upc := product];
      }
      if product.cartonUpc != [] {
        products := products[product.cartonUpc := product];
      }
    }
    assert lines[1..|lines|] == lines[1..];
  }

  lemma LineProductsSnoc(lines: seq<string>, i: nat)
    requires 1 <= i < |lines|
    ensures LineProducts(lines[1..i + 1]) == LineProducts(lines[1..i]) + [LineProduct(lines[i])]
  {
    var s := lines[1..i + 1];
    assert s != [] && s[..|s| - 1] == lines[1..i] && s[|s| - 1] == lines[i];
  }

  lemma IndexSnoc(es: seq<Option<TobaccoProduct>>, e: Option<TobaccoProduct>)
    ensures Index(es + [e]) == Store(Index(es), e)
  {
    assert (es + [e])[..|es|] == es;
  }

  /** The entry is a product one of whose codes is `k`. */
  predicate Writes(e: Option<TobaccoProduct>, k: string) {
    e.Some? && k in Codes(e.value)
  }

  /** A code is indexed exactly when some line's product has it as its unit
      or carton code. */
  lemma {:induction false} IndexDomain(es: seq<Option<TobaccoProduct>>, k: string)
    ensures k in Index(es) <==> exists i :: 0 <= i < |es| && Writes(es[i], k)
    decreases |es|
  {
    if es != [] {
      var init := es[..|es| - 1];
      IndexDomain(init, k);
      assert forall i :: 0 <= i < |init| ==> init[i] == es[i];
      if k in Index(init) {
        var i :| 0 <= i < |init| && Writes(init[i], k);
        assert Writes(es[i], k);
      }
    }
  }

  /** Every key is a non-empty code, written exactly as the unit or carton
      code of the product it finds. */
  lemma {:induction false} IndexKeysOwn(es: seq<Option<TobaccoProduct>>)
    ensures forall k :: k in Index(es) ==>
              k != [] && (k == Index(es)[k].upc || k == Index(es)[k].cartonUpc)
    decreases |es|
  {
    if es != [] {
      IndexKeysOwn(es[..|es| - 1]);
    }
  }

  /** The product a code finds is that of the last line writing the code. */
  lemma {:induction false} IndexLastWins(es: seq<Option<TobaccoProduct>>, i: nat, k: string)
    requires i < |es| && Writes(es[i], k)
    requires forall j :: i < j < |es| ==> !Writes(es[j], k)
    ensures k in Index(es) && Index(es)[k] == es[i].value
    decreases |es|
  {
    var init := es[..|es| - 1];
    if i < |es| - 1 {
      assert init[i] == es[i];
      assert forall j :: i < j < |init| ==> init[j] == es[j];
      IndexLastWins(init, i, k);
    }
  }

  /** The header line is never indexed: the index of a text is that of the
      text after its first line feed. */
  lemma HeaderIgnored(header: string, body: string)
    requires '\n' !in header
    ensures LineProducts(Split(header + "\n" + body)[1..]) == LineProducts(Split(body))
  {
    SplitHeader(header, body);
    assert ([header] + Split(body))[1..] == Split(body);
  }

  /** Empty cells yield no field, so the fields after them move left: in a
      line with empty carton cells, the manufacturer lands in the carton name,
      the carton code is empty, and only the unit code is indexed. */
  lemma EmptyCellsShiftFields(line: string)
    requires ExampleShape(line)
    ensures Fields(line, 0) == ["\"A\"", "\"B\"", "1", "\"M\""]
    ensures LineProduct(line) == Some(TobaccoProduct("A", "B", "1", "M", "", ""))
    ensures Codes(LineProduct(line).value) == {"1"}
  {
    ExampleFields(line);
    ExampleParts(line);
    ExampleLineProduct(line);
  }

  lemma ExampleLineProduct(line: string)
    requires ExampleShape(line)
    ensures LineProduct(line) == Some(TobaccoProduct("A", "B", "1", "M", "", ""))
  {
    var a, b, u, m := line[0..3], line[4..7], line[8..9], line[12..15];
    ExampleFields(line);
    ExampleParts(line);
    LetterFields(a, b, u, m, 'A', 'B', '1', 'M');
    ExampleTrimmed(line);
    TrimmedLine(line, [a, b, u, m]);
  }

  lemma ExampleTrimmed(line: string)
    requires ExampleShape(line)
    ensures IsTrimmed(line)
  {
    QuoteIsNotSpace();
    assert line[|line| - 1] == line[14];
  }

  lemma QuoteIsNotSpace()
    ensures !IsSpace('"')
  {
  }

  /** A line with no white space at either end describes the product of its fields. */
  lemma TrimmedLine(line: string, parts: seq<string>)
    requires IsTrimmed(line) && Fields(line, 0) == parts && parts != []
    ensures LineProduct(line) == Some(Product(parts))
  {
  }

  /** Three quoted letters and a digit, as four fields. */
  lemma LetterFields(a: string, b: string, u: string, m: string, ca: char, cb: char, cu: char, cm: char)
    requires a == ['"', ca, '"'] && b == ['"', cb, '"'] && u == [cu] && m == ['"', cm, '"']
    requires !IsSpace(ca) && !IsSpace(cb) && IsDigit(cu) && !IsSpace(cm)
    ensures IsField(a) && IsField(b) && IsField(u) && IsField(m)
    ensures Product([a, b, u, m]) == TobaccoProduct([ca], [cb], [cu], [cm], "", "")
  {
    CleanQuotedLetter(a, ca);
    CleanQuotedLetter(b, cb);
    CleanQuotedLetter(m, cm);
    CleanBareDigit(u, cu);
    FourFields(a, b, u, m);
  }

  /** A line with four fields has an empty carton code and manufacturer. */
  lemma FourFields(a: string, b: string, u: string, m: string)
    ensures Product([a, b, u, m]) == TobaccoProduct(Clean(a), Clean(b), Clean(u), Clean(m), "", "")
  {
  }

  lemma CleanBareDigit(t: string, c: char)
    requires t == [c] && IsDigit(c)
    ensures IsField(t) && Clean(t) == [c]
  {
  }

  /** The line `"A","B",1,,,"M"`, one character at a time: a trade name, a
      packaging style, a unit code, two empty carton cells and a manufacturer. */
  predicate ExampleShape(line: string) {
    && |line| == 15
    && line[0] == '"' && line[1] == 'A' && line[2] == '"' && line[3] == ','
    && line[4] == '"' && line[5] == 'B' && line[6] == '"' && line[7] == ','
    && line[8] == '1' && line[9] == ',' && line[10] == ',' && line[11] == ','
    && line[12] == '"' && line[13] == 'M' && line[14] == '"'
  }

  lemma ExampleFields(line: string)
    requires ExampleShape(line)
    ensures Fields(line, 0) == [line[0..3], line[4..7], line[8..9], line[12..15]]
  {
    ExampleMiddle(line);
    NoFieldAtComma(line, 3);
    QuotedField(line, 0, 3);
  }

  lemma ExampleMiddle(line: string)
    requires ExampleShape(line)
    ensures Fields(line, 4) == [line[4..7], line[8..9], line[12..15]]
  {
    ExampleTail(line);
    NoFieldAtComma(line, 7);
    QuotedField(line, 4, 7);
  }

  lemma ExampleTail(line: string)
    requires ExampleShape(line)
    ensures Fields(line, 8) == [line[8..9], line[12..15]]
  {
    QuotedField(line, 12, 15);
    NoFieldAtComma(line, 11);
    NoFieldAtComma(line, 10);
    NoFieldAtComma(line, 9);
    BareField(line, 8, 9);
  }

  lemma ExampleParts(line: string)
    requires ExampleShape(line)
    ensures line[0..3] == ['"', 'A', '"'] && line[4..7] == ['"', 'B', '"']
    ensures line[8..9] == ['1'] && line[12..15] == ['"', 'M', '"']
    ensures [line[0..3], line[4..7], line[8..9], line[12..15]] == ["\"A\"", "\"B\"", "1", "\"M\""]
  {
  }

  lemma CleanQuotedLetter(t: string, c: char)
    requires t == ['"', c, '"'] && !IsSpace(c)
    ensures IsField(t) && Clean(t) == [c]
  {
    assert t[1..|t| - 1] == [c];
  }

  /** A field starts with no comma: where a cell is empty, the search moves on. */
  lemma NoFieldAtComma(s: string, p: nat)
    requires p < |s| && s[p] == ','
    ensures Fields(s, p) == Fields(s, p + 1)
  {
  }

  /** A quoted cell with no quote inside, followed by a comma or the end,
      is one field. */
  lemma QuotedField(s: string, p: nat, e: nat)
    requires p + 2 <= e <= |s| && s[p] == '"' && s[e - 1] == '"'
    requires forall i :: p < i < e - 1 ==> s[i] != '"' && !IsLineTerminator(s[i])
    requires e == |s| || s[e] == ','
    ensures Fields(s, p) == [s[p..e]] + Fields(s, e)
  {
    QuotedScan(s, p + 1, e);
  }

  lemma {:induction false} QuotedScan(s: string, j: nat, e: nat)
    requires j < e <= |s| && s[e - 1] == '"'
    requires forall i :: j <= i < e - 1 ==> s[i] != '"' && !IsLineTerminator(s[i])
    requires e == |s| || s[e] == ','
    ensures QuotedEnd(s, j) == Some(e)
    decreases e - j
  {
    assert SkipSpaces(s, e) == e;
    if j < e - 1 {
      QuotedScan(s, j + 1, e);
    }
  }

  /** An unquoted cell followed by a comma or the end is one field. */
  lemma BareField(s: string, p: nat, e: nat)
    requires p < e <= |s|
    requires forall i :: p <= i < e ==> IsBareChar(s[i])
    requires e == |s| || s[e] == ','
    ensures Fields(s, p) == [s[p..e]] + Fields(s, e)
  {
    BareScan(s, p, e);
    assert SkipSpaces(s, e) == e;
  }

  lemma {:induction false} BareScan(s: string, p: nat, e: nat)
    requires p <= e <= |s|
    requires forall i :: p <= i < e ==> IsBareChar(s[i])
    requires e == |s| || s[e] == ','
    ensures BareEnd(s, p) == e
    decreases e - p
  {
    if p < e {
      BareScan(s, p + 1, e);
    }
  }
}
