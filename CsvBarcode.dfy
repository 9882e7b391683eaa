/**
  The standalone cell expander of `src/csvBarcode.ts`. It differs from the
  catalog's copy in two ways: a cell carrying a `sku:` tag (in any letter
  case) is returned untouched, and a negative mantissa keeps its `-` sign.
  Once reduced to digits, the two copies agree on every cell.
 */
module CsvBarcode {
  import opened Text
  import opened SciNotation
  import Catalog

  /** `/sku:/i.test(v)`: `sku:` occurs in `v`, the letters in either case
      (a non-Unicode case-insensitive pattern folds ASCII letters only). */
  predicate HasSkuTag(v: string) {
    exists i :: 0 <= i && i + 4 <= |v| && IsSkuTagAt(v, i)
  }

  predicate IsSkuTagAt(v: string, i: nat)
    requires i + 4 <= |v|
  {
    && (v[i] == 's' || v[i] == 'S')
    && (v[i + 1] == 'k' || v[i + 1] == 'K')
    && (v[i + 2] == 'u' || v[i + 2] == 'U')
    && v[i + 3] == ':'
  }

  /** An ASCII capital letter in lower case; any other character as it is. */
  function LowerAscii(c: char): char {
    if 'A' <= c <= 'Z' then (c as int + 32) as char else c
  }

  /** The four characters from `i` on, ASCII letters folded to lower case. */
  function FoldedAt(v: string, i: nat): string
    requires i + 4 <= |v|
  {
    [LowerAscii(v[i]), LowerAscii(v[i + 1]), LowerAscii(v[i + 2]), LowerAscii(v[i + 3])]
  }

  /** The tag test ignores the case of ASCII letters only: a tag is present
      exactly when some four characters, so folded, read `sku:`. */
  lemma SkuTagIgnoresCase(v: string)
    ensures HasSkuTag(v) <==> exists i :: 0 <= i && i + 4 <= |v| && FoldedAt(v, i) == "sku:"
  {
    forall i | 0 <= i && i + 4 <= |v|
      ensures IsSkuTagAt(v, i) <==> FoldedAt(v, i) == "sku:"
    {
      var f := FoldedAt(v, i);
      assert f == "sku:" <==> f[0] == 's' && f[1] == 'k' && f[2] == 'u' && f[3] == ':';
    }
  }

  /** `"-"` when the mantissa starts with a minus sign, otherwise `""`. */
  function SignText(x: Sci): (r: string)
    ensures r == "-" <==> x.sign == "-"
    ensures r == "" <==> x.sign != "-"
  {
    if x.sign == "-" then "-" else ""
  }

  /** `expandScientific`: a blank cell gives `""`; a tagged cell is returned
      unquoted and trimmed; a cell that is not scientific notation loses its
      white space; otherwise the expansion, behind a `-` for a negative mantissa. */
  function ExpandScientific(raw: string): (r: string)
    ensures Trim(raw) == [] ==> r == []
    ensures Trim(raw) != [] && HasSkuTag(Unquote(raw)) ==> r == Unquote(raw)
  {
    if Trim(raw) == [] then []
    else
      var v := Unquote(raw);
      if HasSkuTag(v) then v
      else
        var cleaned := RemoveSpaces(v);
        match Match(cleaned)
        case None => cleaned
        case Some(x) => SignText(x) + Expansion(x)
  }

  /** `cleanCsvBarcode`: the digits of the expanded cell. */
  function CleanCsvBarcode(raw: string): (r: string)
    ensures IsDigits(r)
    ensures r == Catalog.CleanCsvBarcode(raw)
  {
    var e := ExpandScientific(raw);
    CleanVariantsAgree(raw);
    Digits(e)
  }

  /** The two cell cleaners agree on every cell: the `sku:` shortcut and the
      kept sign only change characters that the digit filter deletes. */
  lemma CleanVariantsAgree(raw: string)
    ensures Digits(ExpandScientific(raw)) == Catalog.CleanCsvBarcode(raw)
  {
    var v := Unquote(raw);
    var cleaned := RemoveSpaces(v);
    if Trim(raw) == [] {
      assert v == [];
    } else if HasSkuTag(v) {
      SkuTagIsNotNotation(v);
      DigitsIgnoreSpaces(v);
    } else if Match(cleaned).Some? {
      SignedExpansionDigits(Match(cleaned).value);
    } else {
      DigitsIgnoreSpaces(v);
    }
  }

  lemma SignedExpansionDigits(x: Sci)
    requires WellFormed(x)
    ensures Digits(SignText(x) + Expansion(x)) == Expansion(x)
  {
    DigitsAppend(SignText(x), Expansion(x));
    assert Digits(SignText(x)) == [];
  }

  /** Without a `sku:` tag, the standalone expander returns the catalog's
      expansion with the mantissa's minus sign, if any, in front. */
  lemma ExpandVariantsAgree(raw: string)
    requires !HasSkuTag(Unquote(raw))
    ensures var m := Match(RemoveSpaces(Unquote(raw)));
            ExpandScientific(raw) ==
              (if m.Some? && m.value.sign == "-" then "-" else "") + Catalog.ExpandScientific(raw)
  {
    var m := Match(RemoveSpaces(Unquote(raw)));
    var e := Catalog.ExpandScientific(raw);
    if Trim(raw) == [] {
      BlankVariantsAgree(raw);
      assert m.None?;
      NoPrefix(e);
    } else if m.None? {
      PlainVariantsAgree(raw);
      NoPrefix(e);
    } else {
      NotationVariantsAgree(raw);
      assert SignText(m.value) == if m.value.sign == "-" then "-" else "";
    }
  }

  lemma NoPrefix(e: string)
    ensures "" + e == e
  {
  }

  lemma BlankVariantsAgree(raw: string)
    requires Trim(raw) == []
    ensures ExpandScientific(raw) == [] == Catalog.ExpandScientific(raw)
  {
  }

  lemma PlainVariantsAgree(raw: string)
    requires Trim(raw) != [] && !HasSkuTag(Unquote(raw)) && Match(RemoveSpaces(Unquote(raw))).None?
    ensures ExpandScientific(raw) == Catalog.ExpandScientific(raw)
  {
  }

  lemma NotationVariantsAgree(raw: string)
    requires Trim(raw) != [] && !HasSkuTag(Unquote(raw)) && Match(RemoveSpaces(Unquote(raw))).Some?
    ensures ExpandScientific(raw) ==
              SignText(Match(RemoveSpaces(Unquote(raw))).value) + Catalog.ExpandScientific(raw)
  {
  }

  /** A tagged cell is never read as scientific notation: the tag's colon
      survives the white-space removal and the pattern has no colon. */
  lemma SkuTagIsNotNotation(v: string)
    requires HasSkuTag(v)
    ensures Match(RemoveSpaces(v)).None?
  {
    var i :| 0 <= i && i + 4 <= |v| && IsSkuTagAt(v, i);
    KeepsNonSpace(v, i + 3);
    var s := RemoveSpaces(v);
    if Match(s).Some? {
      MatchSound(s);
      NoColonInRender(Match(s).value);
      assert false;
    }
  }

  /** Removing white space keeps every other character. */
  lemma {:induction false} KeepsNonSpace(s: string, i: nat)
    requires i < |s| && !IsSpace(s[i])
    ensures s[i] in RemoveSpaces(s)
    decreases i
  {
    if i > 0 {
      KeepsNonSpace(s[1..], i - 1);
    }
  }

  /** The text of a match is made of digits, signs, `.` and the exponent marker. */
  lemma NoColonInRender(x: Sci)
    requires WellFormed(x)
    ensures ':' !in Render(x)
  {
    if ':' in Render(x) {
      var i :| 0 <= i < |Render(x)| && Render(x)[i] == ':';
      RenderAlphabet(x, i);
    }
  }

  /** The first example of the file's header: the cell a spreadsheet shows
      for the 12-digit code 879982001196. */
  lemma FullPrecisionExample(cell: string)
    requires cell == "8.79982001196E+11"
    ensures ExpandScientific(cell) == "879982001196"
    ensures Catalog.ExpandScientific(cell) == "879982001196"
    ensures CleanCsvBarcode(cell) == "879982001196"
  {
    var p := "879982001196";
    FullPrecisionText(cell, p);
    PointedCell(p, 0, cell);
    NoZeros(p);
  }

  lemma FullPrecisionText(cell: string, p: string)
    requires cell == "8.79982001196E+11" && p == "879982001196"
    ensures cell == p[..1] + "." + p[1..] + "E+" + DecimalString(|p| - 1 + 0)
  {
    Eleven();
    FullPrecisionPieces(p);
    FullPrecisionJoin();
  }

  lemma FullPrecisionPieces(p: string)
    requires p == "879982001196"
    ensures p[..1] == "8" && p[1..] == "79982001196" && |p| - 1 + 0 == 11
  {
  }

  lemma FullPrecisionJoin()
    ensures "8" + "." + "79982001196" + "E+" + "11" == "8.79982001196E+11"
  {
  }

  /** The second example: a cell rounded to six significant digits can only
      expand to those digits followed by zeros. */
  lemma RoundedExample(cell: string)
    requires cell == "8.79982E+11"
    ensures ExpandScientific(cell) == "879982000000"
    ensures Catalog.ExpandScientific(cell) == "879982000000"
    ensures CleanCsvBarcode(cell) == "879982000000"
  {
    var p := "879982";
    RoundedText(cell, p);
    PointedCell(p, 6, cell);
    SixZeros(p);
  }

  lemma RoundedText(cell: string, p: string)
    requires cell == "8.79982E+11" && p == "879982"
    ensures cell == p[..1] + "." + p[1..] + "E+" + DecimalString(|p| - 1 + 6)
  {
    Eleven();
    assert p[..1] == "8" && p[1..] == "79982";
  }

  /** `SpreadsheetCell` for a code of two digits or more, its fraction
      written after a point. */
  lemma PointedCell(p: string, zeros: nat, cell: string)
    requires |p| >= 2 && IsDigits(p) && p[0] != '0'
    requires cell == p[..1] + "." + p[1..] + "E+" + DecimalString(|p| - 1 + zeros)
    ensures ExpandScientific(cell) == p + Zeros(zeros)
    ensures Catalog.ExpandScientific(cell) == p + Zeros(zeros)
    ensures CleanCsvBarcode(cell) == p + Zeros(zeros)
  {
    assert FractionText(p[1..]) == "." + p[1..];
    Assoc(p[..1], ".", p[1..]);
    SpreadsheetCell(p, zeros, cell);
  }

  lemma Eleven()
    ensures DecimalString(11) == "11"
  {
    assert DecimalString(1) == "1";
  }

  /** The cell a spreadsheet shows for the digits `p` followed by `zeros`
      zeros, `d.ddd…E+n` with one digit before the point (`dE+n` for a
      single digit), cleans back to exactly those digits. */
  lemma SpreadsheetCell(p: string, zeros: nat, cell: string)
    requires |p| >= 1 && IsDigits(p) && p[0] != '0'
    requires cell == p[..1] + FractionText(p[1..]) + "E+" + DecimalString(|p| - 1 + zeros)
    ensures ExpandScientific(cell) == p + Zeros(zeros)
    ensures Catalog.ExpandScientific(cell) == p + Zeros(zeros)
    ensures CleanCsvBarcode(cell) == p + Zeros(zeros)
  {
    var x := Sci("", p[..1], p[1..], 'E', "+", DecimalString(|p| - 1 + zeros));
    RoundTrip(p, zeros);
    CellText(x, cell);
    CleanNotation(x);
  }

  lemma SixZeros(p: string)
    requires p == "879982"
    ensures p + Zeros(6) == "879982000000"
  {
    var z := Zeros(6);
    assert z == "000000";
  }

  lemma NoZeros(p: string)
    requires p == "879982001196"
    ensures p + Zeros(0) == "879982001196"
  {
  }

  lemma CellText(x: Sci, cell: string)
    requires x.sign == "" && x.marker == 'E' && x.expSign == "+"
    requires cell == x.intDigits + FractionText(x.fracDigits) + "E+" + x.expDigits
    ensures Render(x) == cell
  {
    var a, t, d := x.intDigits, FractionText(x.fracDigits), x.expDigits;
    assert ExponentText('E', "+", d) == "E+" + d;
    Assoc(a + t, "E+", d);
    Assoc(a, t, "E+" + d);
  }

  /** The text of a well-formed match, alone in a cell, expands to its
      expansion in both copies (behind the sign in this one), and so cleans
      to that expansion. */
  lemma CleanNotation(x: Sci)
    requires WellFormed(x)
    ensures ExpandScientific(Render(x)) == SignText(x) + Expansion(x)
    ensures Catalog.ExpandScientific(Render(x)) == Expansion(x)
    ensures CleanCsvBarcode(Render(x)) == Expansion(x)
  {
    var cell := Render(x);
    MatchRender(x);
    NotationHasNoSpaces(x);
    assert Trim(cell) == cell;
    assert StripQuotes(cell) == cell;
    assert Unquote(cell) == cell;
    assert RemoveSpaces(cell) == cell;
    NoSkuTagInRender(x);
  }

  /** The text of a match carries no `sku:` tag: it has no colon. */
  lemma NoSkuTagInRender(x: Sci)
    requires WellFormed(x)
    ensures !HasSkuTag(Render(x))
  {
    var s := Render(x);
    if HasSkuTag(s) {
      var i :| 0 <= i && i + 4 <= |s| && IsSkuTagAt(s, i);
      assert s[i + 3] == ':';
      NoColonInRender(x);
      assert false;
    }
  }

  /** The text of a match has no white space, and neither end is a quote. */
  lemma NotationHasNoSpaces(x: Sci)
    requires WellFormed(x)
    ensures NoSpaces(Render(x)) && IsTrimmed(Render(x))
    ensures Render(x)[0] != '"' && Render(x)[|Render(x)| - 1] != '"'
  {
    var s := Render(x);
    forall i | 0 <= i < |s| ensures !IsSpace(s[i]) && s[i] != '"' {
      RenderAlphabet(x, i);
    }
  }

  /** Every character of a match's text is a digit, a sign, `.` or the marker. */
  lemma RenderAlphabet(x: Sci, i: nat)
    requires WellFormed(x) && i < |Render(x)|
    ensures var c := Render(x)[i]; IsDigit(c) || c in "+-.eE"
  {
    var b := FractionText(x.fracDigits) + ExponentText(x.marker, x.expSign, x.expDigits);
    var e := ExponentText(x.marker, x.expSign, x.expDigits);
    var s := Render(x);
    if i < |x.sign| {
    } else if i < |x.sign| + |x.intDigits| {
      assert s[i] == x.intDigits[i - |x.sign|];
    } else {
      var j := i - |x.sign| - |x.intDigits|;
      assert s[i] == b[j];
      if j < |FractionText(x.fracDigits)| {
        if j > 0 { assert b[j] == x.fracDigits[j - 1]; }
      } else {
        var t := j - |FractionText(x.fracDigits)|;
        assert b[j] == e[t];
        if t > 0 && t <= |x.expSign| {
          assert e[t] == x.expSign[t - 1];
        } else if t > |x.expSign| {
          assert e[t] == x.expDigits[t - 1 - |x.expSign|];
        }
      }
    }
  }
}
