/**
  Spreadsheet scientific notation, shared by both cell expanders: the
  pattern `^([+-]?\d+(?:\.\d+)?)[eE]([+-]?\d+)$`, as a matcher with its
  exact inverse, and the digit string a match expands to.
 */
module SciNotation {
  import opened Text
  import opened Types

  /** A string the pattern accepts, cut into its parts: the mantissa's sign,
      integer digits and fraction digits (empty when there is no `.`), the
      exponent marker, and the exponent's sign and digits. */
  datatype Sci = Sci(
    sign: string,
    intDigits: string,
    fracDigits: string,
    marker: char,
    expSign: string,
    expDigits: string)

  /** `[+-]?` */
  predicate IsSign(t: string) {
    t == "" || t == "+" || t == "-"
  }

  predicate WellFormed(x: Sci) {
    && IsSign(x.sign)
    && x.intDigits != [] && IsDigits(x.intDigits)
    && IsDigits(x.fracDigits)
    && (x.marker == 'e' || x.marker == 'E')
    && IsSign(x.expSign)
    && x.expDigits != [] && IsDigits(x.expDigits)
  }

  /** `(?:\.\d+)?` as written: empty when there are no fraction digits. */
  function FractionText(frac: string): string {
    if frac == [] then "" else "." + frac
  }

  /** `[eE][+-]?\d+` as written. */
  function ExponentText(marker: char, expSign: string, expDigits: string): string {
    [marker] + expSign + expDigits
  }

  /** The text a match was cut from. */
  function Render(x: Sci): string {
    x.sign + (x.intDigits + (FractionText(x.fracDigits) + ExponentText(x.marker, x.expSign, x.expDigits)))
  }

  /** The optional sign at the front of `s`. */
  function SignPrefix(s: string): (r: string)
    ensures IsSign(r) && |r| <= |s| && r == s[..|r|]
    ensures r == [] <==> s == [] || (s[0] != '+' && s[0] != '-')
  {
    if s != [] && (s[0] == '+' || s[0] == '-') then s[..1] else ""
  }

  /** The length of the longest run of digits at the front of `s` (what a greedy `\d+` consumes). */
  function DigitRun(s: string): (n: nat)
    ensures n <= |s| && IsDigits(s[..n])
    ensures n == |s| || !IsDigit(s[n])
  {
    if s != [] && IsDigit(s[0]) then
      var n := 1 + DigitRun(s[1..]);
      assert s[..n] == [s[0]] + s[1..][..n - 1];
      n
    else 0
  }

  lemma {:induction false} DigitRunOf(d: string, rest: string)
    requires IsDigits(d)
    requires rest == [] || !IsDigit(rest[0])
    ensures DigitRun(d + rest) == |d|
    decreases |d|
  {
    if d != [] {
      assert (d + rest)[1..] == d[1..] + rest;
      DigitRunOf(d[1..], rest);
    } else {
      assert d + rest == rest;
    }
  }

  lemma SplitAt(s: string, k: nat)
    requires k <= |s|
    ensures s[..k] + s[k..] == s
  {
  }

  lemma Halves(x: string, y: string)
    ensures (x + y)[..|x|] == x && (x + y)[|x|..] == y
  {
  }

  lemma Assoc(x: string, y: string, z: string)
    ensures (x + y) + z == x + (y + z)
  {
  }

  /** The exponent part `[eE]([+-]?\d+)$`: marker, sign and digits. */
  function MatchExponent(c: string): (r: Option<(char, string, string)>)
    ensures r.Some? ==>
              && (r.value.0 == 'e' || r.value.0 == 'E') && IsSign(r.value.1)
              && r.value.2 != [] && IsDigits(r.value.2)
              && ExponentText(r.value.0, r.value.1, r.value.2) == c
  {
    if c == [] || (c[0] != 'e' && c[0] != 'E') then None
    else
      var d := c[1..];
      var expSign := SignPrefix(d);
      var e := d[|expSign|..];
      if e == [] || DigitRun(e) != |e| then None
      else
        SplitAt(e, |e|);
        SplitAt(d, |expSign|);
        SplitAt(c, 1);
        assert c[..1] == [c[0]];
        Some((c[0], expSign, e))
  }

  lemma MatchExponentOf(marker: char, expSign: string, expDigits: string)
    requires marker == 'e' || marker == 'E'
    requires IsSign(expSign) && expDigits != [] && IsDigits(expDigits)
    ensures MatchExponent(ExponentText(marker, expSign, expDigits)) == Some((marker, expSign, expDigits))
  {
    var d := expSign + expDigits;
    Assoc([marker], expSign, expDigits);
    Halves([marker], d);
    SignPrefixOf(expSign, expDigits);
    Halves(expSign, expDigits);
    DigitRunOf(expDigits, "");
    assert expDigits + "" == expDigits;
  }

  /** A sign in front of a digit is exactly what `[+-]?` takes. */
  lemma SignPrefixOf(sign: string, rest: string)
    requires IsSign(sign) && rest != [] && IsDigit(rest[0])
    ensures SignPrefix(sign + rest) == sign
  {
    if sign == "" {
      assert sign + rest == rest;
    } else {
      assert (sign + rest)[..1] == sign;
    }
  }

  /** What follows the integer digits: `(?:\.(\d+))?` and then the exponent part. */
  function MatchTail(b: string): (r: Option<(string, (char, string, string))>)
    ensures r.Some? ==>
              && IsDigits(r.value.0)
              && (r.value.1.0 == 'e' || r.value.1.0 == 'E') && IsSign(r.value.1.1)
              && r.value.1.2 != [] && IsDigits(r.value.1.2)
              && FractionText(r.value.0) + ExponentText(r.value.1.0, r.value.1.1, r.value.1.2) == b
  {
    if b != [] && b[0] == '.' then
      var rest := b[1..];
      var m := DigitRun(rest);
      if m == 0 then None
      else
        match MatchExponent(rest[m..])
        case None => None
        case Some(ex) =>
          SplitAt(rest, m);
          SplitAt(b, 1);
          assert b[..1] == ".";
          Assoc(".", rest[..m], rest[m..]);
          Some((rest[..m], ex))
    else
      match MatchExponent(b)
      case None => None
      case Some(ex) => Some(([], ex))
  }

  lemma MatchTailOf(frac: string, marker: char, expSign: string, expDigits: string)
    requires IsDigits(frac)
    requires marker == 'e' || marker == 'E'
    requires IsSign(expSign) && expDigits != [] && IsDigits(expDigits)
    ensures MatchTail(FractionText(frac) + ExponentText(marker, expSign, expDigits))
            == Some((frac, (marker, expSign, expDigits)))
  {
    var c := ExponentText(marker, expSign, expDigits);
    MatchExponentOf(marker, expSign, expDigits);
    if frac != [] {
      FractionTailOf(frac, c);
    } else {
      assert FractionText(frac) + c == c;
    }
  }

  lemma FractionTailOf(frac: string, c: string)
    requires frac != [] && IsDigits(frac)
    requires MatchExponent(c).Some?
    ensures MatchTail(FractionText(frac) + c) == Some((frac, MatchExponent(c).value))
  {
    var b := FractionText(frac) + c;
    Assoc(".", frac, c);
    Halves(".", frac + c);
    Halves(frac, c);
    DigitRunOf(frac, c);
  }

  /** `s.match(pattern)`: `None` when the pattern does not match the whole of `s`. */
  function Match(s: string): (r: Option<Sci>)
    ensures r.Some? ==> WellFormed(r.value)
  {
    var sign := SignPrefix(s);
    var a := s[|sign|..];
    var n := DigitRun(a);
    if n == 0 then None
    else
      match MatchTail(a[n..])
      case None => None
      case Some(t) =>
        var x := Sci(sign, a[..n], t.0, t.1.0, t.1.1, t.1.2);
        Some(x)
  }

  /** What the matcher accepts is exactly the text of the parts it returns. */
  lemma MatchSound(s: string)
    ensures Match(s).Some? ==> Render(Match(s).value) == s
  {
    var sign := SignPrefix(s);
    var a := s[|sign|..];
    var n := DigitRun(a);
    if n > 0 && MatchTail(a[n..]).Some? {
      var x := Match(s).value;
      var t := MatchTail(a[n..]).value;
      assert x == Sci(sign, a[..n], t.0, t.1.0, t.1.1, t.1.2);
      SplitAt(a, n);
      SplitAt(s, |sign|);
    }
  }

  /** Every well-formed match is recognised, and cut back into the same parts. */
  lemma MatchRender(x: Sci)
    requires WellFormed(x)
    ensures Match(Render(x)) == Some(x)
  {
    var s := Render(x);
    var b := FractionText(x.fracDigits) + ExponentText(x.marker, x.expSign, x.expDigits);
    var a := x.intDigits + b;
    assert SignPrefix(s) == x.sign;
    assert s[|x.sign|..] == a;
    assert b != [] && !IsDigit(b[0]);
    DigitRunOf(x.intDigits, b);
    assert a[..|x.intDigits|] == x.intDigits;
    assert a[|x.intDigits|..] == b;
    MatchTailOf(x.fracDigits, x.marker, x.expSign, x.expDigits);
  }

  /** `parseInt(expSign + expDigits, 10)` */
  function Exponent(x: Sci): int
    requires WellFormed(x)
  {
    if x.expSign == "-" then -(Value(x.expDigits) as int) else Value(x.expDigits)
  }

  /** How many zeros the expansion appends: the exponent less the number of fraction digits. */
  function Shift(x: Sci): int
    requires WellFormed(x)
  {
    Exponent(x) - |x.fracDigits|
  }

  /** `parseInt` reads the exponent's numeral back, with its sign. */
  lemma ExponentOfDecimal(x: Sci, n: nat)
    requires WellFormed(x) && x.expDigits == DecimalString(n)
    ensures Exponent(x) == if x.expSign == "-" then -(n as int) else n
  {
  }

  /** Moving the point: when the shift is not negative, the joined mantissa
      digits times ten to the shift are the integer digits times ten to the
      exponent plus the fraction digits times ten to the shift, which is the
      number the notation writes. */
  lemma ShiftPlacesPoint(x: Sci)
    requires WellFormed(x) && Shift(x) >= 0
    ensures IsDigits(x.intDigits + x.fracDigits) && Exponent(x) >= 0
    ensures Value(x.intDigits + x.fracDigits) * Pow10(Shift(x)) ==
              Value(x.intDigits) * Pow10(Exponent(x)) + Value(x.fracDigits) * Pow10(Shift(x))
  {
    var k := Shift(x);
    ValueAppend(x.intDigits, x.fracDigits);
    Pow10Add(|x.fracDigits|, k);
    assert Exponent(x) == |x.fracDigits| + k;
    ScaleSum(Value(x.intDigits), Pow10(|x.fracDigits|), Value(x.fracDigits), Pow10(k));
  }

  lemma ScaleSum(a: nat, p: nat, f: nat, q: nat)
    ensures (a * p + f) * q == a * (p * q) + f * q
  {
  }

  /** The mantissa's integer and fraction digits joined, leading zeros removed,
      and `"0"` when nothing is left. */
  function MantissaDigits(x: Sci): (r: string)
    requires WellFormed(x)
    ensures r != [] && IsDigits(r)
  {
    var stripped := StripLeadingZeros(x.intDigits + x.fracDigits);
    if stripped == [] then "0" else stripped
  }

  /** The mantissa digits denote the number the integer and fraction digits
      do when the point is ignored, and have no leading zero unless they are `0`. */
  lemma MantissaValue(x: Sci)
    requires WellFormed(x)
    ensures IsDigits(x.intDigits + x.fracDigits)
    ensures Value(MantissaDigits(x)) == Value(x.intDigits + x.fracDigits)
    ensures MantissaDigits(x)[0] != '0' || MantissaDigits(x) == "0"
  {
    var joined := x.intDigits + x.fracDigits;
    ValueStripLeadingZeros(joined);
    if StripLeadingZeros(joined) == [] {
      ValueZeroIffAllZeros(joined);
    }
  }

  /** The unsigned digit string a match expands to: the mantissa digits followed
      by `Shift(x)` zeros, or the mantissa digits alone when the shift is negative
      (a fractional value, which is not a barcode). */
  function Expansion(x: Sci): (r: string)
    requires WellFormed(x)
    ensures r != [] && IsDigits(r)
  {
    var digits := MantissaDigits(x);
    if Shift(x) < 0 then digits
    else
      ValueAppendZeros(digits, Shift(x));
      digits + Zeros(Shift(x))
  }

  /** The expansion denotes the mantissa, point ignored, times ten to the
      shift; a negative shift leaves the mantissa digits as they are. It has
      no leading zero unless the mantissa is zero, and then it is all zeros. */
  lemma ExpansionValue(x: Sci)
    requires WellFormed(x)
    ensures IsDigits(x.intDigits + x.fracDigits)
    ensures Shift(x) >= 0 ==> Value(Expansion(x)) == Value(x.intDigits + x.fracDigits) * Pow10(Shift(x))
    ensures Shift(x) < 0 ==> Value(Expansion(x)) == Value(x.intDigits + x.fracDigits)
    ensures Value(x.intDigits + x.fracDigits) > 0 ==> Expansion(x)[0] != '0'
    ensures Value(x.intDigits + x.fracDigits) == 0 ==>
              Expansion(x) == Zeros(1 + if Shift(x) >= 0 then Shift(x) else 0)
  {
    var digits := MantissaDigits(x);
    MantissaValue(x);
    ValueZeroIffAllZeros(digits);
    if Shift(x) < 0 {
      assert Zeros(1) == "0";
    } else {
      ValueAppendZeros(digits, Shift(x));
    }
  }

  /** A barcode written with one integer digit and the rest, if any, as
      fraction, as a spreadsheet shows it, expands back to the digits it was written from
      followed by whatever zeros the exponent calls for. */
  lemma RoundTrip(p: string, zeros: nat)
    requires |p| >= 1 && IsDigits(p) && p[0] != '0'
    ensures var x := Sci("", p[..1], p[1..], 'E', "+", DecimalString(|p| - 1 + zeros));
            WellFormed(x) && Expansion(x) == p + Zeros(zeros)
  {
    var x := Sci("", p[..1], p[1..], 'E', "+", DecimalString(|p| - 1 + zeros));
    assert x.intDigits + x.fracDigits == p;
    assert Shift(x) == zeros;
    assert StripLeadingZeros(p) == p;
    assert MantissaDigits(x) == p;
  }
}
