/**
  The ECMAScript string operations the barcode helpers are built from:
  the `\d` and `\s` character classes, `trim`, the `replace` calls that
  delete characters or a leading run, `padStart`, `repeat`, and the
  decimal value of a digit string (what `parseInt(_, 10)` reads).
 */
module Text {

  /** `\d`: an ASCII decimal digit. */
  predicate IsDigit(c: char) {
    '0' <= c <= '9'
  }

  predicate IsDigits(s: string) {
    forall i :: 0 <= i < |s| ==> IsDigit(s[i])
  }

  /** `\s`, which is also the set of characters `String.prototype.trim` removes:
      the ECMAScript WhiteSpace and LineTerminator characters. */
  predicate IsSpace(c: char) {
    || c == '\t' || c == '\n' || c == '\U{000B}' || c == '\U{000C}' || c == '\r' || c == ' '
    || c == '\U{00A0}' || c == '\U{1680}' || ('\U{2000}' <= c <= '\U{200A}')
    || c == '\U{2028}' || c == '\U{2029}' || c == '\U{202F}' || c == '\U{205F}'
    || c == '\U{3000}' || c == '\U{FEFF}'
  }

  predicate NoSpaces(s: string) {
    forall i :: 0 <= i < |s| ==> !IsSpace(s[i])
  }

  /** Neither end of `s` is white space. */
  predicate IsTrimmed(s: string) {
    s == [] || (!IsSpace(s[0]) && !IsSpace(s[|s| - 1]))
  }

  function TrimStart(s: string): (r: string)
    ensures |r| <= |s| && r == s[|s| - |r|..]
    ensures forall i :: 0 <= i < |s| - |r| ==> IsSpace(s[i])
    ensures r == [] || !IsSpace(r[0])
  {
    if s != [] && IsSpace(s[0]) then TrimStart(s[1..]) else s
  }

  function TrimEnd(s: string): (r: string)
    ensures |r| <= |s| && r == s[..|r|]
    ensures forall i :: |r| <= i < |s| ==> IsSpace(s[i])
    ensures r == [] || !IsSpace(r[|r| - 1])
  {
    if s != [] && IsSpace(s[|s| - 1]) then TrimEnd(s[..|s| - 1]) else s
  }

  /** `String.prototype.trim`: white space is removed from both ends and nowhere else. */
  function Trim(s: string): (r: string)
    ensures IsTrimmed(r)
    ensures IsTrimmed(s) ==> r == s
    ensures r == [] <==> forall i :: 0 <= i < |s| ==> IsSpace(s[i])
    ensures NoSpaces(s) ==> r == s
  {
    var t := TrimStart(s);
    TrimEnd(t)
  }

  /** `s.replace(/\s+/g, "")`: every white-space character is deleted. */
  function RemoveSpaces(s: string): (r: string)
    ensures NoSpaces(r)
    ensures |r| <= |s|
    ensures NoSpaces(s) ==> r == s
  {
    if s == [] then []
    else (if IsSpace(s[0]) then [] else [s[0]]) + RemoveSpaces(s[1..])
  }

  /** White space on its own is deleted and any other character is kept. */
  lemma RemoveSpacesChar(c: char)
    ensures RemoveSpaces([c]) == if IsSpace(c) then [] else [c]
  {
    assert [c][1..] == [];
  }

  /** Deleting white space commutes with concatenation: together with
      `RemoveSpacesChar` this says every other character is kept, in order. */
  lemma {:induction false} RemoveSpacesAppend(a: string, b: string)
    ensures RemoveSpaces(a + b) == RemoveSpaces(a) + RemoveSpaces(b)
    decreases |a|
  {
    if a == [] {
      assert a + b == b;
    } else {
      var head := if IsSpace(a[0]) then [] else [a[0]];
      assert (a + b)[0] == a[0];
      assert (a + b)[1..] == a[1..] + b;
      RemoveSpacesAppend(a[1..], b);
      assert head + (RemoveSpaces(a[1..]) + RemoveSpaces(b))
          == (head + RemoveSpaces(a[1..])) + RemoveSpaces(b);
    }
  }

  /** `s.replace(/\D/g, "")`: every character that is not an ASCII digit is deleted. */
  function Digits(s: string): (r: string)
    ensures IsDigits(r)
    ensures |r| <= |s|
    ensures IsDigits(s) ==> r == s
  {
    if s == [] then []
    else (if IsDigit(s[0]) then [s[0]] else []) + Digits(s[1..])
  }

  /** A text without a digit has no digits to keep. */
  lemma {:induction false} NoDigits(s: string)
    requires forall i :: 0 <= i < |s| ==> !IsDigit(s[i])
    ensures Digits(s) == []
  {
    if s != [] {
      NoDigits(s[1..]);
    }
  }

  /** Deleting non-digits commutes with concatenation. */
  lemma {:induction false} DigitsAppend(a: string, b: string)
    ensures Digits(a + b) == Digits(a) + Digits(b)
    decreases |a|
  {
    if a == [] {
      assert a + b == b;
    } else {
      var head := if IsDigit(a[0]) then [a[0]] else [];
      assert (a + b)[0] == a[0];
      assert (a + b)[1..] == a[1..] + b;
      calc {
        Digits(a + b);
        head + Digits(a[1..] + b);
        { DigitsAppend(a[1..], b); }
        head + (Digits(a[1..]) + Digits(b));
        (head + Digits(a[1..])) + Digits(b);
        Digits(a) + Digits(b);
      }
    }
  }

  /** Deleting white space first does not change which digits remain. */
  lemma {:induction false} DigitsIgnoreSpaces(s: string)
    ensures Digits(RemoveSpaces(s)) == Digits(s)
    decreases |s|
  {
    if s != [] {
      var head := if IsSpace(s[0]) then [] else [s[0]];
      DigitsAppend(head, RemoveSpaces(s[1..]));
      DigitsIgnoreSpaces(s[1..]);
    }
  }

  /** `s.replace(/^"|"$/g, "")`: one leading and one trailing double quote are removed. */
  function StripQuotes(s: string): (r: string)
    ensures |s| - 2 <= |r| <= |s|
    ensures (s == [] || (s[0] != '"' && s[|s| - 1] != '"')) ==> r == s
    ensures s != [] && s[0] == '"' && (|s| == 1 || s[|s| - 1] != '"') ==> r == s[1..]
    ensures |s| >= 2 && s[0] == '"' && s[|s| - 1] == '"' ==> r == s[1..|s| - 1]
    ensures s != [] && s[0] != '"' && s[|s| - 1] == '"' ==> r == s[..|s| - 1]
  {
    var t := if s != [] && s[0] == '"' then s[1..] else s;
    if t != [] && t[|t| - 1] == '"' then t[..|t| - 1] else t
  }

  /** A cell as both expanders first tidy it: trimmed, one pair of surrounding
      double quotes removed, and trimmed again. */
  function Unquote(raw: string): (r: string)
    ensures IsTrimmed(r)
    ensures Digits(r) == Digits(raw)
  {
    var s := Trim(raw);
    DigitsIgnoreTrim(raw);
    DigitsIgnoreQuotes(s);
    DigitsIgnoreTrim(StripQuotes(s));
    Trim(StripQuotes(s))
  }

  /** Characters that are not digits can be cut from the front without changing the digits. */
  lemma {:induction false} DigitsDropFront(s: string, k: nat)
    requires k <= |s|
    requires forall i :: 0 <= i < k ==> !IsDigit(s[i])
    ensures Digits(s[k..]) == Digits(s)
    decreases k
  {
    if k > 0 {
      DigitsDropFirst(s);
      var t := s[1..];
      assert forall i :: 0 <= i < k - 1 ==> t[i] == s[i + 1];
      DigitsDropFront(t, k - 1);
      assert t[k - 1..] == s[k..];
    }
  }

  /** Characters that are not digits can be cut from the back without changing the digits. */
  lemma DigitsDropBack(s: string, k: nat)
    requires k <= |s|
    requires forall i :: k <= i < |s| ==> !IsDigit(s[i])
    ensures Digits(s[..k]) == Digits(s)
  {
    var back := s[k..];
    NoDigits(back);
    assert s == s[..k] + back;
    DigitsAppend(s[..k], back);
    assert Digits(s[..k]) + [] == Digits(s[..k]);
  }

  lemma DigitsIgnoreTrim(s: string)
    ensures Digits(Trim(s)) == Digits(s)
  {
    var t := TrimStart(s);
    forall i | 0 <= i < |s| - |t| ensures !IsDigit(s[i]) {
      SpaceIsNotDigit(s[i]);
    }
    DigitsDropFront(s, |s| - |t|);
    var u := TrimEnd(t);
    forall i | |u| <= i < |t| ensures !IsDigit(t[i]) {
      SpaceIsNotDigit(t[i]);
    }
    DigitsDropBack(t, |u|);
  }

  lemma SpaceIsNotDigit(c: char)
    requires IsSpace(c)
    ensures !IsDigit(c)
  {
  }

  lemma DigitsIgnoreQuotes(s: string)
    ensures Digits(StripQuotes(s)) == Digits(s)
  {
    if s != [] && s[0] == '"' {
      DigitsDropFirst(s);
      var t := s[1..];
      if t != [] && t[|t| - 1] == '"' {
        DigitsDropLast(t);
        assert t[..|t| - 1] == s[1..|s| - 1];
      }
    } else if s != [] && s[|s| - 1] == '"' {
      DigitsDropLast(s);
    }
  }

  lemma DigitsDropFirst(s: string)
    requires s != [] && !IsDigit(s[0])
    ensures Digits(s[1..]) == Digits(s)
  {
  }

  lemma DigitsDropLast(s: string)
    requires s != [] && !IsDigit(s[|s| - 1])
    ensures Digits(s[..|s| - 1]) == Digits(s)
  {
    var init, last := s[..|s| - 1], [s[|s| - 1]];
    assert s == init + last;
    DigitsAppend(init, last);
    NoDigits(last);
    assert Digits(init) + [] == Digits(init);
  }

  /** `s.replace(/^0+/, "")`: the leading run of zeros is removed. */
  function StripLeadingZeros(s: string): (r: string)
    ensures |r| <= |s| && r == s[|s| - |r|..]
    ensures forall i :: 0 <= i < |s| - |r| ==> s[i] == '0'
    ensures r == [] || r[0] != '0'
  {
    if s != [] && s[0] == '0' then StripLeadingZeros(s[1..]) else s
  }

  /** `"0".repeat(n)` */
  function Zeros(n: nat): (r: string)
    ensures |r| == n && forall i :: 0 <= i < n ==> r[i] == '0'
  {
    seq(n, _ => '0')
  }

  /** `s.padStart(width, "0")` */
  function PadStart(s: string, width: nat): (r: string)
    ensures |r| == if |s| < width then width else |s|
    ensures r == Zeros(|r| - |s|) + s
  {
    if |s| < width then Zeros(width - |s|) + s else s
  }

  function Pow10(n: nat): (r: nat)
    ensures r >= 1
  {
    if n == 0 then 1 else 10 * Pow10(n - 1)
  }

  function DigitValue(c: char): nat
    requires IsDigit(c)
  {
    c as int - '0' as int
  }

  /** The number a decimal digit string denotes. */
  function Value(s: string): nat
    requires IsDigits(s)
  {
    if s == [] then 0 else Value(s[..|s| - 1]) * 10 + DigitValue(s[|s| - 1])
  }

  /** Appending `k` zeros multiplies the value by ten to the `k`. */
  lemma {:induction false} ValueAppendZeros(s: string, k: nat)
    requires IsDigits(s)
    ensures IsDigits(s + Zeros(k))
    ensures Value(s + Zeros(k)) == Value(s) * Pow10(k)
  {
    if k > 0 {
      ValueAppendZeros(s, k - 1);
      var u := s + Zeros(k - 1);
      var t := s + Zeros(k);
      assert t[..|t| - 1] == u && t[|t| - 1] == '0';
      assert Value(t) == Value(u) * 10;
      TimesTen(Value(s), Pow10(k - 1));
    } else {
      assert s + Zeros(k) == s;
    }
  }

  /** Ten to a sum is the product of the powers. */
  lemma {:induction false} Pow10Add(m: nat, n: nat)
    ensures Pow10(m + n) == Pow10(m) * Pow10(n)
    decreases n
  {
    if n > 0 {
      Pow10Add(m, n - 1);
      TimesTen(Pow10(m), Pow10(n - 1));
    }
  }

  /** The value of a concatenation: the front shifted past the back, plus the back. */
  lemma {:induction false} ValueAppend(a: string, b: string)
    requires IsDigits(a) && IsDigits(b)
    ensures IsDigits(a + b)
    ensures Value(a + b) == Value(a) * Pow10(|b|) + Value(b)
    decreases |b|
  {
    if b == [] {
      assert a + b == a;
    } else {
      var init := b[..|b| - 1];
      var ab := a + b;
      assert ab[..|ab| - 1] == a + init && ab[|ab| - 1] == b[|b| - 1];
      ValueAppend(a, init);
      TimesTen(Value(a), Pow10(|init|));
    }
  }

  lemma TimesTen(a: nat, b: nat)
    ensures a * b * 10 == a * (10 * b)
  {
  }

  /** A leading zero does not change the value. */
  lemma {:induction false} ValueLeadingZero(s: string)
    requires IsDigits(s)
    ensures IsDigits("0" + s) && Value("0" + s) == Value(s)
    decreases |s|
  {
    if s != [] {
      var t := "0" + s;
      assert t[..|t| - 1] == "0" + s[..|s| - 1];
      ValueLeadingZero(s[..|s| - 1]);
    }
  }

  /** Removing the leading zeros does not change the value. */
  lemma {:induction false} ValueStripLeadingZeros(s: string)
    requires IsDigits(s)
    ensures IsDigits(StripLeadingZeros(s))
    ensures Value(StripLeadingZeros(s)) == Value(s)
    decreases |s|
  {
    if s != [] && s[0] == '0' {
      var t := s[1..];
      assert StripLeadingZeros(s) == StripLeadingZeros(t);
      ValueStripLeadingZeros(t);
      assert s == "0" + t;
      ValueLeadingZero(t);
    } else {
      assert StripLeadingZeros(s) == s;
    }
  }

  /** The value of a digit string is zero exactly when every digit is `0`. */
  lemma {:induction false} ValueZeroIffAllZeros(s: string)
    requires IsDigits(s)
    ensures Value(s) == 0 <==> forall i :: 0 <= i < |s| ==> s[i] == '0'
    decreases |s|
  {
    if s != [] {
      ValueZeroIffAllZeros(s[..|s| - 1]);
    }
  }

  function DigitChar(d: nat): (c: char)
    requires d < 10
    ensures IsDigit(c) && DigitValue(c) == d
  {
    ('0' as int + d) as char
  }

  /** The decimal numeral of `n` (`String(n)`), the inverse of `Value`. */
  function DecimalString(n: nat): (r: string)
    ensures r != [] && IsDigits(r) && Value(r) == n
    ensures r[0] != '0' || n == 0
  {
    if n < 10 then [DigitChar(n)]
    else
      var r := DecimalString(n / 10) + [DigitChar(n % 10)];
      assert r[..|r| - 1] == DecimalString(n / 10);
      r
  }
}
