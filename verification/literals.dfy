/**
 * The two number parsers the normaliser relies on, as Python 2 defines them
 * for decimal text: int() for the digit groups of a date and float() for a
 * record's value. Both strip surrounding whitespace and reject anything else
 * that is not part of a numeric literal.
 */
module Literals {
  import opened Wrappers

  predicate IsDigit(c: char) { '0' <= c <= '9' }

  /** The characters C's isspace() accepts: space, tab, line feed, vertical tab, form feed, carriage return. */
  predicate IsSpace(c: char) { c == ' ' || '\t' <= c <= '\r' }

  predicate IsSign(c: char) { c == '+' || c == '-' }

  predicate AllDigits(s: string) { forall i :: 0 <= i < |s| ==> IsDigit(s[i]) }

  function Pow10(n: nat): (r: nat)
    ensures r >= 1
  {
    if n == 0 then 1 else 10 * Pow10(n - 1)
  }

  /** The number a string of decimal digits denotes, most significant digit first. */
  function DigitsValue(s: string): (n: nat)
    requires AllDigits(s)
    ensures n < Pow10(|s|)
  {
    if s == [] then 0 else 10 * DigitsValue(s[..|s| - 1]) + (s[|s| - 1] as int - '0' as int)
  }

  /** The last `width` decimal digits of n, zero-padded on the left: how a fixed-width digit group is written. */
  function PadDigits(n: nat, width: nat): (s: string)
    ensures |s| == width && AllDigits(s)
    ensures n < Pow10(width) ==> DigitsValue(s) == n
  {
    if width == 0 then ""
    else
      var prefix := PadDigits(n / 10, width - 1);
      var s := prefix + [('0' as int + n % 10) as char];
      assert s[..|s| - 1] == prefix;
      s
  }

  /** The index of the first non-whitespace character of s at or after i, or |s|. */
  function SkipSpaces(s: string, i: nat): (k: nat)
    requires i <= |s|
    ensures i <= k <= |s|
    ensures k == |s| || !IsSpace(s[k])
    decreases |s| - i
  {
    if i < |s| && IsSpace(s[i]) then SkipSpaces(s, i + 1) else i
  }

  lemma {:induction false} SkippedAreSpaces(s: string, i: nat)
    requires i <= |s|
    ensures forall j :: i <= j < SkipSpaces(s, i) ==> IsSpace(s[j])
    decreases |s| - i
  {
    if i < |s| && IsSpace(s[i]) {
      SkippedAreSpaces(s, i + 1);
    }
  }

  /** The length of s once its trailing whitespace below index j is dropped. */
  function SkipSpacesBack(s: string, j: nat): (k: nat)
    requires j <= |s|
    ensures k <= j
    ensures k == 0 || !IsSpace(s[k - 1])
  {
    if j > 0 && IsSpace(s[j - 1]) then SkipSpacesBack(s, j - 1) else j
  }

  lemma {:induction false} SkippedBackAreSpaces(s: string, j: nat)
    requires j <= |s|
    ensures forall i :: SkipSpacesBack(s, j) <= i < j ==> IsSpace(s[i])
  {
    if j > 0 && IsSpace(s[j - 1]) {
      SkippedBackAreSpaces(s, j - 1);
    }
  }

  /** Python's str.strip() with no argument, on the ASCII whitespace characters. */
  function Strip(s: string): string
  {
    var lo, hi := SkipSpaces(s, 0), SkipSpacesBack(s, |s|);
    if lo < hi then s[lo..hi] else ""
  }

  /** A non-empty run of decimal digits, read as an optionally signed integer. */
  function SignedDigits(negative: bool, digits: string): Option<int>
  {
    if |digits| > 0 && AllDigits(digits) then
      Some(if negative then -(DigitsValue(digits) as int) else DigitsValue(digits) as int)
    else None
  }

  /**
   * Python 2's int(s) in base 10: optional whitespace, an optional sign,
   * optional whitespace (the C library's strtoul skips it after the sign),
   * one or more ASCII digits, optional whitespace. None stands for ValueError.
   */
  function ParseInt(s: string): Option<int>
  {
    var t := Strip(s);
    if |t| > 0 && IsSign(t[0]) then SignedDigits(t[0] == '-', t[SkipSpaces(t, 1)..])
    else SignedDigits(false, t)
  }

  /** The index of the first character of s[i..hi] that is in `stops`, or hi if there is none. */
  function Find(s: string, stops: set<char>, i: nat, hi: nat): (k: nat)
    requires i <= hi <= |s|
    ensures i <= k <= hi
    ensures k < hi ==> s[k] in stops
    decreases hi - i
  {
    if i == hi then hi else if s[i] in stops then i else Find(s, stops, i + 1, hi)
  }

  lemma {:induction false} FindAbsent(s: string, stops: set<char>, i: nat, hi: nat)
    requires i <= hi <= |s|
    requires forall j :: i <= j < hi ==> s[j] !in stops
    ensures Find(s, stops, i, hi) == hi
    decreases hi - i
  {
    if i < hi {
      FindAbsent(s, stops, i + 1, hi);
    }
  }

  /** The letters that introduce an exponent, and the decimal point. */
  const ExponentMarks: set<char> := {'e', 'E'}
  const Point: set<char> := {'.'}

  /** The exact value of m * 10^k. */
  function Scale(m: nat, k: int): real
  {
    if k >= 0 then (m * Pow10(k)) as real else m as real / Pow10(-k) as real
  }

  /** The exponent after an 'e' or 'E': an optional sign and at least one digit. */
  function ParseExponent(s: string): Option<int>
  {
    if |s| > 0 && IsSign(s[0]) then SignedDigits(s[0] == '-', s[1..]) else SignedDigits(false, s)
  }

  /**
   * The value of a literal cut into its digits before the point, its digits
   * after the point and its exponent (None when the exponent is malformed).
   */
  function DecimalValue(intPart: string, fracPart: string, exponent: Option<int>): Option<real>
  {
    if !(AllDigits(intPart) && AllDigits(fracPart) && |intPart| + |fracPart| > 0) then None
    else
      match exponent
      case None => None
      case Some(x) => Some(Scale(DigitsValue(intPart + fracPart), x - |fracPart|))
  }

  /**
   * An unsigned decimal literal: digits with an optional fraction, at least one
   * digit before or after the point, then an optional exponent.
   */
  function ParseUnsignedDecimal(u: string): Option<real>
  {
    var e := Find(u, ExponentMarks, 0, |u|);
    var d := Find(u, Point, 0, e);
    DecimalValue(u[..d], if d < e then u[d + 1..e] else "",
                 if e == |u| then Some(0) else ParseExponent(u[e + 1..]))
  }

  /** A decimal literal with an optional leading sign. */
  function ParseSignedDecimal(t: string): Option<real>
  {
    if |t| > 0 && IsSign(t[0]) then
      match ParseUnsignedDecimal(t[1..])
      case None => None
      case Some(v) => Some(if t[0] == '-' then -v else v)
    else ParseUnsignedDecimal(t)
  }

  /**
   * Python 2's float(s) on a finite decimal literal, as an exact real:
   * optional whitespace, an optional sign, the literal, optional whitespace.
   * None stands for ValueError.
   */
  function ParseFloat(s: string): Option<real>
  {
    ParseSignedDecimal(Strip(s))
  }

  /** Text with no whitespace at either end is left as it is by Strip. */
  lemma StripUnspaced(s: string)
    requires |s| > 0 && !IsSpace(s[0]) && !IsSpace(s[|s| - 1])
    ensures Strip(s) == s
  {
    assert SkipSpaces(s, 0) == 0;
    assert SkipSpacesBack(s, |s|) == |s|;
  }

  /** Without a leading sign, a signed literal reads as the unsigned one. */
  lemma UnsignedLiteral(t: string)
    requires |t| > 0 && !IsSign(t[0])
    ensures ParseSignedDecimal(t) == ParseUnsignedDecimal(t)
  {
  }

  /** A string of digits reads back as the number it spells, through int() and float() alike. */
  lemma ParseDigits(s: string)
    requires |s| > 0 && AllDigits(s)
    ensures ParseInt(s) == Some(DigitsValue(s) as int)
    ensures ParseFloat(s) == Some(DigitsValue(s) as real)
  {
    StripUnspaced(s);
    UnsignedDigits(s);
    UnsignedLiteral(s);
  }

  lemma UnsignedDigits(s: string)
    requires |s| > 0 && AllDigits(s)
    ensures ParseUnsignedDecimal(s) == Some(DigitsValue(s) as real)
  {
    assert forall i :: 0 <= i < |s| ==> s[i] !in ExponentMarks;
    FindAbsent(s, ExponentMarks, 0, |s|);
    assert forall i :: 0 <= i < |s| ==> s[i] !in Point;
    FindAbsent(s, Point, 0, |s|);
    assert s[..|s|] == s;
    assert ParseUnsignedDecimal(s) == DecimalValue(s, "", Some(0));
    assert s + "" == s;
  }

  /** Find stops at the first stop character. */
  lemma {:induction false} FindFirst(s: string, stops: set<char>, i: nat, hi: nat, k: nat)
    requires i <= k < hi <= |s| && s[k] in stops
    requires forall j :: i <= j < k ==> s[j] !in stops
    ensures Find(s, stops, i, hi) == k
    decreases k - i
  {
    if i < k {
      FindFirst(s, stops, i + 1, hi, k);
    }
  }

  /** Writing digits b after digits a shifts a left by |b| places. */
  lemma {:induction false} DigitsValueAppend(a: string, b: string)
    requires AllDigits(a) && AllDigits(b)
    ensures AllDigits(a + b) && DigitsValue(a + b) == DigitsValue(a) * Pow10(|b|) + DigitsValue(b)
  {
    var c := a + b;
    forall j | 0 <= j < |c| ensures IsDigit(c[j]) {
      if j < |a| {
        assert c[j] == a[j];
      } else {
        assert c[j] == b[j - |a|];
      }
    }
    if b == [] {
      assert c == a;
    } else {
      var b' := b[..|b| - 1];
      var last := b[|b| - 1] as int - '0' as int;
      assert c[..|c| - 1] == a + b' && c[|c| - 1] == b[|b| - 1];
      DigitsValueAppend(a, b');
      assert DigitsValue(c) == 10 * DigitsValue(a + b') + last;
      assert DigitsValue(b) == 10 * DigitsValue(b') + last;
      ShiftLeft(DigitsValue(a), Pow10(|b'|), DigitsValue(b'), last);
    }
  }

  /** The step of DigitsValueAppend: appending one more digit to both sides. */
  lemma ShiftLeft(d: int, p: int, rest: int, last: int)
    ensures 10 * (d * p + rest) + last == d * (10 * p) + (10 * rest + last)
  {
  }

  /** Shifting a whole part and a rest of n digits right by n places gives whole part plus fraction. */
  lemma {:induction false} ScaleSplit(w: nat, a: nat, b: nat, n: nat)
    requires w == a * Pow10(n) + b
    ensures Scale(w, 0 - n) == a as real + b as real / Pow10(n) as real
  {
    var p := Pow10(n);
    assert w as real == a as real * p as real + b as real;
    if n == 0 {
      assert p == 1;
    }
  }

  /**
   * float() of digits, a point and digits, one of the two runs possibly
   * empty: the whole part plus the fraction over the matching power of ten.
   */
  lemma {:induction false} ParsePointLiteral(i: string, f: string)
    requires AllDigits(i) && AllDigits(f) && |i| + |f| > 0
    ensures ParseFloat(i + "." + f) == Some(DigitsValue(i) as real + DigitsValue(f) as real / Pow10(|f|) as real)
  {
    DigitsValueAppend(i, f);
    PointLiteralScale(i + "." + f, i, f);
    PointValue(i, f);
  }

  /** All the digits of a point literal, shifted right past the point, are its whole part plus its fraction. */
  lemma {:induction false} PointValue(i: string, f: string)
    requires AllDigits(i) && AllDigits(f)
    ensures AllDigits(i + f)
    ensures Some(Scale(DigitsValue(i + f), 0 - |f|)) == Some(DigitsValue(i) as real + DigitsValue(f) as real / Pow10(|f|) as real)
  {
    DigitsValueAppend(i, f);
    ScaleSplit(DigitsValue(i + f), DigitsValue(i), DigitsValue(f), |f|);
  }

  /** float() reads digits, a point and digits as all the digits shifted right past the point. */
  lemma {:induction false} PointLiteralScale(u: string, i: string, f: string)
    requires AllDigits(i) && AllDigits(f) && AllDigits(i + f) && |i| + |f| > 0 && u == i + "." + f
    ensures ParseFloat(u) == Some(Scale(DigitsValue(i + f), 0 - |f|))
  {
    PointLiteralFields(u, i, f);
    if |i| > 0 {
      assert u[0] == i[0];
    } else {
      assert u[0] == '.';
    }
    if |f| > 0 {
      assert u[|u| - 1] == f[|f| - 1];
    } else {
      assert u[|u| - 1] == '.';
    }
    StripUnspaced(u);
    UnsignedLiteral(u);
    assert DecimalValue(i, f, Some(0)) == Some(Scale(DigitsValue(i + f), 0 - |f|));
  }

  /** The whole part of a point literal runs up to the point, the fraction from it to the end. */
  lemma {:induction false} PointLiteralFields(u: string, i: string, f: string)
    requires AllDigits(i) && AllDigits(f) && u == i + "." + f
    ensures ParseUnsignedDecimal(u) == DecimalValue(i, f, Some(0))
  {
    forall j | 0 <= j < |u| ensures u[j] !in ExponentMarks && (j != |i| ==> u[j] !in Point) {
      if j < |i| {
        assert u[j] == i[j];
      } else if j > |i| {
        assert u[j] == f[j - |i| - 1];
      }
    }
    FindAbsent(u, ExponentMarks, 0, |u|);
    FindFirst(u, Point, 0, |u|, |i|);
    assert u[..|i|] == i && u[|i| + 1..|u|] == f;
  }

  /**
   * float() of digits, an exponent letter, an optional minus and digits:
   * the mantissa times, or divided by, the power of ten the exponent names.
   */
  lemma {:induction false} ParseExponentLiteral(m: string, negative: bool, x: string)
    requires |m| > 0 && AllDigits(m) && |x| > 0 && AllDigits(x)
    ensures ParseFloat(m + "e" + (if negative then "-" else "") + x) ==
      Some(if negative then DigitsValue(m) as real / Pow10(DigitsValue(x)) as real
           else (DigitsValue(m) * Pow10(DigitsValue(x))) as real)
  {
    var e: int := if negative then -(DigitsValue(x) as int) else DigitsValue(x);
    ExponentLiteralScale(m + "e" + (if negative then "-" else "") + x, m, negative, x, e);
    ExponentValue(DigitsValue(m), negative, DigitsValue(x), e);
  }

  /** Scaling by a signed exponent multiplies by, or divides by, its power of ten. */
  lemma {:induction false} ExponentValue(d: nat, negative: bool, n: nat, e: int)
    requires e == if negative then -(n as int) else n
    ensures Some(Scale(d, e)) == Some(if negative then d as real / Pow10(n) as real else (d * Pow10(n)) as real)
  {
    if n == 0 {
      assert Pow10(n) == 1;
    }
  }

  /** float() reads digits, an exponent letter and a signed exponent as the digits scaled by that exponent. */
  lemma {:induction false} ExponentLiteralScale(u: string, m: string, negative: bool, x: string, e: int)
    requires |m| > 0 && AllDigits(m) && |x| > 0 && AllDigits(x)
    requires u == m + "e" + (if negative then "-" else "") + x
    requires e == if negative then -(DigitsValue(x) as int) else DigitsValue(x)
    ensures ParseFloat(u) == Some(Scale(DigitsValue(m), e))
  {
    ExponentLiteralFields(u, m, negative, x, e);
    assert u[0] == m[0] && u[|u| - 1] == x[|x| - 1];
    StripUnspaced(u);
    UnsignedLiteral(u);
    assert m + "" == m;
    assert DecimalValue(m, "", Some(e)) == Some(Scale(DigitsValue(m), e));
  }

  /** The mantissa of an exponent literal runs up to the exponent letter, the exponent from it to the end. */
  lemma {:induction false} ExponentLiteralFields(u: string, m: string, negative: bool, x: string, e: int)
    requires |m| > 0 && AllDigits(m) && |x| > 0 && AllDigits(x)
    requires u == m + "e" + (if negative then "-" else "") + x
    requires e == if negative then -(DigitsValue(x) as int) else DigitsValue(x)
    ensures ParseUnsignedDecimal(u) == DecimalValue(m, "", Some(e))
  {
    var sign := if negative then "-" else "";
    forall j | 0 <= j < |m| ensures u[j] !in ExponentMarks && u[j] !in Point {
      assert u[j] == m[j];
    }
    FindFirst(u, ExponentMarks, 0, |u|, |m|);
    FindAbsent(u, Point, 0, |m|);
    assert u[..|m|] == m && u[|m| + 1..] == sign + x;
    if negative {
      assert (sign + x)[0] == '-' && (sign + x)[1..] == x;
    } else {
      assert sign + x == x;
    }
    assert ParseExponent(sign + x) == Some(e);
  }

  predicate IsNumberChar(c: char) { IsDigit(c) || IsSign(c) || IsSpace(c) || c == '.' || c == 'e' || c == 'E' }

  /** The characters an accepted unsigned literal is made of, and the digit it must contain. */
  lemma UnsignedDecimalText(u: string) returns (k: nat)
    requires ParseUnsignedDecimal(u).Some?
    ensures forall j :: 0 <= j < |u| ==> IsNumberChar(u[j])
    ensures k < |u| && IsDigit(u[k])
  {
    var e := Find(u, ExponentMarks, 0, |u|);
    var d := Find(u, Point, 0, e);
    var intPart := u[..d];
    var fracPart := if d < e then u[d + 1..e] else "";
    var exponent := if e == |u| then Some(0) else ParseExponent(u[e + 1..]);
    assert DecimalValue(intPart, fracPart, exponent).Some?;
    assert AllDigits(intPart) && AllDigits(fracPart) && exponent.Some?;
    forall j | 0 <= j < |u| ensures IsNumberChar(u[j]) {
      if j < d {
        assert u[j] == intPart[j];
      } else if j < e && d < j {
        assert u[j] == fracPart[j - d - 1];
      } else if e < j {
        ExponentText(u[e + 1..], j - e - 1);
      }
    }
    if |intPart| > 0 {
      k := 0;
      assert u[0] == intPart[0];
    } else {
      k := d + 1;
      assert u[k] == fracPart[0];
    }
  }

  lemma ExponentText(x: string, j: nat)
    requires ParseExponent(x).Some? && j < |x|
    ensures IsNumberChar(x[j])
  {
    if |x| > 0 && IsSign(x[0]) && j > 0 {
      assert x[j] == x[1..][j - 1];
    }
  }

  /** Strip(s) is the run of s from a known offset, and everything outside it is whitespace. */
  lemma StripOffset(s: string) returns (off: nat)
    ensures off + |Strip(s)| <= |s|
    ensures forall i :: off <= i < off + |Strip(s)| ==> s[i] == Strip(s)[i - off]
    ensures forall i :: 0 <= i < |s| && !(off <= i < off + |Strip(s)|) ==> IsSpace(s[i])
  {
    off := SkipSpaces(s, 0);
    SkippedAreSpaces(s, 0);
    SkippedBackAreSpaces(s, |s|);
  }

  /** The characters an accepted signed literal is made of, and the digit it must contain. */
  lemma SignedDecimalText(t: string) returns (k: nat)
    requires ParseSignedDecimal(t).Some?
    ensures forall j :: 0 <= j < |t| ==> IsNumberChar(t[j])
    ensures k < |t| && IsDigit(t[k])
  {
    if |t| > 0 && IsSign(t[0]) {
      var u := t[1..];
      var k' := UnsignedDecimalText(u);
      k := k' + 1;
      assert forall j :: 1 <= j < |t| ==> t[j] == u[j - 1];
    } else {
      k := UnsignedDecimalText(t);
    }
  }

  /**
   * float() accepts only text made of digits, signs, a point, exponent
   * letters and whitespace, with at least one digit: a value such as "abc",
   * "" or "." is not numeric.
   */
  lemma ParseFloatNeedsNumberText(s: string)
    requires ParseFloat(s).Some?
    ensures forall i :: 0 <= i < |s| ==> IsNumberChar(s[i])
    ensures exists i :: 0 <= i < |s| && IsDigit(s[i])
  {
    var t := Strip(s);
    var off := StripOffset(s);
    var k := SignedDecimalText(t);
    assert s[off + k] == t[k];
  }
}
