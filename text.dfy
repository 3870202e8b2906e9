/** String helpers: ASCII lower-casing, substring containment and the decimal
    integers Redis stores in hash fields. */
module Text {
  import opened Base

  function LowerChar(c: char): char {
    if 'A' <= c <= 'Z' then (c as int + 32) as char else c
  }

  /** `str.lower()` restricted to ASCII letters. */
  function Lower(s: string): (r: string)
    ensures |r| == |s|
    ensures forall i :: 0 <= i < |s| ==> r[i] == LowerChar(s[i])
  {
    seq(|s|, i requires 0 <= i < |s| => LowerChar(s[i]))
  }

  /** Python's `w in s` on strings: `w` occurs as a contiguous substring of `s`. */
  predicate Contains(s: string, w: string) {
    exists i :: 0 <= i <= |s| - |w| && OccursAt(s, w, i)
  }

  predicate OccursAt(s: string, w: string, i: int)
    requires 0 <= i <= |s| - |w|
  {
    s[i..i + |w|] == w
  }

  /** Lower-casing a text keeps every substring occurrence, lower-cased. */
  lemma ContainsLower(s: string, w: string)
    requires Contains(s, w)
    ensures Contains(Lower(s), Lower(w))
  {
    var i :| 0 <= i <= |s| - |w| && OccursAt(s, w, i);
    assert OccursAt(Lower(s), Lower(w), i);
  }

  /** Containment is transitive: an occurrence of `w` holding `v` is an occurrence of `v`. */
  lemma ContainsTransitive(s: string, w: string, v: string)
    requires Contains(s, w) && Contains(w, v)
    ensures Contains(s, v)
  {
    var i :| 0 <= i <= |s| - |w| && OccursAt(s, w, i);
    var j :| 0 <= j <= |w| - |v| && OccursAt(w, v, j);
    forall k | 0 <= k < |v|
      ensures s[i + j + k] == v[k]
    {
      assert s[i..i + |w|][j + k] == w[j + k];
      assert w[j..j + |v|][k] == v[k];
    }
    assert OccursAt(s, v, i + j);
  }

  predicate IsDigit(c: char) { '0' <= c <= '9' }

  function DigitValue(c: char): nat
    requires IsDigit(c)
  {
    c as int - '0' as int
  }

  function DigitChar(d: nat): (c: char)
    requires d < 10
    ensures IsDigit(c) && DigitValue(c) == d
  {
    (d + '0' as int) as char
  }

  /** The value of a non-empty run of decimal digits, read left to right. */
  function ParseNat(s: string): Option<nat> {
    if |s| == 0 || !IsDigit(s[|s| - 1]) then None
    else if |s| == 1 then Some(DigitValue(s[0]))
    else match ParseNat(s[..|s| - 1])
      case None => None
      case Some(n) => Some(10 * n + DigitValue(s[|s| - 1]))
  }

  /** A decimal integer with an optional leading minus sign, as stored by Redis
      and read back by `int(...)`; anything else is not a number. */
  function ParseInt(s: string): Option<int> {
    if |s| > 0 && s[0] == '-' then
      match ParseNat(s[1..])
      case None => None
      case Some(n) => Some(-(n as int))
    else
      match ParseNat(s)
      case None => None
      case Some(n) => Some(n)
  }

  /** The position of the first '.' of `s`, or `|s|` when there is none. */
  function DotIndex(s: string): (i: nat)
    ensures i <= |s|
    ensures i < |s| ==> s[i] == '.'
    ensures forall j :: 0 <= j < i ==> s[j] != '.'
  {
    if s == [] || s[0] == '.' then 0 else 1 + DotIndex(s[1..])
  }

  /** The value of the digits after a decimal point, read as a fraction. */
  function FracValue(s: string): Option<real> {
    if s == [] then Some(0.0)
    else if !IsDigit(s[0]) then None
    else match FracValue(s[1..])
      case None => None
      case Some(v) => Some((DigitValue(s[0]) as real + v) / 10.0)
  }

  /** An unsigned decimal number: digits, optionally followed by a point and
      more digits, with at least one digit on either side of the point. */
  function ParseUnsignedDecimal(s: string): Option<real> {
    var i := DotIndex(s);
    if i == |s| then
      match ParseNat(s)
      case None => None
      case Some(n) => Some(n as real)
    else
      var whole, frac := s[..i], s[i + 1..];
      if whole == [] && frac == [] then None
      else
        var w := if whole == [] then Some(0) else ParseNat(whole);
        match (w, FracValue(frac))
        case (Some(n), Some(f)) => Some(n as real + f)
        case _ => None
  }

  /** `float(s)` on the decimal texts it accepts without an exponent: an
      optional sign, then an unsigned decimal number; anything else is not a
      number. */
  function ParseDecimal(s: string): Option<real> {
    if |s| > 0 && (s[0] == '-' || s[0] == '+') then
      match ParseUnsignedDecimal(s[1..])
      case None => None
      case Some(v) => Some(if s[0] == '-' then -v else v)
    else ParseUnsignedDecimal(s)
  }

  /** `float` reads an integer text as that integer. */
  lemma ParseDecimalOfInt(s: string, n: int)
    requires ParseInt(s) == Some(n)
    ensures ParseDecimal(s) == Some(n as real)
  {
    if |s| > 0 && s[0] == '-' {
      ParseNatHasNoDot(s[1..]);
    } else {
      ParseNatHasNoDot(s);
    }
  }

  /** A run of digits holds no decimal point. */
  lemma {:induction false} ParseNatHasNoDot(s: string)
    requires ParseNat(s).Some?
    ensures DotIndex(s) == |s| && |s| > 0 && s[0] != '-' && s[0] != '+'
    decreases |s|
  {
    if |s| > 1 {
      ParseNatHasNoDot(s[..|s| - 1]);
      assert forall j :: 0 <= j < |s| - 1 ==> s[..|s| - 1][j] == s[j];
    }
  }

  /** A run of digits after a decimal point always has a value. */
  lemma {:induction false} FracOfDigits(d: string)
    requires forall i :: 0 <= i < |d| ==> IsDigit(d[i])
    ensures FracValue(d).Some?
    decreases |d|
  {
    if d != [] {
      FracOfDigits(d[1..]);
    }
  }

  /** The first point of `w + "." + d` is the one after `w` when `w` has none. */
  lemma {:induction false} DotIndexAfter(w: string, d: string)
    requires DotIndex(w) == |w|
    ensures DotIndex(w + "." + d) == |w|
    decreases |w|
  {
    if w != [] {
      assert (w + "." + d)[1..] == w[1..] + "." + d;
      DotIndexAfter(w[1..], d);
    }
  }

  /** Digits, a point and digits read as the whole part plus the fraction. */
  lemma ParseDecimalPoint(w: string, d: string)
    requires ParseNat(w).Some? && FracValue(d).Some?
    ensures ParseDecimal(w + "." + d) == Some(ParseNat(w).value as real + FracValue(d).value)
  {
    var s := w + "." + d;
    ParseNatHasNoDot(w);
    DotIndexAfter(w, d);
    assert s[0] == w[0] && s[..|w|] == w && s[|w| + 1..] == d;
    assert ParseUnsignedDecimal(s) == Some(ParseNat(w).value as real + FracValue(d).value);
  }

  /** `float` reads a timestamp with a fraction, as `time.time()` writes
      one, at its exact value: the whole part plus the fraction. */
  lemma ParseDecimalFraction(n: nat, d: string)
    requires forall i :: 0 <= i < |d| ==> IsDigit(d[i])
    ensures FracValue(d).Some?
    ensures ParseDecimal(ShowNat(n) + "." + d) == Some(n as real + FracValue(d).value)
  {
    FracOfDigits(d);
    ParseShowNat(n);
    ParseDecimalPoint(ShowNat(n), d);
  }

  function ShowNat(n: nat): (s: string)
    ensures |s| > 0 && IsDigit(s[0])
  {
    if n < 10 then [DigitChar(n)] else ShowNat(n / 10) + [DigitChar(n % 10)]
  }

  /** The decimal rendering Redis uses for the integer it stores. */
  function Show(n: int): string {
    if n < 0 then "-" + ShowNat(-n) else ShowNat(n)
  }

  lemma {:induction false} ParseShowNat(n: nat)
    ensures ParseNat(ShowNat(n)) == Some(n)
  {
    if n >= 10 {
      ParseShowNat(n / 10);
      var s := ShowNat(n);
      assert s[..|s| - 1] == ShowNat(n / 10);
    }
  }

  /** Reading back a stored integer gives the integer that was stored. */
  lemma ParseShowRoundTrip(n: int)
    ensures ParseInt(Show(n)) == Some(n)
  {
    if n < 0 {
      var s := ShowNat(-n);
      ParseShowNat(-n);
      assert Show(n) == "-" + s;
      assert ("-" + s)[0] == '-' && ("-" + s)[1..] == s;
    } else {
      var s := ShowNat(n);
      ParseShowNat(n);
      assert Show(n) == s && s[0] != '-';
    }
  }
}
