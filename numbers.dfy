/**
 * Reading numbers out of matched tokens: the comma stripping of
 * `value.replace(/,/g, '')` and `parseFloat`, with exact decimal values in
 * place of IEEE-754 doubles.
 */
module Numbers {
  import opened Wrappers
  import opened Chars

  predicate AllDigits(s: string) {
    forall i :: 0 <= i < |s| ==> IsDigit(s[i])
  }

  function DigitValue(c: char): nat
    requires IsDigit(c)
  {
    c as int - '0' as int
  }

  /** The value of a run of decimal digits, most significant first. */
  function DigitsValue(s: string): nat
    requires AllDigits(s)
  {
    if s == [] then 0 else 10 * DigitsValue(s[..|s| - 1]) + DigitValue(s[|s| - 1])
  }

  function Pow10(n: nat): (p: nat)
    ensures p >= 1
  {
    if n == 0 then 1 else 10 * Pow10(n - 1)
  }

  /** `s.replace(/,/g, '')`: every comma deleted, everything else kept in order. */
  function RemoveCommas(s: string): (r: string)
    ensures forall c :: c in r <==> c in s && c != ','
    ensures |r| <= |s|
    ensures s != [] && s[0] != ',' ==> r != [] && r[0] == s[0]
    ensures ',' !in s ==> r == s
  {
    if s == [] then []
    else (if s[0] == ',' then [] else [s[0]]) + RemoveCommas(s[1..])
  }

  /**
   * Comma removal is a filter: it works character by character, dropping a
   * comma and keeping any other character, and keeps the order of what it
   * keeps.
   */
  lemma {:induction false} RemoveCommasFilter(a: string, b: string)
    ensures RemoveCommas(a + b) == RemoveCommas(a) + RemoveCommas(b)
    ensures |a| == 1 ==> RemoveCommas(a) == if a[0] == ',' then [] else a
  {
    RemoveCommasAppend(a, b);
    if |a| == 1 {
      assert a[1..] == [];
    }
  }

  lemma {:induction false} RemoveCommasAppend(a: string, b: string)
    ensures RemoveCommas(a + b) == RemoveCommas(a) + RemoveCommas(b)
  {
    if a == [] {
      assert a + b == b;
    } else {
      assert (a + b)[1..] == a[1..] + b;
      RemoveCommasAppend(a[1..], b);
    }
  }

  /** Digits and commas that begin with a digit leave a non-empty run of digits. */
  lemma DigitsWithCommas(lead: string)
    requires lead != [] && IsDigit(lead[0])
    requires forall k :: 0 <= k < |lead| ==> IsDigit(lead[k]) || lead[k] == ','
    ensures RemoveCommas(lead) != [] && AllDigits(RemoveCommas(lead))
  {
    var whole := RemoveCommas(lead);
    forall k | 0 <= k < |whole|
      ensures IsDigit(whole[k])
    {
      assert whole[k] in lead;
    }
  }

  /** Removing commas from digits and commas, a full stop and digits touches only the part before the full stop. */
  lemma CommasBeforeStop(lead: string, fraction: string)
    requires AllDigits(fraction)
    ensures RemoveCommas(lead + "." + fraction) == RemoveCommas(lead) + "." + fraction
  {
    RemoveCommasFilter(lead + ".", fraction);
    RemoveCommasFilter(lead, ".");
    RemoveCommasFilter(".", []);
    assert ',' !in fraction by {
      forall k | 0 <= k < |fraction|
        ensures fraction[k] != ','
      {
        assert IsDigit(fraction[k]);
      }
    }
  }

  /** `s` begins with what `parseFloat` reads as an unsigned decimal literal. */
  predicate StartsNumber(s: string) {
    (|s| > 0 && IsDigit(s[0])) || (|s| > 1 && s[0] == '.' && IsDigit(s[1]))
  }

  /** An exponent mark `e` or `E` at `k`. */
  predicate ExponentMark(s: string, k: nat) {
    k < |s| && (s[k] == 'e' || s[k] == 'E')
  }

  /** After the mark at `k`, a digit, possibly after one sign: the exponent part is complete. */
  predicate ExponentDigits(s: string, k: nat) {
    (k + 1 < |s| && IsDigit(s[k + 1]))
    || (k + 2 < |s| && (s[k + 1] == '+' || s[k + 1] == '-') && IsDigit(s[k + 2]))
  }

  /**
   * The scale factor of an optional exponent part `[eE][+-]?\d+` at `k`;
   * an `e` with no digits after it is not part of the literal.
   */
  function ExponentScale(s: string, k: nat): (scale: real)
    requires k <= |s|
    ensures scale > 0.0
    ensures !ExponentMark(s, k) ==> scale == 1.0
    ensures ExponentMark(s, k) && !ExponentDigits(s, k) ==> scale == 1.0
  {
    if k < |s| && (s[k] == 'e' || s[k] == 'E') then
      var negative := k + 1 < |s| && s[k + 1] == '-';
      var digitsStart := if k + 1 < |s| && (s[k + 1] == '+' || s[k + 1] == '-') then k + 2 else k + 1;
      var digitsEnd := RunEnd(s, digitsStart, IsDigit);
      if digitsEnd == digitsStart then 1.0
      else
        var p := Pow10(DigitsValue(s[digitsStart..digitsEnd]));
        if negative then 1.0 / p as real else p as real
    else 1.0
  }

  /** The digits after a full stop at `intEnd`; empty when there is no full stop there. */
  function FractionAt(s: string, intEnd: nat): (f: string)
    requires intEnd <= |s|
    ensures AllDigits(f)
    ensures f != [] ==> intEnd + 1 + |f| <= |s| && s[intEnd] == '.' && IsDigit(s[intEnd + 1])
    ensures f == [] ==> !(intEnd + 1 < |s| && s[intEnd] == '.' && IsDigit(s[intEnd + 1]))
  {
    if intEnd < |s| && s[intEnd] == '.' then s[intEnd + 1..RunEnd(s, intEnd + 1, IsDigit)] else []
  }

  /** The exact value of the digits `whole` '.' `fraction`. */
  function Mantissa(whole: string, fraction: string): (v: real)
    requires AllDigits(whole) && AllDigits(fraction)
    ensures v >= 0.0
  {
    DigitsValue(whole) as real + DigitsValue(fraction) as real / Pow10(|fraction|) as real
  }

  /**
   * `parseFloat` on a string that starts at its first non-blank character
   * and has no sign: the longest prefix of the form
   * `\d+(\.\d*)?([eE][+-]?\d+)?` or `\.\d+([eE][+-]?\d+)?`, read as an
   * exact decimal; `None` where `parseFloat` gives `NaN`.
   */
  function ParseNumber(s: string): (r: Option<real>)
    ensures r.Some? <==> StartsNumber(s)
    ensures r.Some? ==> r.value >= 0.0
  {
    var intEnd := RunEnd(s, 0, IsDigit);
    var fraction := FractionAt(s, intEnd);
    if intEnd == 0 && fraction == [] then None
    else
      var hasDot := intEnd < |s| && s[intEnd] == '.';
      var exponentAt := if hasDot then RunEnd(s, intEnd + 1, IsDigit) else intEnd;
      var mantissa := Mantissa(s[..intEnd], fraction);
      Some(Scaled(mantissa, ExponentScale(s, exponentAt)))
  }

  /** A mantissa times the scale of its exponent part. */
  function Scaled(mantissa: real, scale: real): (r: real)
    requires mantissa >= 0.0 && scale > 0.0
    ensures r >= 0.0
  {
    mantissa * scale
  }

  /** A run of digits reads as its decimal value. */
  lemma {:induction false} ParseDigits(s: string)
    requires s != [] && AllDigits(s)
    ensures ParseNumber(s) == Some(DigitsValue(s) as real)
  {
    assert s[..|s|] == s;
  }

  /**
   * A run of digits followed by anything that cannot continue a literal (no
   * digit, full stop or exponent mark) reads as the value of the digits: the
   * rest of the token is ignored, as in `parseFloat("2000sq")`.
   */
  lemma ParseDigitsThen(d: string, rest: string)
    requires d != [] && AllDigits(d)
    requires rest == [] || !(IsDigit(rest[0]) || rest[0] == '.' || rest[0] == 'e' || rest[0] == 'E')
    ensures ParseNumber(d + rest) == Some(DigitsValue(d) as real)
  {
    var s := d + rest;
    assert s[..|d|] == d;
    RunEndUnique(s, 0, IsDigit, |d|);
    assert FractionAt(s, |d|) == [];
    MantissaWhole(d);
    var v := DigitsValue(d) as real;
    assert ExponentScale(s, |d|) == 1.0;
    assert v * 1.0 == v;
  }

  /**
   * Digits, an exponent mark, and then no digit (not even after one sign):
   * the mark is not part of the literal, which reads as the value of the
   * digits, as in `parseFloat("2e")` or `parseFloat("3Ex")`.
   */
  lemma ParseDigitsMark(d: string, mark: char, rest: string)
    requires d != [] && AllDigits(d) && (mark == 'e' || mark == 'E')
    requires rest == [] || !(IsDigit(rest[0]) || (|rest| > 1 && (rest[0] == '+' || rest[0] == '-') && IsDigit(rest[1])))
    ensures ParseNumber(d + [mark] + rest) == Some(DigitsValue(d) as real)
  {
    var s := d + [mark] + rest;
    assert s[..|d|] == d;
    assert s[|d|] == mark;
    RunEndUnique(s, 0, IsDigit, |d|);
    assert FractionAt(s, |d|) == [];
    MantissaWhole(d);
    assert !ExponentDigits(s, |d|) by {
      assert |d| + 1 < |s| ==> s[|d| + 1] == rest[0];
      assert |d| + 2 < |s| ==> s[|d| + 2] == rest[1];
    }
    var v := DigitsValue(d) as real;
    assert ExponentScale(s, |d|) == 1.0;
    assert v * 1.0 == v;
  }

  /** Digits without a fraction read as their own value. */
  lemma MantissaWhole(d: string)
    requires AllDigits(d)
    ensures Mantissa(d, []) == DigitsValue(d) as real
  {
    assert DigitsValue([]) == 0 && Pow10(0) == 1;
  }

  /**
   * Digits, an exponent mark `e` or `E` and more digits read as the first
   * digits times that power of ten, as in `parseFloat("1e3")` and
   * `parseFloat("1E3")`.
   */
  lemma ParseExponent(d: string, mark: char, n: string, rest: string)
    requires d != [] && AllDigits(d) && (mark == 'e' || mark == 'E') && n != [] && AllDigits(n)
    requires rest == [] || !IsDigit(rest[0])
    ensures ParseNumber(d + [mark] + n + rest) == Some((DigitsValue(d) * Pow10(DigitsValue(n))) as real)
  {
    var s := d + [mark] + n + rest;
    var end := |d| + 1 + |n|;
    assert s[..|d|] == d && s[|d|] == mark;
    assert s[|d| + 1..end] == n;
    assert end < |s| ==> s[end] == rest[0];
    WholeThenScaled(s, d);
    ExponentPower(s, |d|, n);
    ScaledWhole(DigitsValue(d), Pow10(DigitsValue(n)));
  }

  /** Digits that end without a full stop or another digit give the mantissa of the literal. */
  lemma WholeThenScaled(s: string, d: string)
    requires d != [] && AllDigits(d) && |d| <= |s| && s[..|d|] == d
    requires |d| == |s| || (!IsDigit(s[|d|]) && s[|d|] != '.')
    ensures ParseNumber(s) == Some(Scaled(DigitsValue(d) as real, ExponentScale(s, |d|)))
  {
    assert forall k :: 0 <= k < |d| ==> s[k] == d[k];
    RunEndUnique(s, 0, IsDigit, |d|);
    assert FractionAt(s, |d|) == [];
    MantissaWhole(d);
  }

  /** A mark followed directly by the digits `n` scales by ten to the power `n`. */
  lemma ExponentPower(s: string, k: nat, n: string)
    requires ExponentMark(s, k) && n != [] && AllDigits(n)
    requires k + 1 + |n| <= |s| && s[k + 1..k + 1 + |n|] == n
    requires k + 1 + |n| == |s| || !IsDigit(s[k + 1 + |n|])
    ensures ExponentScale(s, k) == Pow10(DigitsValue(n)) as real
  {
    assert forall j :: k + 1 <= j < k + 1 + |n| ==> s[j] == n[j - k - 1];
    assert IsDigit(s[k + 1]) && s[k + 1] != '+' && s[k + 1] != '-';
    RunEndUnique(s, k + 1, IsDigit, k + 1 + |n|);
    assert s[k + 1..RunEnd(s, k + 1, IsDigit)] == n;
  }

  /** Scaling a whole number by a power of ten stays a whole number. */
  lemma ScaledWhole(a: nat, b: nat)
    requires b >= 1
    ensures Scaled(a as real, b as real) == (a * b) as real
  {
  }

  /** Digits, a full stop and more digits read as a decimal fraction. */
  lemma {:induction false} ParseDecimal(whole: string, fraction: string)
    requires whole != [] && AllDigits(whole)
    requires fraction != [] && AllDigits(fraction)
    ensures ParseNumber(whole + "." + fraction) == Some(Mantissa(whole, fraction))
  {
    var s := whole + "." + fraction;
    assert s[..|whole|] == whole;
    assert s[|whole|] == '.';
    assert s[|whole| + 1..] == fraction;
    var intEnd := RunEnd(s, 0, IsDigit);
    assert intEnd == |whole|;
    var fracEnd := RunEnd(s, intEnd + 1, IsDigit);
    assert fracEnd == |s|;
    assert FractionAt(s, intEnd) == fraction;
    assert ExponentScale(s, fracEnd) == 1.0;
  }
}
