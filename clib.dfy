/** The one C library conversion the interpreter depends on for its
    behaviour: `strtol(arg, &end, 0)`, used to bind the program arguments to
    the variables b..z. Base 0 means: optional white space, an optional sign,
    then a hexadecimal number after `0x` or `0X`, an octal number after a
    leading `0`, or a decimal number. A result outside the range of a 64-bit
    `long` is clamped to LONG_MIN or LONG_MAX. */
module CLib {
  import opened Slices
  import opened Tokens
  import Locale

  const LONG_MIN: int := -0x8000_0000_0000_0000
  const LONG_MAX: int := 0x7fff_ffff_ffff_ffff

  /** The value strtol returns and how many bytes it consumed (the distance
      from the argument to `*end`); 0 consumed means no number was found. */
  datatype Parsed = Parsed(value: int, consumed: nat)

  /** isspace in the C locale: space, and \t \n \v \f \r. On every byte
      it agrees with the interpreter's iswspace. */
  function IsSpaceByte(b: byte): (r: bool)
    ensures r <==> Locale.IsSpace(b as int)
  {
    b == ' ' as int || 9 <= b <= 13
  }

  /** The value of a digit in bases up to 36; 36 for a byte that is a digit
      in no base. */
  function DigitValue(b: byte): (v: nat)
    ensures v <= 36
  {
    if '0' as int <= b <= '9' as int then b - '0' as int
    else if 'a' as int <= b <= 'z' as int then b - 'a' as int + 10
    else if 'A' as int <= b <= 'Z' as int then b - 'A' as int + 10
    else 36
  }

  /** The index of the first byte at or after i that is not white space. */
  function SkipSpaces(s: seq<byte>, i: nat): (j: nat)
    requires i <= |s|
    ensures i <= j <= |s|
    ensures forall k :: i <= k < j ==> IsSpaceByte(s[k])
    ensures j < |s| ==> !IsSpaceByte(s[j])
    decreases |s| - i
  {
    if i < |s| && IsSpaceByte(s[i]) then SkipSpaces(s, i + 1) else i
  }

  /** The index just past the run of base-`base` digits that starts at i. */
  function Span(s: seq<byte>, i: nat, base: nat): (j: nat)
    requires i <= |s|
    ensures i <= j <= |s|
    ensures forall k :: i <= k < j ==> DigitValue(s[k]) < base
    ensures j < |s| ==> DigitValue(s[j]) >= base
    decreases |s| - i
  {
    if i < |s| && DigitValue(s[i]) < base then Span(s, i + 1, base) else i
  }

  /** base to the power n. */
  function Power(base: nat, n: nat): nat
  {
    if n == 0 then 1 else Power(base, n - 1) * base
  }

  /** The number a run of digits denotes, most significant first; a
      single digit denotes its own value. */
  function Accumulate(d: seq<byte>, base: nat): (r: nat)
    ensures |d| == 1 ==> r == DigitValue(d[0])
  {
    if |d| == 0 then 0 else Accumulate(d[..|d| - 1], base) * base + DigitValue(d[|d| - 1])
  }

  /** n digits, each below the base, denote less than base^n: the value
      strtol accumulates before clamping. */
  lemma {:induction false} AccumulateBelowPower(d: seq<byte>, base: nat)
    requires forall k :: 0 <= k < |d| ==> DigitValue(d[k]) < base
    ensures Accumulate(d, base) < Power(base, |d|)
  {
    if |d| > 0 {
      var pre := d[..|d| - 1];
      assert forall k :: 0 <= k < |pre| ==> pre[k] == d[k];
      AccumulateBelowPower(pre, base);
      StepBound(Accumulate(pre, base), DigitValue(d[|d| - 1]), base, Power(base, |pre|));
    }
  }

  /** One more digit below the base keeps the value below the next power. */
  lemma StepBound(a: nat, v: nat, base: nat, p: nat)
    requires a < p && v < base
    ensures a * base + v < p * base
  {
    var t: nat := p - a - 1;
    assert p * base == a * base + base + t * base;
  }

  /** The overflow rule of strtol: clamp to the range of `long`. */
  function Clamp(v: int): (r: int)
    ensures LONG_MIN <= r <= LONG_MAX
    ensures LONG_MIN <= v <= LONG_MAX ==> r == v
  {
    if v < LONG_MIN then LONG_MIN else if v > LONG_MAX then LONG_MAX else v
  }

  /** strtol(s, &end, 0): white space, then an optional sign, then the
      number. */
  function StrToL(s: seq<byte>): (p: Parsed)
    ensures p.consumed <= |s|
    ensures LONG_MIN <= p.value <= LONG_MAX
    ensures p.consumed == 0 ==> p.value == 0
  {
    var i := SkipSpaces(s, 0);
    var negative := i < |s| && s[i] == '-' as int;
    var j := if i < |s| && (s[i] == '-' as int || s[i] == '+' as int) then i + 1 else i;
    Unsigned(s, j, negative)
  }

  /** The number after the sign at j. A `0x` prefix counts only when a
      hexadecimal digit follows it; otherwise the `0` alone is parsed (as an
      octal number) and the scan stops at the `x`. No digit at all consumes
      nothing, sign and white space included. */
  function Unsigned(s: seq<byte>, j: nat, negative: bool): (p: Parsed)
    requires j <= |s|
    ensures p.consumed <= |s|
    ensures LONG_MIN <= p.value <= LONG_MAX
    ensures p.consumed == 0 ==> p.value == 0
    ensures p.consumed == 0 <==> j == |s| || DigitValue(s[j]) >= 10
  {
    var hex := j + 2 < |s| && s[j] == '0' as int && (s[j + 1] == 'x' as int || s[j + 1] == 'X' as int)
               && DigitValue(s[j + 2]) < 16;
    var base := if hex then 16 else if j < |s| && s[j] == '0' as int then 8 else 10;
    var k := if hex then j + 2 else j;
    var e := Span(s, k, base);
    if e == k then Parsed(0, 0)
    else
      var magnitude: int := Accumulate(s[k..e], base);
      Parsed(Clamp(if negative then -magnitude else magnitude), e)
  }

  /** The decimal digits of n denote n. */
  lemma {:induction false} AccumulateDigits(n: nat)
    ensures Accumulate(Digits(n), 10) == n
  {
    if n >= 10 {
      AccumulateDigits(n / 10);
      var d := Digits(n);
      assert d[..|d| - 1] == Digits(n / 10);
    }
  }

  /** A run of digits reaching the end of the text is consumed whole. */
  lemma {:induction false} SpanToEnd(s: seq<byte>, i: nat, base: nat)
    requires i <= |s|
    requires forall k :: i <= k < |s| ==> DigitValue(s[k]) < base
    ensures Span(s, i, base) == |s|
    decreases |s| - i
  {
    if i < |s| {
      SpanToEnd(s, i + 1, base);
    }
  }

  /** The digits of m at the end of the text are parsed as m. */
  lemma UnsignedDigits(s: seq<byte>, j: nat, m: nat, negative: bool)
    requires j <= |s| && s[j..] == Digits(m)
    ensures Unsigned(s, j, negative) == Parsed(Clamp(if negative then -(m as int) else m), |s|)
  {
    var d := Digits(m);
    forall k | j <= k < |s|
      ensures DigitValue(s[k]) < 10
    {
      assert s[k] == d[k - j];
    }
    if m == 0 {
      assert |s| == j + 1 && s[j] == '0' as int;
      SpanToEnd(s, j, 8);
      assert s[j..|s|] == ['0' as int];
      assert Accumulate(['0' as int], 8) == Accumulate([], 8) * 8 + 0;
    } else {
      assert s[j] == d[0] != '0' as int;
      SpanToEnd(s, j, 10);
      AccumulateDigits(m);
      assert s[j..|s|] == d;
    }
  }

  /** strtol reads back what printf's `%d` writes, consuming all of it. */
  lemma StrToLDecimal(n: int)
    requires LONG_MIN <= n <= LONG_MAX
    ensures StrToL(Decimal(n)) == Parsed(n, |Decimal(n)|)
  {
    var s := Decimal(n);
    assert !IsSpaceByte(s[0]);
    assert SkipSpaces(s, 0) == 0;
    if n < 0 {
      UnsignedDigits(s, 1, -n, true);
    } else {
      UnsignedDigits(s, 0, n, false);
    }
  }

  /** An argument with no digit where a number may begin is rejected. */
  lemma NoDigitsConsumeNothing(s: seq<byte>)
    requires forall k :: 0 <= k < |s| ==> DigitValue(s[k]) >= 10
    ensures StrToL(s).consumed == 0
  {
  }
}
