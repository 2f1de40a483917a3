/** The locale services the scanner relies on, for the UTF-8 locale the
    interpreter's tests select: `mbrtowc` as a UTF-8 decoder following
    section 3 of RFC 3629, and the character classes `iswdigit`, `iswspace`,
    `iswlower` and `islower`. */
module Locale {
  import opened Slices

  /** What one call of mbrtowc reports: a wide character and the number of
      bytes it took (0 for the NUL character), or an invalid or incomplete
      sequence (both are the same fatal error to the scanner). */
  datatype Decoded = Wide(wc: int, width: nat) | Bad

  predicate IsTail(b: byte)
  {
    0x80 <= b <= 0xBF
  }

  /** A Unicode scalar value other than NUL: what UTF-8 may encode. */
  predicate IsScalar(cp: int)
  {
    0 < cp <= 0x10FFFF && !(0xD800 <= cp <= 0xDFFF)
  }

  /** The range the second byte of a sequence led by b0 must fall in
      (RFC 3629 excludes overlong forms, surrogates and values past U+10FFFF
      by narrowing it). */
  function SecondLow(b0: byte): byte
  {
    if b0 == 0xE0 then 0xA0 else if b0 == 0xF0 then 0x90 else 0x80
  }

  function SecondHigh(b0: byte): byte
  {
    if b0 == 0xED then 0x9F else if b0 == 0xF4 then 0x8F else 0xBF
  }

  /** mbrtowc on the bytes text[i..end). */
  function Decode(text: seq<byte>, i: nat, end: nat): (d: Decoded)
    requires i < end <= |text|
    ensures d.Wide? ==> d.width <= 4 && i + d.width <= end
    ensures d.Wide? ==> (d.width == 0 <==> text[i] == 0)
    ensures d.Wide? && d.width > 0 ==> IsScalar(d.wc)
    ensures d.Wide? && d.width == 0 ==> d.wc == 0
    ensures text[i] < 0x80 ==> d == Wide(text[i], if text[i] == 0 then 0 else 1)
  {
    var b0: int := text[i];
    if b0 == 0 then Wide(0, 0)
    else if b0 < 0x80 then Wide(b0, 1)
    else if 0xC2 <= b0 <= 0xDF then
      if i + 1 < end && IsTail(text[i + 1]) then
        Wide((b0 - 0xC0) * 64 + (text[i + 1] as int - 0x80), 2)
      else Bad
    else if 0xE0 <= b0 <= 0xEF then
      if i + 2 < end && SecondLow(b0) <= text[i + 1] <= SecondHigh(b0) && IsTail(text[i + 2]) then
        Wide((b0 - 0xE0) * 4096 + (text[i + 1] as int - 0x80) * 64 + (text[i + 2] as int - 0x80), 3)
      else Bad
    else if 0xF0 <= b0 <= 0xF4 then
      if i + 3 < end && SecondLow(b0) <= text[i + 1] <= SecondHigh(b0)
         && IsTail(text[i + 2]) && IsTail(text[i + 3]) then
        Wide((b0 - 0xF0) * 262144 + (text[i + 1] as int - 0x80) * 4096
             + (text[i + 2] as int - 0x80) * 64 + (text[i + 3] as int - 0x80), 4)
      else Bad
    else Bad
  }

  /** The UTF-8 encoding of a scalar value (what wcrtomb writes). */
  function Encode(cp: int): (r: seq<byte>)
    requires IsScalar(cp)
    ensures 1 <= |r| <= 4
  {
    if cp < 0x80 then [cp]
    else if cp < 0x800 then [0xC0 + cp / 64, 0x80 + cp % 64]
    else if cp < 0x10000 then [0xE0 + cp / 4096, 0x80 + cp / 64 % 64, 0x80 + cp % 64]
    else [0xF0 + cp / 262144, 0x80 + cp / 4096 % 64, 0x80 + cp / 64 % 64, 0x80 + cp % 64]
  }

  /** The arithmetic of the three multi-byte forms, one direction at a time. */
  lemma SplitTwo(cp: int)
    requires 0x80 <= cp < 0x800
    ensures 0xC2 <= 0xC0 + cp / 64 <= 0xDF && 0 <= cp % 64 < 64
    ensures (cp / 64) * 64 + cp % 64 == cp
  {
  }

  lemma SplitThree(cp: int)
    requires 0x800 <= cp < 0x10000 && !(0xD800 <= cp <= 0xDFFF)
    ensures 0 <= cp / 4096 <= 15 && 0 <= cp / 64 % 64 < 64 && 0 <= cp % 64 < 64
    ensures cp / 4096 == 0 ==> cp / 64 % 64 >= 0x20
    ensures cp / 4096 == 0xD ==> cp / 64 % 64 < 0x20
    ensures (cp / 4096) * 4096 + (cp / 64 % 64) * 64 + cp % 64 == cp
  {
    var q, c := cp / 64, cp % 64;
    var a, b := q / 64, q % 64;
    assert cp == 64 * q + c;
    assert q == 64 * a + b;
    assert cp == 4096 * a + 64 * b + c;
    assert cp / 4096 == a;
  }

  lemma SplitFour(cp: int)
    requires 0x10000 <= cp <= 0x10FFFF
    ensures 1 <= cp / 262144 <= 4 || (cp / 262144 == 0 && cp / 4096 % 64 >= 0x10)
    ensures cp / 262144 == 4 ==> cp / 4096 % 64 < 0x10
    ensures 0 <= cp / 4096 % 64 < 64 && 0 <= cp / 64 % 64 < 64 && 0 <= cp % 64 < 64
    ensures (cp / 262144) * 262144 + (cp / 4096 % 64) * 4096 + (cp / 64 % 64) * 64 + cp % 64 == cp
  {
    var q, d := cp / 64, cp % 64;
    var p, c := q / 64, q % 64;
    var a, b := p / 64, p % 64;
    assert cp == 64 * q + d;
    assert q == 64 * p + c;
    assert p == 64 * a + b;
    assert cp == 262144 * a + 4096 * b + 64 * c + d;
    assert cp / 4096 == p;
    assert cp / 262144 == a;
  }

  lemma JoinTwo(t0: int, t1: int)
    requires 0 <= t0 < 32 && 0 <= t1 < 64
    ensures (t0 * 64 + t1) / 64 == t0 && (t0 * 64 + t1) % 64 == t1
  {
  }

  lemma JoinThree(t0: int, t1: int, t2: int)
    requires 0 <= t0 < 16 && 0 <= t1 < 64 && 0 <= t2 < 64
    ensures var cp := t0 * 4096 + t1 * 64 + t2;
      cp / 4096 == t0 && cp / 64 % 64 == t1 && cp % 64 == t2
  {
    var cp := t0 * 4096 + t1 * 64 + t2;
    assert cp == (t0 * 64 + t1) * 64 + t2;
    assert cp / 64 == t0 * 64 + t1;
  }

  lemma JoinFour(t0: int, t1: int, t2: int, t3: int)
    requires 0 <= t0 < 8 && 0 <= t1 < 64 && 0 <= t2 < 64 && 0 <= t3 < 64
    ensures var cp := t0 * 262144 + t1 * 4096 + t2 * 64 + t3;
      cp / 262144 == t0 && cp / 4096 % 64 == t1 && cp / 64 % 64 == t2 && cp % 64 == t3
  {
    var cp := t0 * 262144 + t1 * 4096 + t2 * 64 + t3;
    assert cp == ((t0 * 64 + t1) * 64 + t2) * 64 + t3;
    assert cp / 64 == (t0 * 64 + t1) * 64 + t2;
    assert cp / 4096 == t0 * 64 + t1;
  }

  /** Decoding the encoding of a scalar value gives back that value and
      consumes exactly the encoding. */
  lemma DecodeEncoded(text: seq<byte>, i: nat, end: nat, cp: int)
    requires IsScalar(cp)
    requires i + |Encode(cp)| <= end <= |text|
    requires text[i..i + |Encode(cp)|] == Encode(cp)
    ensures Decode(text, i, end) == Wide(cp, |Encode(cp)|)
  {
    var e := Encode(cp);
    assert forall k :: 0 <= k < |e| ==> text[i + k] == e[k] by {
      forall k | 0 <= k < |e| ensures text[i + k] == e[k] {
        assert text[i..i + |e|][k] == text[i + k];
      }
    }
    if cp < 0x80 {
    } else if cp < 0x800 {
      SplitTwo(cp);
    } else if cp < 0x10000 {
      SplitThree(cp);
    } else {
      SplitFour(cp);
    }
  }

  /** Every sequence the decoder accepts (other than NUL) is the encoding of
      the value it decodes to: the decoder accepts exactly well-formed
      UTF-8. */
  lemma EncodeDecoded(text: seq<byte>, i: nat, end: nat)
    requires i < end <= |text|
    requires Decode(text, i, end).Wide? && Decode(text, i, end).width > 0
    ensures text[i..i + Decode(text, i, end).width] == Encode(Decode(text, i, end).wc)
  {
    var d := Decode(text, i, end);
    var b0: int := text[i];
    if b0 < 0x80 {
      assert text[i..i + 1] == [text[i]];
    } else if b0 <= 0xDF {
      assert d.width == 2;
      JoinTwo(b0 - 0xC0, text[i + 1] - 0x80);
      assert text[i..i + 2] == [text[i], text[i + 1]];
    } else if b0 <= 0xEF {
      assert d.width == 3;
      JoinThree(b0 - 0xE0, text[i + 1] - 0x80, text[i + 2] - 0x80);
      assert text[i..i + 3] == [text[i], text[i + 1], text[i + 2]];
    } else {
      assert d.width == 4;
      JoinFour(b0 - 0xF0, text[i + 1] - 0x80, text[i + 2] - 0x80, text[i + 3] - 0x80);
      assert text[i..i + 4] == [text[i], text[i + 1], text[i + 2], text[i + 3]];
    }
  }

  /** iswdigit: only the ten ASCII digits, never NUL and always one byte,
      each with its digit value 0..9. */
  function IsDigit(wc: int): (r: bool)
    ensures r ==> 0 < wc < 0x80 && 0 <= wc - '0' as int <= 9
  {
    '0' as int <= wc <= '9' as int
  }

  /** iswspace: the space class of the UTF-8 locale. No digit is a space,
      and on ASCII it is the C locale's isspace: space and \t \n \v \f \r. */
  function IsSpace(wc: int): (r: bool)
    ensures r ==> wc != 0 && !IsDigit(wc)
    ensures wc < 0x80 ==> (r <==> wc == ' ' as int || 9 <= wc <= 13)
  {
    || wc == ' ' as int
    || 0x09 <= wc <= 0x0D
    || wc == 0x1680
    || 0x2000 <= wc <= 0x2006
    || 0x2008 <= wc <= 0x200A
    || wc == 0x2028 || wc == 0x2029 || wc == 0x205F || wc == 0x3000
  }

  /** iswlower, below U+0100: the ASCII letters, and the Latin-1 letters
      that have an upper-case form (plus sharp s). A lower-case letter is
      neither a digit nor a space, and fits in Latin-1. */
  function IsWLower(wc: int): (r: bool)
    ensures r ==> !IsDigit(wc) && !IsSpace(wc)
    ensures r ==> 'a' as int <= wc < 0x100
  {
    || 'a' as int <= wc <= 'z' as int
    || wc == 0xB5
    || 0xDF <= wc <= 0xF6
    || 0xF8 <= wc <= 0xFF
  }

  /** islower on a value of unsigned-char range in the UTF-8 locale: the
      ASCII lower-case letters only. Each is also iswlower, and c - 'a'
      indexes one of the 26 cells. */
  function IsLower(c: int): (r: bool)
    ensures r ==> IsWLower(c)
    ensures r <==> 0 <= c - 'a' as int < 26
  {
    'a' as int <= c <= 'z' as int
  }
}
