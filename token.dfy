/** The values the interpreter keeps on its stack and in its variables: a
    tagged union of a number, a variable letter or a lambda (a view of the
    program text between a `[` and its matching `]`). */
module Tokens {
  import opened MachineInt
  import opened Slices

  datatype Token =
    | Number(number: Int32)
    | Variable(variable: int)
    | Lambda(lambda: Slice)

  /** token_make_number */
  function MakeNumber(n: Int32): (t: Token)
    ensures t.Number? && t.number == n
  {
    Number(n)
  }

  /** token_make_variable */
  function MakeVariable(v: int): (t: Token)
    ensures t.Variable? && t.variable == v
  {
    Variable(v)
  }

  /** token_make_lambda: the slice is carried unchanged. */
  function MakeLambda(s: Slice): (t: Token)
    ensures t.Lambda? && t.lambda == s
  {
    Lambda(s)
  }

  /** The lambda of a token, if any, lies inside a text of n bytes. */
  predicate InText(t: Token, n: nat)
  {
    t.Lambda? ==> Within(t.lambda, n)
  }

  predicate IsDecimalDigit(b: int)
  {
    '0' as int <= b <= '9' as int
  }

  /** The decimal digits of n, most significant first, without leading
      zeros. */
  function Digits(n: nat): (r: seq<byte>)
    ensures |r| >= 1
    ensures forall i :: 0 <= i < |r| ==> IsDecimalDigit(r[i])
    ensures n > 0 ==> r[0] != '0' as int
    ensures n == 0 ==> r == ['0' as int]
  {
    if n < 10 then ['0' as int + n] else Digits(n / 10) + ['0' as int + n % 10]
  }

  /** printf's `%d`: a minus sign for negative numbers, then the digits of
      the magnitude. */
  function Decimal(n: int): (r: seq<byte>)
    ensures n < 0 ==> |r| >= 2 && r[0] == '-' as int && r[1..] == Digits(-n)
    ensures n >= 0 ==> r == Digits(n)
  {
    if n < 0 then ['-' as int] + Digits(-n) else Digits(n)
  }

  /** token_print: a number in decimal, a variable as its one character
      (`%c` keeps the low eight bits), a lambda as its text between brackets. */
  function Print(t: Token, text: seq<byte>): (r: seq<byte>)
    requires InText(t, |text|)
    ensures t.Number? ==> r == Decimal(t.number)
    ensures t.Variable? ==> r == [t.variable % 256]
    ensures t.Lambda? ==> |r| == Length(t.lambda) + 2 && r[0] == '[' as int && r[|r| - 1] == ']' as int
    ensures t.Lambda? ==> r[1..|r| - 1] == text[t.lambda.buf.offset..t.lambda.end.offset]
  {
    match t
    case Number(n) => Decimal(n)
    case Variable(v) => [v % 256]
    case Lambda(s) => ['[' as int] + text[s.buf.offset..s.end.offset] + [']' as int]
  }
}
