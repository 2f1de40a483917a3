/** The interpreter of false.c as functions on an explicit machine state.

    `process` walks a slice of the program text one decoded character at a
    time through a small mode machine (number, comment, character literal,
    string, lambda capture) and otherwise dispatches an operator against the
    token stack and the 26 variable cells. `!`, `?`, `¿` and `#` run captured
    lambdas by processing their slices. A fatal error does not return: here
    it is an Outcome carrying the error and the cursor position that the host
    is given, and every caller passes it straight up to `interpret`.

    The recursion through lambdas and the `#` loop need not terminate, so the
    functions that run a lambda take a fuel argument: each lambda run and
    each `#` iteration spends one unit, and running dry is the OutOfFuel
    outcome, which the C program never produces. */
module FalseSpec {
  import opened MachineInt
  import opened Slices
  import opened Tokens
  import opened Failures
  import opened Locale
  import opened CodePoints
  import S = StackSpec
  import M = StorageSpec
  import H = Host
  import C = CLib

  /** What the host's output callbacks are asked to write. */
  datatype Event =
    | EmitNumber(number: Int32)   // emit_number, from `.`
    | EmitChar(octet: byte)       // emit_char, from `,`: the low eight bits
    | EmitWide(wc: int)           // emit_wchar, one character of a string

  /** The global state of the interpreter and its host: the stack, the
      variable cells (a..z), what has been written, and the input feed. */
  datatype MState = MState(stack: seq<Token>, cells: seq<Token>, output: seq<Event>, feed: H.Feed)

  /** The program text (the bytes before the string's terminator) and
      whether the extended operators are enabled. */
  datatype Config = Config(text: seq<byte>, extensions: bool)

  datatype Outcome = Completed | Fatal(kind: ErrorKind, pos: Ptr) | OutOfFuel

  /** The outcome of processing a slice and the state it leaves. */
  datatype Run = Run(outcome: Outcome, st: MState)

  /** What an operator did: it was handled, it is not in this table (the
      dispatch functions return the character), or it stopped the run. */
  datatype Status = Handled | Unhandled(wc: int) | Halted(outcome: Outcome)

  datatype Reply = Reply(status: Status, st: MState)

  /** The `state` variable of process and the locals that go with it. In
      Capture, nesting is 0 until the first character after the opening `[`
      has been seen (then the lambda starts at that character), `nested` is
      the character that closes a nested comment or string (0 when there is
      none), and a pending `'` in `nested` swallows the next character. */
  datatype Mode =
    | Normal
    | InNumber(number: Int32)
    | InComment
    | InChar
    | InString
    | Capture(start: nat, nested: int, nesting: nat)

  /** The mode after one character, and the status of that step (Handled or
      Halted). */
  datatype Stepped = Stepped(mode: Mode, status: Status, st: MState)

  /** Every lambda on the stack and in the cells lies inside a text of n
      bytes, and there are 26 cells. */
  predicate Wf(n: nat, st: MState)
  {
    && |st.cells| == M.CELLS
    && (forall t :: t in st.stack ==> InText(t, n))
    && (forall t :: t in st.cells ==> InText(t, n))
  }

  /** A lambda being captured started at or before the cursor. */
  predicate WfMode(mode: Mode, pos: nat)
  {
    mode.Capture? && mode.nesting > 0 ==> mode.start <= pos
  }

  /** Every lambda in the new state was already in the old one, and the
      number of cells is the same: operators move and copy tokens and make
      numbers and variables, but only the lambda capture makes lambdas. */
  predicate Keeps(st: MState, st': MState)
  {
    && |st'.cells| == |st.cells|
    && (forall t :: t in st'.stack && t.Lambda? ==> t in st.stack || t in st.cells)
    && (forall t :: t in st'.cells && t.Lambda? ==> t in st.stack || t in st.cells)
  }

  /** A status that ends the run is a failure. */
  predicate Proper(s: Status)
  {
    s.Halted? ==> !s.outcome.Completed?
  }

  function Push(st: MState, t: Token): MState
  {
    st.(stack := st.stack + [t])
  }

  function Fail(kind: ErrorKind, p: nat, st: MState): (r: Reply)
    ensures Proper(r.status) && r.st == st
  {
    Reply(Halted(Fatal(kind, At(p))), st)
  }

  /** A stack operation of stack.c run at cursor position p. */
  function Apply(p: nat, st: MState, e: S.Effect<()>): (r: Reply)
    ensures Proper(r.status) && !r.status.Unhandled?
    ensures r.status.Handled? <==> e.result.Ok?
    ensures r.st == st.(stack := e.items)
    ensures S.Drawn(e.items, st.stack) ==> Keeps(st, r.st)
  {
    if e.result.Err? then Fail(e.result.error, p, st.(stack := e.items)) else Reply(Handled, st.(stack := e.items))
  }

  predicate SameTag(x: Token, y: Token)
  {
    (x.Number? && y.Number?) || (x.Variable? && y.Variable?) || (x.Lambda? && y.Lambda?)
  }

  /** compare: pops y, then x. Tokens of different kinds are a type
      mismatch; numbers are equal by value, variables by letter, and two
      lambdas are never equal. */
  function Compare(s: seq<Token>): (e: S.Effect<bool>)
    ensures S.Drawn(e.items, s)
    ensures e.result.Err? && e.result.error == StackUnderflow <==> |s| < 2
    ensures e.result.Ok? <==> |s| >= 2 && SameTag(s[|s| - 2], s[|s| - 1])
    ensures e.items == if |s| >= 2 then s[..|s| - 2] else []
    ensures e.result.Ok? ==> (e.result.value <==> !s[|s| - 1].Lambda? && s[|s| - 2] == s[|s| - 1])
  {
    var py := S.Pop(s);
    if py.result.Err? then S.Underflow(py.items) else
    var px := S.Pop(py.items);
    if px.result.Err? then S.Underflow(px.items) else
    var y := py.result.value;
    var x := px.result.value;
    if !SameTag(x, y) then S.Effect(Err(StackTypeMismatch), px.items)
    else
      var equal := match y
        case Number(n) => x.number == n
        case Variable(v) => x.variable == v
        case Lambda(_) => false;
      S.Effect(Ok(equal), px.items)
  }

  /** check_shift_operands: the first of the three undefined shifts that
      applies, or none. */
  function CheckShiftOperands(x: Int32, y: Int32): (r: Option<ErrorKind>)
    ensures r.None? <==> 0 <= x && 0 <= y < 32
    ensures x < 0 ==> r == Some(ShiftNegativeValue)
    ensures 0 <= x && y < 0 ==> r == Some(ShiftCountNegative)
    ensures 0 <= x && 32 <= y ==> r == Some(ShiftCountTooWide)
  {
    if x < 0 then Some(ShiftNegativeValue)
    else if y < 0 then Some(ShiftCountNegative)
    else if y >= 32 then Some(ShiftCountTooWide)
    else None
  }

  /** The operators of dispatch that pop two numbers. */
  predicate IsBaseBinary(wc: int)
  {
    wc in ['+' as int, '-' as int, '*' as int, '/' as int, '>' as int, '&' as int, '|' as int]
  }

  /** The operators of dispatch_extended that pop two numbers. */
  predicate IsExtendedBinary(wc: int)
  {
    wc in ['<' as int, LEFT_POINTING_DOUBLE_ANGLE_QUOTATION_MARK, RIGHT_POINTING_DOUBLE_ANGLE_QUOTATION_MARK,
           DIVISION_SIGN, LESS_THAN_OR_EQUAL_TO, GREATER_THAN_OR_EQUAL_TO, XOR]
  }

  predicate IsShift(wc: int)
  {
    wc == LEFT_POINTING_DOUBLE_ANGLE_QUOTATION_MARK || wc == RIGHT_POINTING_DOUBLE_ANGLE_QUOTATION_MARK
  }

  predicate IsDivision(wc: int)
  {
    wc == '/' as int || wc == DIVISION_SIGN
  }

  /** The numbers a binary operator pushes, x being the deeper operand and y
      the top one; `÷` pushes the remainder and then the quotient. Results a
      32-bit int cannot hold are wrapped as the hardware does. What each
      operator computes is stated by the lemmas after it. */
  function BinaryOp(wc: int, x: Int32, y: Int32): (r: Result<seq<Int32>>)
    requires IsBaseBinary(wc) || IsExtendedBinary(wc)
    ensures r.Err? <==> (IsDivision(wc) && y == 0) || (IsShift(wc) && !(0 <= x && 0 <= y < 32))
    ensures r.Err? && IsDivision(wc) ==> r.error == DivideByZero
    ensures r.Err? && IsShift(wc) ==> Some(r.error) == CheckShiftOperands(x, y)
    ensures r.Ok? ==> |r.value| == (if wc == DIVISION_SIGN then 2 else 1)
  {
    if wc == '+' as int then Ok([Wrap(x + y)])
    else if wc == '-' as int then Ok([Wrap(x - y)])
    else if wc == '*' as int then Ok([Wrap(x * y)])
    else if wc == '/' as int then
      if y == 0 then Err(DivideByZero) else Ok([Wrap(TruncDiv(x, y))])
    else if wc == '>' as int then Ok([Truth(x > y)])
    else if wc == '&' as int then Ok([BitAnd(x, y)])
    else if wc == '|' as int then Ok([BitOr(x, y)])
    else if wc == '<' as int then Ok([Truth(x < y)])
    else if IsShift(wc) then
      var check := CheckShiftOperands(x, y);
      if check.Some? then Err(check.value)
      else if wc == LEFT_POINTING_DOUBLE_ANGLE_QUOTATION_MARK then Ok([ShiftLeft(x, y)])
      else Ok([ShiftRight(x, y)])
    else if wc == DIVISION_SIGN then
      if y == 0 then Err(DivideByZero) else Ok([Wrap(TruncRem(x, y)), Wrap(TruncDiv(x, y))])
    else if wc == LESS_THAN_OR_EQUAL_TO then Ok([Truth(x <= y)])
    else if wc == GREATER_THAN_OR_EQUAL_TO then Ok([Truth(x >= y)])
    else Ok([BitXor(x, y)])
  }

  /** `+`, `-` and `*` agree with the mathematical result modulo 2^32. */
  lemma BinaryArithmetic(wc: int, x: Int32, y: Int32)
    requires wc in ['+' as int, '-' as int, '*' as int]
    ensures var r := BinaryOp(wc, x, y);
      && r.Ok?
      && (wc == '+' as int ==> (r.value[0] - (x + y)) % TWO_32 == 0)
      && (wc == '-' as int ==> (r.value[0] - (x - y)) % TWO_32 == 0)
      && (wc == '*' as int ==> (r.value[0] - x * y) % TWO_32 == 0)
  {
  }

  /** The comparisons push -1 (true) exactly when the relation holds, and 0
      otherwise. */
  lemma BinaryComparison(wc: int, x: Int32, y: Int32)
    requires wc in ['>' as int, '<' as int, LESS_THAN_OR_EQUAL_TO, GREATER_THAN_OR_EQUAL_TO]
    ensures var r := BinaryOp(wc, x, y);
      && r.Ok? && (r.value[0] == 0 || r.value[0] == -1)
      && (wc == '>' as int ==> (r.value[0] != 0 <==> x > y))
      && (wc == '<' as int ==> (r.value[0] != 0 <==> x < y))
      && (wc == LESS_THAN_OR_EQUAL_TO ==> (r.value[0] != 0 <==> x <= y))
      && (wc == GREATER_THAN_OR_EQUAL_TO ==> (r.value[0] != 0 <==> x >= y))
  {
  }

  /** `«` multiplies by 2^y modulo 2^32; `»` divides by 2^y, rounding
      down. */
  lemma BinaryShift(wc: int, x: Int32, y: Int32)
    requires IsShift(wc) && 0 <= x && 0 <= y < 32
    ensures var r := BinaryOp(wc, x, y);
      && r.Ok?
      && (wc == LEFT_POINTING_DOUBLE_ANGLE_QUOTATION_MARK ==> (r.value[0] - x * Pow2(y)) % TWO_32 == 0)
      && (wc == RIGHT_POINTING_DOUBLE_ANGLE_QUOTATION_MARK ==> r.value[0] == x / Pow2(y) <= x)
  {
  }

  /** `/` and `÷` truncate toward zero as C does: the quotient times the
      divisor plus the remainder is the dividend, the remainder is smaller
      than the divisor and takes the dividend's sign. INT_MIN / -1, which C
      leaves undefined, wraps to INT_MIN with remainder 0. */
  lemma BinaryDivision(wc: int, x: Int32, y: Int32)
    requires IsDivision(wc) && y != 0
    ensures var r := BinaryOp(wc, x, y);
      var q := r.value[|r.value| - 1];
      && r.Ok?
      && (!(x == INT_MIN && y == -1) ==> Abs(y) * Abs(q) <= Abs(x))
      && (x == INT_MIN && y == -1 ==> q == INT_MIN)
      && (wc == DIVISION_SIGN ==>
            && (!(x == INT_MIN && y == -1) ==> q * y + r.value[0] == x)
            && Abs(r.value[0]) < Abs(y)
            && (x < 0 ==> r.value[0] <= 0) && (x >= 0 ==> r.value[0] >= 0))
  {
    QuotientInRange(x, y);
  }

  /** Division of magnitudes: the quotient times the divisor stays within
      the dividend, and only a divisor of 1 leaves the quotient as large as
      2^31. */
  lemma MagnitudeQuotient(ax: nat, ay: nat)
    requires 0 < ay && ax <= -INT_MIN
    ensures ay * (ax / ay) <= ax
    ensures ay > 1 ==> ax / ay <= INT_MAX
    ensures ay == 1 ==> ax / ay == ax
  {
    var q := ax / ay;
    assert ax == q * ay + ax % ay && ax % ay >= 0;
    if ay > 1 {
      MulMonotone(q, 2, ay);
    }
  }

  /** Truncating division of two ints shrinks the dividend, and the
      remainder is smaller than the divisor and has the dividend's sign. */
  lemma QuotientBounds(x: Int32, y: Int32)
    requires y != 0
    ensures Abs(y) * Abs(TruncDiv(x, y)) <= Abs(x)
    ensures Abs(TruncDiv(x, y)) == Abs(x) / Abs(y)
    ensures Abs(TruncRem(x, y)) < Abs(y)
    ensures (x < 0 ==> TruncRem(x, y) <= 0) && (x >= 0 ==> TruncRem(x, y) >= 0)
  {
    TruncDivMagnitude(x, y);
    MagnitudeQuotient(Abs(x), Abs(y));
    TruncDivision(x, y);
  }

  /** So the quotient fits an int except for INT_MIN / -1, which wraps to
      INT_MIN, and the remainder always fits. */
  lemma QuotientInRange(x: Int32, y: Int32)
    requires y != 0
    ensures Abs(y) * Abs(TruncDiv(x, y)) <= Abs(x)
    ensures Abs(TruncRem(x, y)) < Abs(y)
    ensures (x < 0 ==> TruncRem(x, y) <= 0) && (x >= 0 ==> TruncRem(x, y) >= 0)
    ensures !(x == INT_MIN && y == -1) ==> Wrap(TruncDiv(x, y)) == TruncDiv(x, y)
    ensures x == INT_MIN && y == -1 ==> Wrap(TruncDiv(x, y)) == INT_MIN
    ensures Wrap(TruncRem(x, y)) == TruncRem(x, y)
  {
    QuotientBounds(x, y);
    MagnitudeQuotient(Abs(x), Abs(y));
    var d := TruncDiv(x, y);
    if x == INT_MIN && y == -1 {
      assert d == -INT_MIN;
      assert Wrap(d) == INT_MIN;
    } else {
      assert INT_MIN <= d <= INT_MAX;
    }
  }

  /** A binary operator at cursor p: pop y, pop x, push the results. */
  function Binary(p: nat, wc: int, st: MState): (r: Reply)
    requires IsBaseBinary(wc) || IsExtendedBinary(wc)
    ensures Proper(r.status) && !r.status.Unhandled?
    ensures Keeps(st, r.st)
  {
    var ey := S.PopNumber(st.stack);
    if ey.result.Err? then Fail(ey.result.error, p, st.(stack := ey.items)) else
    var ex := S.PopNumber(ey.items);
    if ex.result.Err? then Fail(ex.result.error, p, st.(stack := ex.items)) else
    var v := BinaryOp(wc, ex.result.value, ey.result.value);
    if v.Err? then Fail(v.error, p, st.(stack := ex.items))
    else
      var pushed := st.(stack := ex.items + Numbers(v.value));
      assert forall t :: t in Numbers(v.value) ==> t.Number?;
      Reply(Handled, pushed)
  }

  /** Numbers as tokens, in order. */
  function Numbers(ns: seq<Int32>): (ts: seq<Token>)
    ensures |ts| == |ns| && forall i :: 0 <= i < |ns| ==> ts[i] == Number(ns[i])
  {
    if |ns| == 0 then [] else [Number(ns[0])] + Numbers(ns[1..])
  }

  /** `=` and `≠`: compare, then push the truth of the comparison
      (negated for `≠`). */
  function Equal(p: nat, st: MState, negate: bool): (r: Reply)
    ensures Proper(r.status) && !r.status.Unhandled?
    ensures Keeps(st, r.st)
  {
    var e := Compare(st.stack);
    if e.result.Err? then Fail(e.result.error, p, st.(stack := e.items))
    else Reply(Handled, Push(st.(stack := e.items), Number(Truth(e.result.value != negate))))
  }

  /** The stack shufflers of dispatch: `\` swap, `$` dup, `%` drop, `@` rot,
      and `ø`/`O` pick, whose count is popped first. */
  predicate IsShuffle(wc: int)
  {
    wc in ['\\' as int, '$' as int, '%' as int, '@' as int, LATIN_SMALL_LETTER_O_WITH_STROKE, 'O' as int]
  }

  function Shuffle(p: nat, wc: int, st: MState): (r: Reply)
    requires IsShuffle(wc)
    ensures Proper(r.status) && !r.status.Unhandled?
    ensures Keeps(st, r.st)
  {
    if wc == '\\' as int then Apply(p, st, S.Swap(st.stack))
    else if wc == '$' as int then Apply(p, st, S.Dup(st.stack))
    else if wc == '%' as int then Apply(p, st, S.Drop(st.stack))
    else if wc == '@' as int then Apply(p, st, S.Rot(st.stack))
    else
      var n := S.PopNumber(st.stack);
      if n.result.Err? then Fail(n.result.error, p, st.(stack := n.items))
      else Apply(p, st, S.Pick(n.items, n.result.value))
  }

  /** The operators of dispatch that pop one number: `_` negate, `~` invert,
      `.` print it, `,` print it as a character. */
  predicate IsUnary(wc: int)
  {
    wc in ['_' as int, '~' as int, '.' as int, ',' as int]
  }

  function Unary(p: nat, wc: int, st: MState): (r: Reply)
    requires IsUnary(wc)
    ensures Proper(r.status) && !r.status.Unhandled?
    ensures Keeps(st, r.st)
  {
    var n := S.PopNumber(st.stack);
    if n.result.Err? then Fail(n.result.error, p, st.(stack := n.items)) else
    var x := n.result.value;
    var st' := st.(stack := n.items);
    if wc == '_' as int then Reply(Handled, Push(st', Number(Wrap(-(x as int)))))
    else if wc == '~' as int then Reply(Handled, Push(st', Number(BitNot(x))))
    else if wc == '.' as int then Reply(Handled, st'.(output := st'.output + [EmitNumber(x)]))
    else Reply(Handled, st'.(output := st'.output + [EmitChar(x % 256)]))
  }

  /** `:` pops a variable, then the value to store in it; `;` pops a
      variable and pushes its value. */
  function Store(p: nat, st: MState): (r: Reply)
    requires |st.cells| == M.CELLS
    ensures Proper(r.status) && !r.status.Unhandled?
    ensures Keeps(st, r.st)
  {
    var v := S.PopVariable(st.stack);
    if v.result.Err? then Fail(v.result.error, p, st.(stack := v.items)) else
    var t := S.Pop(v.items);
    if t.result.Err? then Fail(t.result.error, p, st.(stack := t.items))
    else
      assert t.result.value in st.stack;
      Reply(Handled, st.(stack := t.items, cells := M.Set(st.cells, v.result.value, t.result.value)))
  }

  function Fetch(p: nat, st: MState): (r: Reply)
    requires |st.cells| == M.CELLS
    ensures Proper(r.status) && !r.status.Unhandled?
    ensures Keeps(st, r.st)
  {
    var v := S.PopVariable(st.stack);
    if v.result.Err? then Fail(v.result.error, p, st.(stack := v.items))
    else Reply(Handled, Push(st.(stack := v.items), M.Get(st.cells, v.result.value)))
  }

  /** dispatch: the operators every FALSE dialect has. A character that is
      not one of them is returned unhandled with the state unchanged. */
  function Dispatch(p: nat, wc: int, st: MState): (r: Reply)
    requires |st.cells| == M.CELLS
    ensures Proper(r.status)
    ensures r.status.Unhandled? ==> r == Reply(Unhandled(wc), st)
    ensures Keeps(st, r.st)
  {
    if wc == '`' as int then Fail(UnsupportedInjection, p, st)
    else if IsShuffle(wc) then Shuffle(p, wc, st)
    else if wc == '=' as int then Equal(p, st, false)
    else if IsBaseBinary(wc) then Binary(p, wc, st)
    else if IsUnary(wc) then Unary(p, wc, st)
    else if wc == '^' as int then
      var g := H.Read(st.feed);
      Reply(Handled, Push(st.(feed := g.rest), Number(g.value)))
    else if wc == LATIN_SMALL_LETTER_SHARP_S || wc == 'B' as int then
      Reply(Handled, st.(feed := H.Flushed(st.feed)))
    else if wc == ':' as int then Store(p, st)
    else if wc == ';' as int then Fetch(p, st)
    else Reply(Unhandled(wc), st)
  }

  /** The table of dispatch_extended, except `¿`: over, nip, tuck, 2dup,
      depth, `≠`, the extended binary operators and the `∫` assertion. */
  function ExtendedTable(p: nat, wc: int, st: MState): (r: Reply)
    ensures Proper(r.status)
    ensures r.status.Unhandled? ==> r == Reply(Unhandled(wc), st)
    ensures Keeps(st, r.st)
  {
    if wc == POUND_SIGN then Apply(p, st, S.Over(st.stack))
    else if wc == PER_MILLE_SIGN then Apply(p, st, S.Nip(st.stack))
    else if wc == EURO_SIGN then Apply(p, st, S.Tuck(st.stack))
    else if wc == LATIN_CAPITAL_LETTER_O_WITH_STROKE then Apply(p, st, S.TwoDup(st.stack))
    else if wc == SECTION_SIGN then Reply(Handled, Push(st, Number(Wrap(|st.stack|))))
    else if wc == NOT_EQUAL_TO then Equal(p, st, true)
    else if IsExtendedBinary(wc) then Binary(p, wc, st)
    else if wc == INTEGRAL then
      var n := S.PopNumber(st.stack);
      if n.result.Err? then Fail(n.result.error, p, st.(stack := n.items))
      else if n.result.value == 0 then Fail(AssertionFailed, p, st.(stack := n.items))
      else Reply(Handled, st.(stack := n.items))
    else Reply(Unhandled(wc), st)
  }

  /** dispatch_extended: `¿` pops the false branch, the true branch and the
      condition, and runs one branch as `!` runs a lambda; every other
      character goes to the rest of the table. */
  function DispatchExtended(c: Config, p: nat, wc: int, st: MState, fuel: nat): (r: Reply)
    requires Wf(|c.text|, st)
    ensures Proper(r.status) && Wf(|c.text|, r.st)
    ensures r.status.Unhandled? ==> r == Reply(Unhandled(wc), st)
    decreases fuel, 0, 2
  {
    if wc == INVERTED_QUESTION_MARK then
      var f := S.PopLambda(st.stack);
      PoppedLambda(|c.text|, st);
      var st1 := st.(stack := f.items);
      if f.result.Err? then Fail(f.result.error, p, st1) else
      var t := S.PopLambda(f.items);
      PoppedLambda(|c.text|, st1);
      var st2 := st.(stack := t.items);
      if t.result.Err? then Fail(t.result.error, p, st2) else
      var n := S.PopNumber(t.items);
      var st3 := st.(stack := n.items);
      KeepsWf(|c.text|, st2, st3);
      if n.result.Err? then Fail(n.result.error, p, st3) else
      var run := Call(c, if n.result.value != 0 then t.result.value else f.result.value, st3, fuel);
      Reply(if run.outcome.Completed? then Handled else Halted(run.outcome), run.st)
    else
      var r := ExtendedTable(p, wc, st);
      KeepsWf(|c.text|, st, r.st);
      r
  }

  /** The lambda slice popped from a well-formed stack lies in the text, and
      what is left is well formed. */
  lemma PoppedLambda(n: nat, st: MState)
    requires Wf(n, st)
    ensures S.PopLambda(st.stack).result.Ok? ==> Within(S.PopLambda(st.stack).result.value, n)
    ensures Wf(n, st.(stack := S.PopLambda(st.stack).items))
  {
    var s := st.stack;
    if |s| > 0 {
      assert s[|s| - 1] in s;
    }
  }

  /** A change of state that brings no new lambda keeps the state well
      formed. */
  lemma KeepsWf(n: nat, st: MState, st': MState)
    requires Wf(n, st) && Keeps(st, st')
    ensures Wf(n, st')
  {
  }

  /** Runs a lambda: processes its slice with one unit of fuel less. */
  function Call(c: Config, s: Slice, st: MState, fuel: nat): (r: Run)
    requires Within(s, |c.text|) && Wf(|c.text|, st)
    ensures Wf(|c.text|, r.st)
    decreases fuel, 0, 0
  {
    if fuel == 0 then Run(OutOfFuel, st) else Process(c, s, st, fuel - 1)
  }

  /** The `#` loop: run cond; stop when it leaves 0, otherwise run body and
      go round again. Each round spends one unit of fuel. */
  function While(c: Config, p: nat, cond: Slice, body: Slice, st: MState, fuel: nat): (r: Run)
    requires Within(cond, |c.text|) && Within(body, |c.text|) && Wf(|c.text|, st)
    ensures Wf(|c.text|, r.st)
    decreases fuel, 0, 1
  {
    if fuel == 0 then Run(OutOfFuel, st) else
    var rc := Process(c, cond, st, fuel - 1);
    if !rc.outcome.Completed? then rc else
    var n := S.PopNumber(rc.st.stack);
    var st' := rc.st.(stack := n.items);
    KeepsWf(|c.text|, rc.st, st');
    if n.result.Err? then Run(Fatal(n.result.error, At(p)), st')
    else if n.result.value == 0 then Run(Completed, st')
    else
      var rb := Process(c, body, st', fuel - 1);
      if !rb.outcome.Completed? then rb else While(c, p, cond, body, rb.st, fuel - 1)
  }

  /** One turn of the loop: a condition that leaves a nonzero number and a
      body that completes leave the loop to run again, with one unit of
      fuel less. */
  lemma WhileAdvances(c: Config, p: nat, cond: Slice, body: Slice, st: MState, fuel: nat)
    requires Within(cond, |c.text|) && Within(body, |c.text|) && Wf(|c.text|, st) && fuel > 0
    ensures var rc := Process(c, cond, st, fuel - 1);
      var n := S.PopNumber(rc.st.stack);
      var st' := rc.st.(stack := n.items);
      rc.outcome.Completed? && n.result.Ok? && n.result.value != 0 ==>
        Wf(|c.text|, st') &&
        var rb := Process(c, body, st', fuel - 1);
        rb.outcome.Completed? ==> While(c, p, cond, body, st, fuel) == While(c, p, cond, body, rb.st, fuel - 1)
  {
    var rc := Process(c, cond, st, fuel - 1);
    var n := S.PopNumber(rc.st.stack);
    KeepsWf(|c.text|, rc.st, rc.st.(stack := n.items));
  }

  /** The mode machine of the lambda capture: what one character does to
      the capture, and the lambda it completes if it is the matching `]`. */
  datatype Captured = Captured(mode: Mode, lambda: Option<Slice>)

  function CaptureStep(p: nat, wc: int, start: nat, nested: int, nesting: nat): (r: Captured)
    requires nesting > 0 ==> start <= p
    ensures r.lambda.Some? ==> r.mode == Normal && r.lambda.value == Slice(At(if nesting == 0 then p else start), At(p))
    ensures r.lambda.None? ==> r.mode.Capture? && r.mode.nesting > 0 && r.mode.start <= p
  {
    var start := if nesting == 0 then p else start;
    var nested := if nesting == 0 then 0 else nested;
    var nesting := if nesting == 0 then 1 else nesting;
    if nested == '\'' as int then Captured(Capture(start, 0, nesting), None)
    else if nested != 0 && wc == nested then Captured(Capture(start, 0, nesting), None)
    else if nested != 0 then Captured(Capture(start, nested, nesting), None)
    else if wc == '\'' as int then Captured(Capture(start, wc, nesting), None)
    else if wc == '{' as int then Captured(Capture(start, '}' as int, nesting), None)
    else if wc == '"' as int then Captured(Capture(start, wc, nesting), None)
    else if wc == '[' as int then Captured(Capture(start, 0, nesting + 1), None)
    else if wc == ']' as int then
      if nesting - 1 == 0 then Captured(Normal, Some(Slice(At(start), At(p))))
      else Captured(Capture(start, 0, nesting - 1), None)
    else Captured(Capture(start, nested, nesting), None)
  }

  /** The result of running a lambda, as a step of the caller. */
  function Resume(run: Run): (r: Stepped)
    ensures Proper(r.status) && !r.status.Unhandled? && r.st == run.st
  {
    Stepped(Normal, if run.outcome.Completed? then Handled else Halted(run.outcome), run.st)
  }

  function Stop(kind: ErrorKind, p: nat, st: MState): (r: Stepped)
    ensures Proper(r.status) && !r.status.Unhandled? && r.st == st
  {
    Stepped(Normal, Halted(Fatal(kind, At(p))), st)
  }

  /** `!`, `?` and `#`: pop their operands and run lambdas. */
  function Control(c: Config, p: nat, wc: int, st: MState, fuel: nat): (r: Stepped)
    requires wc == '!' as int || wc == '?' as int || wc == '#' as int
    requires Wf(|c.text|, st)
    ensures Proper(r.status) && !r.status.Unhandled? && r.mode == Normal
    ensures Wf(|c.text|, r.st)
    decreases fuel, 1, 0
  {
    var top := S.PopLambda(st.stack);
    PoppedLambda(|c.text|, st);
    var st1 := st.(stack := top.items);
    if top.result.Err? then Stop(top.result.error, p, st1)
    else if wc == '!' as int then Resume(Call(c, top.result.value, st1, fuel))
    else if wc == '?' as int then
      var n := S.PopNumber(top.items);
      var st2 := st.(stack := n.items);
      KeepsWf(|c.text|, st1, st2);
      if n.result.Err? then Stop(n.result.error, p, st2)
      else if n.result.value != 0 then Resume(Call(c, top.result.value, st2, fuel))
      else Stepped(Normal, Handled, st2)
    else
      var cond := S.PopLambda(top.items);
      PoppedLambda(|c.text|, st1);
      var st2 := st.(stack := cond.items);
      if cond.result.Err? then Stop(cond.result.error, p, st2)
      else Resume(While(c, p, cond.result.value, top.result.value, st2, fuel))
  }

  /** A character in Normal mode that is not a digit: white space is
      skipped, the openers of comments, characters, strings and lambdas
      switch the mode, a stray closer is fatal, `!` `?` `#` run lambdas, and
      anything else goes to dispatch, then (with extensions) to
      dispatch_extended; a character nobody handled is pushed as a variable
      if iswlower holds for it, and is an unknown symbol otherwise. */
  function Operate(c: Config, p: nat, wc: int, st: MState, fuel: nat): (r: Stepped)
    requires Wf(|c.text|, st)
    ensures Proper(r.status) && !r.status.Unhandled?
    ensures Wf(|c.text|, r.st)
    ensures r.status.Handled? ==> WfMode(r.mode, p)
    decreases fuel, 1, 1
  {
    if IsSpace(wc) then Stepped(Normal, Handled, st)
    else if wc == '{' as int then Stepped(InComment, Handled, st)
    else if wc == '\'' as int then Stepped(InChar, Handled, st)
    else if wc == '"' as int then Stepped(InString, Handled, st)
    else if wc == '[' as int then Stepped(Capture(0, 0, 0), Handled, st)
    else if wc == ']' as int || wc == '}' as int then Stop(UnbalancedSymbol, p, st)
    else if wc == '!' as int || wc == '?' as int || wc == '#' as int then Control(c, p, wc, st, fuel)
    else
      var d := Dispatch(p, wc, st);
      KeepsWf(|c.text|, st, d.st);
      var e := if d.status.Unhandled? && c.extensions then DispatchExtended(c, p, d.status.wc, d.st, fuel) else d;
      if e.status.Unhandled? then
        if IsWLower(e.status.wc) then Stepped(Normal, Handled, Push(e.st, Variable(e.status.wc)))
        else Stop(UnknownSymbol, p, e.st)
      else Stepped(Normal, e.status, e.st)
  }

  /** One character in any mode: the body of process's loop after the
      character has been decoded. */
  function Step(c: Config, p: nat, wc: int, mode: Mode, st: MState, fuel: nat): (r: Stepped)
    requires p < |c.text| && IsScalar(wc) && Wf(|c.text|, st) && WfMode(mode, p)
    ensures Proper(r.status) && !r.status.Unhandled?
    ensures Wf(|c.text|, r.st)
    ensures r.status.Handled? ==> WfMode(r.mode, p)
    decreases fuel, 1, 2
  {
    match mode
    case Normal =>
      if IsDigit(wc) then Stepped(InNumber(wc - '0' as int), Handled, st)
      else Operate(c, p, wc, st, fuel)
    case InNumber(n) =>
      if IsDigit(wc) then Stepped(InNumber(Wrap(n * 10 + (wc - '0' as int))), Handled, st)
      else Operate(c, p, wc, Push(st, Number(n)), fuel)
    case InComment =>
      Stepped(if wc == '}' as int then Normal else InComment, Handled, st)
    case InChar =>
      Stepped(Normal, Handled, Push(st, Number(wc)))
    case InString =>
      if wc == '"' as int then Stepped(Normal, Handled, st)
      else Stepped(InString, Handled, st.(output := st.output + [EmitWide(wc)]))
    case Capture(start, nested, nesting) =>
      var k := CaptureStep(p, wc, start, nested, nesting);
      if k.lambda.Some? then Stepped(k.mode, Handled, Push(st, Lambda(k.lambda.value)))
      else Stepped(k.mode, Handled, st)
  }

  /** The end of the slice: a pending number is pushed; any other unfinished
      literal is fatal at the last character. */
  function Finish(mode: Mode, pos: nat, st: MState): (r: Run)
    ensures r.outcome.Completed? <==> mode.Normal? || mode.InNumber?
    ensures mode.Normal? ==> r.st == st
    ensures mode.InNumber? ==> r.st == Push(st, Number(mode.number))
    ensures !r.outcome.Completed? ==> r == Run(Fatal(UnterminatedStatement, At(pos)), st)
  {
    match mode
    case Normal => Run(Completed, st)
    case InNumber(n) => Run(Completed, Push(st, Number(n)))
    case _ => Run(Fatal(UnterminatedStatement, At(pos)), st)
  }

  /** The loop of process from the character at `pos`, `width` bytes long,
      onwards: stop at the end of the slice, otherwise decode the next
      character (a decoding failure, or a NUL, is a bad multi-byte
      character) and step. */
  function Scan(c: Config, end: nat, pos: nat, width: nat, mode: Mode, st: MState, fuel: nat): (r: Run)
    requires pos + width <= end <= |c.text|
    requires Wf(|c.text|, st) && WfMode(mode, pos)
    ensures Wf(|c.text|, r.st)
    decreases fuel, 2, end - pos - width
  {
    if pos + width == end then Finish(mode, pos, st)
    else
      var p := pos + width;
      var d := Decode(c.text, p, end);
      if d.Bad? || d.width == 0 then Run(Fatal(BadMultiByte, At(p)), st)
      else
        var s := Step(c, p, d.wc, mode, st, fuel);
        if s.status.Halted? then Run(s.status.outcome, s.st)
        else Scan(c, end, p, d.width, s.mode, s.st, fuel)
  }

  /** One turn of the scan: a character that decodes and a step that does
      not halt leave the rest of the slice to scan from the new mode and
      state. */
  lemma ScanAdvances(c: Config, end: nat, pos: nat, width: nat, mode: Mode, st: MState, fuel: nat, d: Decoded, s: Stepped)
    requires pos + width < end <= |c.text|
    requires Wf(|c.text|, st) && WfMode(mode, pos)
    requires d == Decode(c.text, pos + width, end) && d.Wide? && d.width > 0
    requires s == Step(c, pos + width, d.wc, mode, st, fuel) && !s.status.Halted?
    ensures Scan(c, end, pos, width, mode, st, fuel) == Scan(c, end, pos + width, d.width, s.mode, s.st, fuel)
  {
  }

  /** process: the slice from its first byte in Normal mode. */
  function Process(c: Config, s: Slice, st: MState, fuel: nat): (r: Run)
    requires Within(s, |c.text|) && Wf(|c.text|, st)
    ensures Wf(|c.text|, r.st)
    decreases fuel, 3, 0
  {
    Scan(c, s.end.offset, s.buf.offset, 0, Normal, st, fuel)
  }

  /** strlen: the number of bytes before the first NUL. */
  function Strlen(s: seq<byte>): (n: nat)
    ensures n <= |s|
    ensures forall i :: 0 <= i < n ==> s[i] != 0
    ensures n < |s| ==> s[n] == 0
  {
    var z := H.Find(s, 0, 0);
    if z.Some? then z.value else |s|
  }

  /** The cells after binding the program arguments from args[i] on to the
      variables from `b` + i on, and whether every argument was numeric. */
  datatype Bound = Bound(cells: seq<Token>, numeric: bool)

  /** The argument loop of interpret: each argument is parsed by strtol,
      converted to int (keeping the low 32 bits) and stored before it is
      checked, and the first one in which strtol finds no number stops the
      loop. */
  function Bind(cells: seq<Token>, args: seq<seq<byte>>, i: nat): (r: Bound)
    requires |cells| == M.CELLS && i <= |args| <= 25
    ensures |r.cells| == M.CELLS
    ensures forall t :: t in r.cells ==> t.Number? || t in cells
    decreases |args| - i
  {
    if i == |args| then Bound(cells, true)
    else
      var p := C.StrToL(args[i]);
      var cells' := M.Set(cells, 'b' as int + i, Number(Wrap(p.value)));
      if p.consumed == 0 then Bound(cells', false) else Bind(cells', args, i + 1)
  }

  /** What interpret returns (1 on a fatal error, 0 otherwise), the fatal
      error reported to the host, and the final state. */
  datatype Exit = Exit(status: int, outcome: Outcome, st: MState)

  function Initial(feed: H.Feed): (st: MState)
    ensures Wf(0, st)
  {
    MState([], M.Cleared(), [], feed)
  }

  /** interpret: argv[0] names the program and is skipped; at most 25
      arguments follow. `a` holds their count and `b`, `c`, ... their
      values. The program is the string up to its NUL, and it must leave the
      stack empty. */
  function Interpret(argv: seq<seq<byte>>, str: seq<byte>, extensions: bool, feed: H.Feed, fuel: nat): (r: Exit)
    ensures r.status == (if r.outcome.Completed? then 0 else 1)
    ensures |argv| == 0 ==> r.outcome == Fatal(TooFewArguments, Null)
    ensures |argv| > 26 ==> r.outcome == Fatal(TooManyArguments, Null)
    ensures r.outcome.Completed? ==> r.st.stack == [] && 1 <= |argv| <= 26
  {
    var st0 := Initial(feed);
    if |argv| == 0 then Exit(1, Fatal(TooFewArguments, Null), st0)
    else if |argv| - 1 > 25 then Exit(1, Fatal(TooManyArguments, Null), st0)
    else
      var args := argv[1..];
      var b := Bind(M.Set(M.Cleared(), 'a' as int, Number(|args|)), args, 0);
      var st1 := st0.(cells := b.cells);
      if !b.numeric then Exit(1, Fatal(NonNumericArgument, Null), st1)
      else
        var n := Strlen(str);
        var run := Process(Config(str[..n], extensions), Make(At(0), n), st1, fuel);
        if !run.outcome.Completed? then Exit(1, run.outcome, run.st)
        else if |run.st.stack| > 0 then Exit(1, Fatal(StackNotEmpty, Null), run.st)
        else Exit(0, Completed, run.st)
  }
}
