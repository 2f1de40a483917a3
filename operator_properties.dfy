/** What the one-operand operators, the input and flush operators, the
    extended depth and assertion operators and the three literal modes of
    the scanner do, stated for every state from the character they are
    given. */
module OperatorProperties {
  import opened MachineInt
  import opened Slices
  import opened Tokens
  import opened Failures
  import opened Locale
  import opened CodePoints
  import opened FalseSpec
  import opened FalseProperties
  import S = StackSpec
  import M = StorageSpec
  import H = Host

  /** The characters process handles itself before dispatching. */
  predicate Structural(wc: int)
  {
    IsSpace(wc)
    || wc in ['{' as int, '\'' as int, '"' as int, '[' as int, ']' as int, '}' as int, '!' as int, '?' as int, '#' as int]
  }

  /** A character that dispatch handles ends its step in Normal mode with
      dispatch's status and state; so does the Normal-mode step of such a
      character that is not a digit. */
  lemma ByDispatch(c: Config, p: nat, wc: int, st: MState, fuel: nat)
    requires Wf(|c.text|, st) && !Structural(wc)
    requires !Dispatch(p, wc, st).status.Unhandled?
    ensures var d := Dispatch(p, wc, st);
      Operate(c, p, wc, st, fuel) == Stepped(Normal, d.status, d.st)
    ensures var d := Dispatch(p, wc, st);
      p < |c.text| && IsScalar(wc) && !IsDigit(wc) ==> Step(c, p, wc, Normal, st, fuel) == Stepped(Normal, d.status, d.st)
  {
  }

  /** A character that dispatch leaves and the extended table (other than
      `¿`) handles ends its step in Normal mode with the table's status
      and state, when extensions are enabled. */
  lemma ByExtendedTable(c: Config, p: nat, wc: int, st: MState, fuel: nat)
    requires Wf(|c.text|, st) && !Structural(wc) && c.extensions && wc != INVERTED_QUESTION_MARK
    requires Dispatch(p, wc, st).status.Unhandled?
    requires !ExtendedTable(p, wc, st).status.Unhandled?
    ensures var e := ExtendedTable(p, wc, st);
      Operate(c, p, wc, st, fuel) == Stepped(Normal, e.status, e.st)
  {
  }

  /** `_` replaces the number on top by its negation in 32 bits: every
      number but INT_MIN is negated exactly, and INT_MIN is its own
      negation. */
  lemma NegateOperator(p: nat, st: MState, x: Int32)
    requires |st.cells| == M.CELLS
    ensures var y := Wrap(-(x as int));
      && Dispatch(p, '_' as int, Push(st, Number(x))) == Reply(Handled, Push(st, Number(y)))
      && y == if x == INT_MIN then INT_MIN else -(x as int)
  {
    assert S.PopNumber(Push(st, Number(x)).stack).items == st.stack;
  }

  /** `~` replaces the number on top by its bitwise complement, -x - 1. */
  lemma ComplementOperator(p: nat, st: MState, x: Int32)
    requires |st.cells| == M.CELLS
    ensures Dispatch(p, '~' as int, Push(st, Number(x))) == Reply(Handled, Push(st, Number(BitNot(x))))
    ensures BitNot(x) == -(x as int) - 1
  {
  }

  /** `.` pops a number and asks the host to print it. */
  lemma PrintNumberOperator(p: nat, st: MState, x: Int32)
    requires |st.cells| == M.CELLS
    ensures Dispatch(p, '.' as int, Push(st, Number(x))) ==
              Reply(Handled, st.(output := st.output + [EmitNumber(x)]))
  {
  }

  /** `,` pops a number and asks the host to print the character whose
      code is its low eight bits. */
  lemma PrintCharOperator(p: nat, st: MState, x: Int32)
    requires |st.cells| == M.CELLS
    ensures var b := x % 256;
      && Dispatch(p, ',' as int, Push(st, Number(x))) ==
           Reply(Handled, st.(output := st.output + [EmitChar(b)]))
      && 0 <= b < 256 && (x - b) % 256 == 0
      && (0 <= x < 256 ==> b == x)
  {
  }

  /** Each one-operand operator fails on an empty stack with an underflow
      and on a top that is not a number with a type mismatch, the token
      popped in the second case. */
  lemma OneOperandNeedsNumber(p: nat, wc: int, st: MState)
    requires |st.cells| == M.CELLS && IsUnary(wc)
    requires |st.stack| == 0 || !st.stack[|st.stack| - 1].Number?
    ensures |st.stack| == 0 ==> Dispatch(p, wc, st) == Reply(Halted(Fatal(StackUnderflow, At(p))), st)
    ensures |st.stack| > 0 ==>
              Dispatch(p, wc, st) ==
              Reply(Halted(Fatal(StackTypeMismatch, At(p))), st.(stack := st.stack[..|st.stack| - 1]))
  {
  }

  /** `:` pops a variable and the token beneath it and stores the token in
      the variable's cell. */
  lemma StoreOperator(p: nat, st: MState, t: Token, v: int)
    requires |st.cells| == M.CELLS && IsLower(v)
    ensures Dispatch(p, ':' as int, Push(Push(st, t), Variable(v))) ==
              Reply(Handled, st.(cells := M.Set(st.cells, v, t)))
  {
  }

  /** `;` replaces the variable on top by the token in its cell. */
  lemma FetchOperator(p: nat, st: MState, v: int)
    requires |st.cells| == M.CELLS
    ensures Dispatch(p, ';' as int, Push(st, Variable(v))) == Reply(Handled, Push(st, M.Get(st.cells, v)))
  {
  }

  /** `^` pushes the next input value: the next byte of the `--input`
      string (as a signed char), one newline at its end after which the
      string is forgotten, then the next byte of standard input, then EOF
      (-1) for good. */
  lemma ReadOperator(p: nat, st: MState)
    requires |st.cells| == M.CELLS
    ensures var g := H.Read(st.feed);
      Dispatch(p, '^' as int, st) == Reply(Handled, Push(st.(feed := g.rest), Number(g.value)))
    ensures var f := st.feed;
      f.buffered.Some? && |f.buffered.value| > 0 && f.buffered.value[0] != 0 ==>
        Dispatch(p, '^' as int, st) ==
        Reply(Handled, Push(st.(feed := f.(buffered := Some(f.buffered.value[1..]))),
                            Number(H.SignedChar(f.buffered.value[0]))))
    ensures var f := st.feed;
      f.buffered.Some? && (|f.buffered.value| == 0 || f.buffered.value[0] == 0) ==>
        Dispatch(p, '^' as int, st) ==
        Reply(Handled, Push(st.(feed := f.(buffered := None)), Number(H.NEWLINE)))
    ensures var f := st.feed;
      f.buffered.None? && |f.stdin| > 0 ==>
        Dispatch(p, '^' as int, st) ==
        Reply(Handled, Push(st.(feed := f.(stdin := f.stdin[1..])), Number(f.stdin[0])))
    ensures st.feed.buffered.None? && |st.feed.stdin| == 0 ==>
              Dispatch(p, '^' as int, st) == Reply(Handled, Push(st, Number(-1)))
  {
  }

  /** `ß` and `B` forget what is left of the `--input` string and change
      nothing else. */
  lemma FlushOperator(p: nat, wc: int, st: MState)
    requires |st.cells| == M.CELLS && (wc == LATIN_SMALL_LETTER_SHARP_S || wc == 'B' as int)
    ensures Dispatch(p, wc, st) == Reply(Handled, st.(feed := H.Feed(None, st.feed.stdin)))
  {
    assert H.Flushed(st.feed) == H.Feed(None, st.feed.stdin);
    assert !IsShuffle(wc) && !IsBaseBinary(wc) && !IsUnary(wc);
  }

  /** `§` of the extended table pushes the depth of the stack, wrapped to
      32 bits. */
  lemma DepthOperator(p: nat, st: MState)
    ensures ExtendedTable(p, SECTION_SIGN, st) == Reply(Handled, Push(st, Number(Wrap(|st.stack|))))
    ensures |st.stack| <= INT_MAX ==>
              ExtendedTable(p, SECTION_SIGN, st) == Reply(Handled, Push(st, Number(|st.stack|)))
  {
  }

  /** `∫` of the extended table pops a number and fails with an assertion
      failure exactly when it is 0. */
  lemma AssertOperator(p: nat, st: MState, x: Int32)
    ensures var r := ExtendedTable(p, INTEGRAL, Push(st, Number(x)));
      && r.st == st
      && (r.status == Halted(Fatal(AssertionFailed, At(p))) <==> x == 0)
      && (r.status == Handled <==> x != 0)
  {
  }

  /** `∫` fails on an empty stack with an underflow and on a top that is
      not a number with a type mismatch. */
  lemma AssertNeedsNumber(p: nat, st: MState)
    requires |st.stack| == 0 || !st.stack[|st.stack| - 1].Number?
    ensures |st.stack| == 0 ==>
              ExtendedTable(p, INTEGRAL, st) == Reply(Halted(Fatal(StackUnderflow, At(p))), st)
    ensures |st.stack| > 0 ==>
              ExtendedTable(p, INTEGRAL, st) ==
              Reply(Halted(Fatal(StackTypeMismatch, At(p))), st.(stack := st.stack[..|st.stack| - 1]))
  {
  }

  /** A quote and the character after it, whatever its width, push that
      character's code point; the scan goes on after it in Normal mode. */
  lemma CharLiteral(c: Config, end: nat, pos: nat, width: nat, st: MState, fuel: nat)
    requires pos + width + 1 < end <= |c.text| && c.text[pos + width] == '\'' as int
    requires Wf(|c.text|, st)
    ensures var q := pos + width + 1;
      var d := Decode(c.text, q, end);
      d.Wide? && d.width > 0 ==>
        Scan(c, end, pos, width, Normal, st, fuel) == Scan(c, end, q, d.width, Normal, Push(st, Number(d.wc)), fuel)
  {
    var q := pos + width + 1;
    ScanAdvances(c, end, pos, width, Normal, st, fuel, Decode(c.text, q - 1, end), Stepped(InChar, Handled, st));
    var d := Decode(c.text, q, end);
    if d.Wide? && d.width > 0 {
      ScanAdvances(c, end, q - 1, 1, InChar, st, fuel, d, Stepped(Normal, Handled, Push(st, Number(d.wc))));
    }
  }

  /** Inside a string, a character other than `"` is printed as a wide
      character and the string goes on; `"` ends it and prints nothing. */
  lemma StringCharacter(c: Config, end: nat, pos: nat, width: nat, st: MState, fuel: nat)
    requires pos + width < end <= |c.text| && Wf(|c.text|, st)
    ensures var d := Decode(c.text, pos + width, end);
      d.Wide? && d.width > 0 ==>
        Scan(c, end, pos, width, InString, st, fuel) ==
        if d.wc == '"' as int then Scan(c, end, pos + width, d.width, Normal, st, fuel)
        else Scan(c, end, pos + width, d.width, InString, st.(output := st.output + [EmitWide(d.wc)]), fuel)
  {
  }

  /** Inside a comment every character is skipped without touching the
      state, and the first `}` ends the comment. */
  lemma CommentCharacter(c: Config, end: nat, pos: nat, width: nat, st: MState, fuel: nat)
    requires pos + width < end <= |c.text| && Wf(|c.text|, st)
    ensures var d := Decode(c.text, pos + width, end);
      d.Wide? && d.width > 0 ==>
        Scan(c, end, pos, width, InComment, st, fuel) ==
        Scan(c, end, pos + width, d.width, if d.wc == '}' as int then Normal else InComment, st, fuel)
  {
  }
}
