/** Properties of the interpreter that relate several steps or state what
    an operator means: how literals and lambdas are scanned, which symbols
    are variables and which are errors, the control operators, and the
    binding of the program arguments. */
module FalseProperties {
  import opened MachineInt
  import opened Slices
  import opened Tokens
  import opened Failures
  import opened Locale
  import opened CodePoints
  import opened FalseSpec
  import S = StackSpec
  import M = StorageSpec
  import H = Host
  import C = CLib

  /** The characters either dispatch table handles. */
  predicate InDispatch(wc: int)
  {
    wc == '`' as int || IsShuffle(wc) || wc == '=' as int || IsBaseBinary(wc) || IsUnary(wc)
    || wc == '^' as int || wc == LATIN_SMALL_LETTER_SHARP_S || wc == 'B' as int
    || wc == ':' as int || wc == ';' as int
  }

  predicate InExtended(wc: int)
  {
    wc in [POUND_SIGN, PER_MILLE_SIGN, EURO_SIGN, LATIN_CAPITAL_LETTER_O_WITH_STROKE, SECTION_SIGN,
           NOT_EQUAL_TO, INTEGRAL, INVERTED_QUESTION_MARK]
    || IsExtendedBinary(wc)
  }

  /** A character no table knows goes back unhandled from both. */
  lemma Unknown(c: Config, p: nat, wc: int, st: MState, fuel: nat)
    requires Wf(|c.text|, st) && !InDispatch(wc) && !InExtended(wc)
    ensures Dispatch(p, wc, st) == Reply(Unhandled(wc), st)
    ensures DispatchExtended(c, p, wc, st, fuel) == Reply(Unhandled(wc), st)
  {
  }

  /** A lower-case letter in the sense of iswlower that is not an operator
      is pushed as a variable, whether or not extensions are enabled. */
  lemma LetterIsVariable(c: Config, p: nat, wc: int, st: MState, fuel: nat)
    requires Wf(|c.text|, st) && IsWLower(wc)
    requires wc != LATIN_SMALL_LETTER_SHARP_S && wc != LATIN_SMALL_LETTER_O_WITH_STROKE
    ensures Operate(c, p, wc, st, fuel) == Stepped(Normal, Handled, Push(st, Variable(wc)))
  {
    Unknown(c, p, wc, st, fuel);
  }

  /** Any other character that is neither white space, nor an opener, a
      closer or a control operator, nor in a table in use, is an unknown
      symbol. In particular the extended operators are unknown symbols when
      extensions are off. */
  lemma UnknownSymbolIsFatal(c: Config, p: nat, wc: int, st: MState, fuel: nat)
    requires Wf(|c.text|, st) && !IsSpace(wc) && !IsWLower(wc)
    requires wc !in ['{' as int, '\'' as int, '"' as int, '[' as int, ']' as int, '}' as int,
                     '!' as int, '?' as int, '#' as int]
    requires !InDispatch(wc) && (c.extensions ==> !InExtended(wc))
    ensures Operate(c, p, wc, st, fuel) == Stepped(Normal, Halted(Fatal(UnknownSymbol, At(p))), st)
  {
    assert Dispatch(p, wc, st) == Reply(Unhandled(wc), st);
    if c.extensions {
      Unknown(c, p, wc, st, fuel);
    }
  }

  /** Code injection with a backquote is always refused. */
  lemma InjectionIsFatal(c: Config, p: nat, st: MState, fuel: nat)
    requires Wf(|c.text|, st)
    ensures Operate(c, p, '`' as int, st, fuel) == Stepped(Normal, Halted(Fatal(UnsupportedInjection, At(p))), st)
  {
  }

  /** The scan after the step at p, on a character w bytes long, has
      produced s: stop on a halt, otherwise go on after that character. */
  function After(c: Config, end: nat, p: nat, w: nat, s: Stepped, fuel: nat): Run
    requires p + w <= end <= |c.text| && Wf(|c.text|, s.st)
    requires !s.status.Halted? ==> WfMode(s.mode, p)
  {
    if s.status.Halted? then Run(s.status.outcome, s.st) else Scan(c, end, p, w, s.mode, s.st, fuel)
  }

  /** An ASCII character other than NUL decodes to itself, one byte long,
      and is stepped. */
  lemma ScanAscii(c: Config, end: nat, pos: nat, width: nat, mode: Mode, st: MState, fuel: nat)
    requires pos + width < end <= |c.text|
    requires 0 < c.text[pos + width] < 0x80
    requires Wf(|c.text|, st) && WfMode(mode, pos)
    ensures var p := pos + width;
      Scan(c, end, pos, width, mode, st, fuel) == After(c, end, p, 1, Step(c, p, c.text[p], mode, st, fuel), fuel)
  {
  }

  /** A byte sequence that is not UTF-8, or a NUL, is fatal where it
      starts, whatever the mode. */
  lemma BadCharacterIsFatal(c: Config, end: nat, pos: nat, width: nat, mode: Mode, st: MState, fuel: nat)
    requires pos + width < end <= |c.text|
    requires Decode(c.text, pos + width, end).Bad? || c.text[pos + width] == 0
    requires Wf(|c.text|, st) && WfMode(mode, pos)
    ensures Scan(c, end, pos, width, mode, st, fuel) == Run(Fatal(BadMultiByte, At(pos + width)), st)
  {
  }

  /** A closing bracket or brace outside any literal is fatal. */
  lemma BareCloserIsFatal(c: Config, end: nat, pos: nat, width: nat, st: MState, fuel: nat)
    requires pos + width < end <= |c.text|
    requires c.text[pos + width] == ']' as int || c.text[pos + width] == '}' as int
    requires Wf(|c.text|, st)
    ensures Scan(c, end, pos, width, Normal, st, fuel) == Run(Fatal(UnbalancedSymbol, At(pos + width)), st)
  {
    ScanAscii(c, end, pos, width, Normal, st, fuel);
  }

  /** The slice ending inside a comment, a character literal, a string or
      a lambda is fatal at its last character; ending in a number pushes
      the number. */
  lemma EndOfSlice(c: Config, end: nat, pos: nat, width: nat, mode: Mode, st: MState, fuel: nat)
    requires pos + width == end <= |c.text|
    requires Wf(|c.text|, st) && WfMode(mode, pos)
    ensures !(mode.Normal? || mode.InNumber?) ==>
              Scan(c, end, pos, width, mode, st, fuel) == Run(Fatal(UnterminatedStatement, At(pos)), st)
    ensures mode.InNumber? ==> Scan(c, end, pos, width, mode, st, fuel) == Run(Completed, Push(st, Number(mode.number)))
    ensures mode.Normal? ==> Scan(c, end, pos, width, mode, st, fuel) == Run(Completed, st)
  {
  }

  /** The number a run of decimal digits folds to, starting from n: each
      digit multiplies by ten and adds, in the 32-bit int of process. */
  function Fold(n: Int32, ds: seq<byte>): Int32
    requires forall i :: 0 <= i < |ds| ==> IsDigit(ds[i])
  {
    if |ds| == 0 then n else AppendDigit(Fold(n, ds[..|ds| - 1]), ds[|ds| - 1])
  }

  /** One more decimal digit d after the number n. */
  function AppendDigit(n: Int32, d: int): Int32
  {
    Wrap(n * 10 + (d - '0' as int))
  }

  /** Two numbers that agree modulo 2^32 wrap to the same int. */
  lemma WrapCongruent(x: int, y: int)
    requires (x - y) % TWO_32 == 0
    ensures Wrap(x) == Wrap(y)
  {
    assert x % TWO_32 == y % TWO_32 by {
      var k := (x - y) / TWO_32;
      assert x == y + k * TWO_32;
    }
  }

  /** From 0, the fold is the decimal value of the digits (the value strtol
      gives them) reduced to 32 bits. */
  lemma {:induction false} FoldIsDecimal(ds: seq<byte>)
    requires forall i :: 0 <= i < |ds| ==> IsDigit(ds[i])
    ensures Fold(0, ds) == Wrap(C.Accumulate(ds, 10))
  {
    if |ds| > 0 {
      var init := ds[..|ds| - 1];
      FoldIsDecimal(init);
      var a := C.Accumulate(init, 10);
      assert C.Accumulate(ds, 10) == a * 10 + (ds[|ds| - 1] - '0' as int);
      AppendDigitWraps(a, ds[|ds| - 1]);
    }
  }

  /** Appending a digit commutes with the reduction to 32 bits. */
  lemma AppendDigitWraps(a: int, d: int)
    ensures AppendDigit(Wrap(a), d) == Wrap(a * 10 + (d - '0' as int))
  {
    var e := d - '0' as int;
    var k := (Wrap(a) - a) / TWO_32;
    assert Wrap(a) - a == k * TWO_32;
    assert Wrap(a) * 10 + e - (a * 10 + e) == (10 * k) * TWO_32;
    WrapCongruent(Wrap(a) * 10 + e, a * 10 + e);
  }

  /** A digit in Normal mode starts a number, in a number it extends it. */
  lemma StepDigit(c: Config, p: nat, wc: int, mode: Mode, n: Int32, st: MState, fuel: nat)
    requires p < |c.text| && IsDigit(wc) && Wf(|c.text|, st)
    requires (mode == Normal && n == 0) || mode == InNumber(n)
    ensures Step(c, p, wc, mode, st, fuel) == Stepped(InNumber(AppendDigit(n, wc)), Handled, st)
  {
  }

  /** So the scan over a digit stays in the number. */
  lemma ScanDigit(c: Config, end: nat, pos: nat, width: nat, mode: Mode, n: Int32, st: MState, fuel: nat)
    requires pos + width < end <= |c.text| && IsDigit(c.text[pos + width]) && Wf(|c.text|, st)
    requires (mode == Normal && n == 0) || mode == InNumber(n)
    ensures Scan(c, end, pos, width, mode, st, fuel) ==
              Scan(c, end, pos + width, 1, InNumber(AppendDigit(n, c.text[pos + width])), st, fuel)
  {
    ScanAscii(c, end, pos, width, mode, st, fuel);
    StepDigit(c, pos + width, c.text[pos + width], mode, n, st, fuel);
  }

  /** A character that is not a digit ends the number: scanning it with
      the number pending is scanning it in Normal mode with the number
      pushed. */
  lemma NumberEnds(c: Config, end: nat, pos: nat, width: nat, n: Int32, st: MState, fuel: nat)
    requires pos + width < end <= |c.text| && Wf(|c.text|, st)
    ensures Wf(|c.text|, Push(st, Number(n)))
    ensures var d := Decode(c.text, pos + width, end);
      d.Wide? && d.width > 0 && !IsDigit(d.wc) ==>
        Scan(c, end, pos, width, InNumber(n), st, fuel) == Scan(c, end, pos, width, Normal, Push(st, Number(n)), fuel)
  {
  }

  /** Any function of a position and a number that moves one digit forward
      per step, folding that digit into the number, moves over a whole run
      of digits to its fold. */
  lemma {:induction false} ChainDigits(f: (nat, Int32) -> Run, text: seq<byte>, q: nat, n: Int32, r: nat)
    requires q < r <= |text| && forall k :: q < k < r ==> IsDigit(text[k])
    requires forall p: nat, m: Int32 :: q <= p && p + 1 < r ==> f(p, m) == f(p + 1, AppendDigit(m, text[p + 1]))
    ensures f(q, n) == f(r - 1, Fold(n, text[q + 1..r]))
    decreases r
  {
    if r == q + 1 {
      assert text[q + 1..r] == [];
    } else {
      ChainDigits(f, text, q, n, r - 1);
      FoldSnoc(n, text, q + 1, r);
    }
  }

  /** Inside a number, the run of digits after the character at q, up to r
      (exclusive), extends the number digit by digit: the scan is then
      still in the number, after the last digit. */
  lemma DigitRun(c: Config, end: nat, q: nat, n: Int32, st: MState, fuel: nat, r: nat)
    requires q < r <= end <= |c.text|
    requires forall k :: q < k < r ==> IsDigit(c.text[k])
    requires Wf(|c.text|, st)
    ensures Scan(c, end, q, 1, InNumber(n), st, fuel) ==
              Scan(c, end, r - 1, 1, InNumber(Fold(n, c.text[q + 1..r])), st, fuel)
  {
    var f := InNumberFrom(c, end, st, fuel);
    DigitSteps(c, end, st, fuel, q, r);
    ChainDigits(f, c.text, q, n, r);
  }

  /** The scan inside a number, as a function of the position and the
      number so far. */
  function InNumberFrom(c: Config, end: nat, st: MState, fuel: nat): (nat, Int32) -> Run
  {
    (p: nat, m: Int32) =>
      if p + 1 <= end <= |c.text| && Wf(|c.text|, st) then Scan(c, end, p, 1, InNumber(m), st, fuel)
      else Run(Completed, st)
  }

  /** Each digit of the run moves the scan inside a number one step on. */
  lemma DigitSteps(c: Config, end: nat, st: MState, fuel: nat, q: nat, r: nat)
    requires q < r <= end <= |c.text|
    requires forall k :: q < k < r ==> IsDigit(c.text[k])
    requires Wf(|c.text|, st)
    ensures forall p: nat, m: Int32 :: q <= p && p + 1 < r ==>
              InNumberFrom(c, end, st, fuel)(p, m) == InNumberFrom(c, end, st, fuel)(p + 1, AppendDigit(m, c.text[p + 1]))
  {
    var f := InNumberFrom(c, end, st, fuel);
    forall p: nat, m: Int32 | q <= p && p + 1 < r
      ensures f(p, m) == f(p + 1, AppendDigit(m, c.text[p + 1]))
    {
      ScanDigit(c, end, p, 1, InNumber(m), m, st, fuel);
    }
  }

  lemma FoldSnoc(n: Int32, text: seq<byte>, a: nat, r: nat)
    requires a < r <= |text|
    requires forall k :: a <= k < r ==> IsDigit(text[k])
    ensures Fold(n, text[a..r]) == AppendDigit(Fold(n, text[a..r - 1]), text[r - 1])
  {
    assert text[a..r][..r - 1 - a] == text[a..r - 1];
  }

  /** Folding a first digit and then the rest is folding them all. */
  lemma {:induction false} FoldCons(n: Int32, ds: seq<byte>)
    requires |ds| > 0 && forall i :: 0 <= i < |ds| ==> IsDigit(ds[i])
    ensures Fold(n, ds) == Fold(AppendDigit(n, ds[0]), ds[1..])
    decreases |ds|
  {
    if |ds| == 1 {
      assert ds[..0] == [] && ds[1..] == [];
    } else {
      var init, rest := ds[..|ds| - 1], ds[1..];
      FoldCons(n, init);
      assert init[1..] == rest[..|rest| - 1];
      assert rest[|rest| - 1] == ds[|ds| - 1];
    }
  }

  /** A run of digits from the character after pos + width up to r
      (exclusive), met in Normal mode, is read as one number. */
  lemma DigitsFrom(c: Config, end: nat, pos: nat, width: nat, st: MState, fuel: nat, r: nat)
    requires pos + width < r <= end <= |c.text|
    requires forall k :: pos + width <= k < r ==> IsDigit(c.text[k])
    requires Wf(|c.text|, st)
    ensures Scan(c, end, pos, width, Normal, st, fuel) ==
              Scan(c, end, r - 1, 1, InNumber(Fold(0, c.text[pos + width..r])), st, fuel)
  {
    var a := pos + width;
    var v := AppendDigit(0, c.text[a]);
    ScanDigit(c, end, pos, width, Normal, 0, st, fuel);
    DigitRun(c, end, a, v, st, fuel, r);
    FoldCons(0, c.text[a..r]);
    assert c.text[a..r][1..] == c.text[a + 1..r];
  }

  /** A slice of digits alone pushes their decimal value as one number. */
  lemma DigitsAlone(c: Config, s: Slice, st: MState, fuel: nat)
    requires Within(s, |c.text|) && s.buf.offset < s.end.offset && Wf(|c.text|, st)
    requires forall k :: s.buf.offset <= k < s.end.offset ==> IsDigit(c.text[k])
    ensures Process(c, s, st, fuel) ==
              Run(Completed, Push(st, Number(Wrap(C.Accumulate(c.text[s.buf.offset..s.end.offset], 10)))))
  {
    var a, e := s.buf.offset, s.end.offset;
    DigitsFrom(c, e, a, 0, st, fuel, e);
    FoldIsDecimal(c.text[a..e]);
  }

  /** The first character that is not a digit, of whatever width, ends
      the number: the number is pushed and that character is then processed
      as in Normal mode, not skipped. */
  lemma DigitsThenOther(c: Config, end: nat, pos: nat, width: nat, st: MState, fuel: nat, r: nat)
    requires pos + width < r < end <= |c.text|
    requires forall k :: pos + width <= k < r ==> IsDigit(c.text[k])
    requires Wf(|c.text|, st)
    ensures var d := Decode(c.text, r, end);
      var v := Number(Fold(0, c.text[pos + width..r]));
      d.Wide? && d.width > 0 && !IsDigit(d.wc) ==>
        Scan(c, end, pos, width, Normal, st, fuel) == After(c, end, r, d.width, Operate(c, r, d.wc, Push(st, v), fuel), fuel)
  {
    DigitsFrom(c, end, pos, width, st, fuel, r);
    NumberEnds(c, end, r - 1, 1, Fold(0, c.text[pos + width..r]), st, fuel);
  }

  /** What a capture step does to the nesting depth. Once the lambda has
      started, a character inside a nested character literal, string or
      comment never changes the depth nor ends the lambda; outside them `[`
      deepens it, `]` closes one level (the last one ends the lambda), and
      every other character leaves it alone. */
  lemma CaptureNesting(p: nat, wc: int, start: nat, nested: int, nesting: nat)
    requires 0 < nesting && start <= p
    ensures var r := CaptureStep(p, wc, start, nested, nesting);
      && (r.lambda.None? ==> r.mode.start == start)
      && (nested != 0 ==> r.lambda.None? && r.mode.nesting == nesting)
      && (nested == 0 && wc == '[' as int ==> r.lambda.None? && r.mode.nesting == nesting + 1)
      && (nested == 0 && wc == ']' as int ==>
            if nesting == 1 then r.lambda == Some(Slice(At(start), At(p)))
            else r.lambda.None? && r.mode.nesting == nesting - 1)
      && (nested == 0 && wc != '[' as int && wc != ']' as int ==> r.lambda.None? && r.mode.nesting == nesting)
  {
  }

  /** A nested literal is entered by `'`, `{` or `"` and left by the
      character after the `'`, by `}` or by `"`. */
  lemma CaptureQuoting(p: nat, wc: int, start: nat, nested: int, nesting: nat)
    requires 0 < nesting && start <= p
    ensures var r := CaptureStep(p, wc, start, nested, nesting);
      && (nested == 0 && wc == '\'' as int ==> r.mode.nested == '\'' as int)
      && (nested == 0 && wc == '{' as int ==> r.mode.nested == '}' as int)
      && (nested == 0 && wc == '"' as int ==> r.mode.nested == '"' as int)
      && (nested == '\'' as int ==> r.mode.nested == 0)
      && (nested != 0 && nested != '\'' as int ==> r.mode.nested == (if wc == nested then 0 else nested))
  {
  }

  /** Text that cannot open or close anything inside a lambda. */
  predicate Plain(b: byte)
  {
    0 < b < 0x80 && b !in ['[' as int, ']' as int, '\'' as int, '"' as int, '{' as int]
  }

  /** The scan over a plain character inside a lambda (or the first one)
      only moves on. */
  lemma ScanPlainCaptured(c: Config, end: nat, pos: nat, width: nat, start: nat, nesting: nat, st: MState, fuel: nat)
    requires pos + width < end <= |c.text| && Plain(c.text[pos + width]) && Wf(|c.text|, st)
    requires nesting <= 1 && (nesting == 1 ==> start <= pos)
    ensures var p := pos + width;
      Scan(c, end, pos, width, Capture(start, 0, nesting), st, fuel) ==
        Scan(c, end, p, 1, Capture(if nesting == 0 then p else start, 0, 1), st, fuel)
  {
    ScanAscii(c, end, pos, width, Capture(start, 0, nesting), st, fuel);
  }

  /** The `]` that closes the outermost level pushes the lambda. */
  lemma ScanClosing(c: Config, end: nat, pos: nat, width: nat, start: nat, nesting: nat, st: MState, fuel: nat)
    requires pos + width < end <= |c.text| && c.text[pos + width] == ']' as int && Wf(|c.text|, st)
    requires nesting <= 1 && (nesting == 1 ==> start <= pos)
    ensures var p := pos + width;
      Scan(c, end, pos, width, Capture(start, 0, nesting), st, fuel) ==
        Scan(c, end, p, 1, Normal, Push(st, Lambda(Slice(At(if nesting == 0 then p else start), At(p)))), fuel)
  {
    ScanAscii(c, end, pos, width, Capture(start, 0, nesting), st, fuel);
  }

  /** Inside a lambda, plain text up to q is passed over and the `]` at q
      closes it: the lambda spans from start to just before that `]`. */
  lemma {:induction false} CaptureRun(c: Config, end: nat, k: nat, start: nat, st: MState, fuel: nat, q: nat)
    requires start <= k < q < end <= |c.text| && Wf(|c.text|, st)
    requires forall i :: k < i < q ==> Plain(c.text[i])
    requires c.text[q] == ']' as int
    ensures Scan(c, end, k, 1, Capture(start, 0, 1), st, fuel) ==
              Scan(c, end, q, 1, Normal, Push(st, Lambda(Slice(At(start), At(q)))), fuel)
    decreases q - k
  {
    if k + 1 == q {
      ScanClosing(c, end, k, 1, start, 1, st, fuel);
    } else {
      ScanPlainCaptured(c, end, k, 1, start, 1, st, fuel);
      CaptureRun(c, end, k + 1, start, st, fuel, q);
    }
  }

  /** `[`, plain text, `]`: the lambda pushed starts just after the `[`
      and ends just before the `]`, and the scan goes on after it in Normal
      mode. */
  lemma PlainLambda(c: Config, end: nat, pos: nat, width: nat, st: MState, fuel: nat, q: nat)
    requires pos + width < q < end <= |c.text| && Wf(|c.text|, st)
    requires c.text[pos + width] == '[' as int && c.text[q] == ']' as int
    requires forall i :: pos + width < i < q ==> Plain(c.text[i])
    ensures Scan(c, end, pos, width, Normal, st, fuel) ==
              Scan(c, end, q, 1, Normal, Push(st, Lambda(Slice(At(pos + width + 1), At(q)))), fuel)
  {
    var o := pos + width;
    ScanAscii(c, end, pos, width, Normal, st, fuel);
    assert Scan(c, end, pos, width, Normal, st, fuel) == Scan(c, end, o, 1, Capture(0, 0, 0), st, fuel);
    if o + 1 == q {
      ScanClosing(c, end, o, 1, 0, 0, st, fuel);
    } else {
      ScanPlainCaptured(c, end, o, 1, 0, 0, st, fuel);
      CaptureRun(c, end, o + 1, o + 1, st, fuel, q);
    }
  }

  /** `≠` is `=` followed by `~`: the same failures, and otherwise the
      complementary truth value. */
  lemma NotEqualIsComplement(p: nat, st: MState)
    ensures var e := Equal(p, st, false);
      var n := Equal(p, st, true);
      && n.status == e.status
      && (e.status.Handled? ==> n.st == Unary(p, '~' as int, e.st).st)
  {
    var e := Compare(st.stack);
    if e.result.Ok? {
      var b := e.result.value;
      var s0 := st.(stack := e.items);
      var pushed := Push(s0, Number(Truth(b)));
      assert Equal(p, st, false) == Reply(Handled, pushed);
      assert Equal(p, st, true) == Reply(Handled, Push(s0, Number(Truth(!b))));
      assert pushed.stack[..|pushed.stack| - 1] == s0.stack;
      assert S.PopNumber(pushed.stack) == S.Effect(Ok(Truth(b)), s0.stack);
      assert BitNot(Truth(b)) == Truth(!b);
    }
  }

  /** The extended table sends `≠` to the negated comparison. */
  lemma NotEqualDispatch(p: nat, st: MState)
    ensures ExtendedTable(p, NOT_EQUAL_TO, st) == Equal(p, st, true)
  {
  }

  /** `=` and `≠` always push -1 or 0, and `=` pushes -1 exactly for two
      equal numbers or the same variable. */
  lemma EqualPushesTruth(p: nat, st: MState, negate: bool)
    ensures var r := Equal(p, st, negate);
      var s := st.stack;
      r.status.Handled? ==>
        && |s| >= 2
        && r.st.stack[..|s| - 2] == s[..|s| - 2]
        && |r.st.stack| == |s| - 1
        && (r.st.stack[|s| - 2] == Number(-1) || r.st.stack[|s| - 2] == Number(0))
        && (r.st.stack[|s| - 2] == Number(-1) <==> (!s[|s| - 1].Lambda? && s[|s| - 2] == s[|s| - 1]) != negate)
  {
  }

  /** `:` then `;` through the same letter gives back what was stored. */
  lemma StoreThenFetch(p: nat, q: nat, st: MState, t: Token, v: int)
    requires |st.cells| == M.CELLS && IsLower(v)
    ensures var stored := Store(p, Push(Push(st, t), Variable(v)));
      && stored == Reply(Handled, st.(cells := M.Set(st.cells, v, t)))
      && Fetch(q, Push(stored.st, Variable(v))) == Reply(Handled, Push(stored.st, t))
  {
    var s1 := Push(Push(st, t), Variable(v));
    assert S.PopVariable(s1.stack).items == st.stack + [t];
    M.GetAfterSet(st.cells, v, t, v);
  }

  /** A variable that iswlower accepts but islower does not (a letter
      beyond ASCII) has no cell: storing through it changes nothing and
      fetching it gives 0. */
  lemma NonAsciiVariableHasNoCell(p: nat, q: nat, st: MState, t: Token, v: int)
    requires |st.cells| == M.CELLS && IsWLower(v) && !IsLower(v)
    ensures var stored := Store(p, Push(Push(st, t), Variable(v)));
      && stored == Reply(Handled, st)
      && Fetch(q, Push(stored.st, Variable(v))) == Reply(Handled, Push(st, Number(0)))
  {
    var s1 := Push(Push(st, t), Variable(v));
    assert S.PopVariable(s1.stack).items == st.stack + [t];
  }

  /** A binary operator that succeeds replaces its two operands x y by
      its results, leaving the rest of the stack as it was; a one-result
      operator leaves exactly one number where x and y were. */
  lemma BinaryPushesResult(p: nat, wc: int, st: MState, x: Int32, y: Int32)
    requires (IsBaseBinary(wc) || IsExtendedBinary(wc)) && BinaryOp(wc, x, y).Ok?
    ensures var v := BinaryOp(wc, x, y).value;
      Binary(p, wc, Push(Push(st, Number(x)), Number(y))) == Reply(Handled, st.(stack := st.stack + Numbers(v)))
    ensures var v := BinaryOp(wc, x, y).value;
      wc != DIVISION_SIGN ==>
        Binary(p, wc, Push(Push(st, Number(x)), Number(y))).st.stack == st.stack + [Number(v[0])]
  {
    var s := Push(Push(st, Number(x)), Number(y)).stack;
    assert S.PopNumber(s).items == st.stack + [Number(x)];
    assert S.PopNumber(st.stack + [Number(x)]).items == st.stack;
  }

  /** A binary operator that refuses its operands fails with its error,
      both operands popped. */
  lemma BinaryErrorPopsBoth(p: nat, wc: int, st: MState, x: Int32, y: Int32)
    requires (IsBaseBinary(wc) || IsExtendedBinary(wc)) && BinaryOp(wc, x, y).Err?
    ensures Binary(p, wc, Push(Push(st, Number(x)), Number(y))) ==
              Reply(Halted(Fatal(BinaryOp(wc, x, y).error, At(p))), st)
  {
    var s := Push(Push(st, Number(x)), Number(y)).stack;
    assert S.PopNumber(s).items == st.stack + [Number(x)];
    assert S.PopNumber(st.stack + [Number(x)]).items == st.stack;
  }

  /** `+`, `-` and `*` replace x y by the exact result wrapped to 32 bits
      (congruent to it modulo 2^32, and equal to it when it fits). */
  lemma ArithmeticReplacesOperands(p: nat, wc: int, st: MState, x: Int32, y: Int32)
    requires wc in ['+' as int, '-' as int, '*' as int]
    ensures var exact := if wc == '+' as int then x + y else if wc == '-' as int then x - y else x * y;
      Binary(p, wc, Push(Push(st, Number(x)), Number(y))) == Reply(Handled, Push(st, Number(Wrap(exact))))
  {
    BinaryPushesResult(p, wc, st, x, y);
  }

  /** The first pop of a binary operator: an empty stack is an underflow,
      and a top that is not a number is a type mismatch, popped. */
  lemma BinaryNeedsNumberOnTop(p: nat, wc: int, st: MState)
    requires IsBaseBinary(wc) || IsExtendedBinary(wc)
    requires |st.stack| == 0 || !st.stack[|st.stack| - 1].Number?
    ensures |st.stack| == 0 ==> Binary(p, wc, st) == Reply(Halted(Fatal(StackUnderflow, At(p))), st)
    ensures |st.stack| > 0 ==>
              Binary(p, wc, st) ==
              Reply(Halted(Fatal(StackTypeMismatch, At(p))), st.(stack := st.stack[..|st.stack| - 1]))
  {
  }

  /** The second pop: with a number y on top, nothing below it is an
      underflow and a token below it that is not a number is a type
      mismatch; y and that token are both popped. */
  lemma BinaryNeedsNumberBelow(p: nat, wc: int, st: MState, y: Int32)
    requires IsBaseBinary(wc) || IsExtendedBinary(wc)
    requires |st.stack| == 0 || !st.stack[|st.stack| - 1].Number?
    ensures |st.stack| == 0 ==> Binary(p, wc, Push(st, Number(y))) == Reply(Halted(Fatal(StackUnderflow, At(p))), st)
    ensures |st.stack| > 0 ==>
              Binary(p, wc, Push(st, Number(y))) ==
              Reply(Halted(Fatal(StackTypeMismatch, At(p))), st.(stack := st.stack[..|st.stack| - 1]))
  {
    assert S.PopNumber(Push(st, Number(y)).stack).items == st.stack;
  }

  /** `/` and `÷` with a zero divisor fail, whatever x is. */
  lemma DivideByZeroIsFatal(p: nat, wc: int, st: MState, x: Int32)
    requires IsDivision(wc)
    ensures Binary(p, wc, Push(Push(st, Number(x)), Number(0))) == Reply(Halted(Fatal(DivideByZero, At(p))), st)
  {
    var s := Push(Push(st, Number(x)), Number(0)).stack;
    assert S.PopNumber(s).items == st.stack + [Number(x)];
  }

  /** `÷` pushes the remainder and then the quotient, which make up x
      again. */
  lemma DivModPushesBoth(p: nat, st: MState, x: Int32, y: Int32)
    requires y != 0 && !(x == INT_MIN && y == -1)
    ensures var r := Binary(p, DIVISION_SIGN, Push(Push(st, Number(x)), Number(y)));
      && r.status == Handled
      && |r.st.stack| == |st.stack| + 2 && r.st.stack[..|st.stack|] == st.stack
      && var rem := r.st.stack[|st.stack|]; var quot := r.st.stack[|st.stack| + 1];
         rem.Number? && quot.Number? && quot.number * y + rem.number == x && Abs(rem.number) < Abs(y)
  {
    var s := Push(Push(st, Number(x)), Number(y)).stack;
    assert S.PopNumber(s).items == st.stack + [Number(x)];
    assert S.PopNumber(st.stack + [Number(x)]).items == st.stack;
    BinaryDivision(DIVISION_SIGN, x, y);
    QuotientInRange(x, y);
    TruncDivision(x, y);
  }

  /** A shift whose operands check_shift_operands refuses fails with its
      error. */
  lemma BadShiftIsFatal(p: nat, wc: int, st: MState, x: Int32, y: Int32)
    requires IsShift(wc) && CheckShiftOperands(x, y).Some?
    ensures Binary(p, wc, Push(Push(st, Number(x)), Number(y))) ==
              Reply(Halted(Fatal(CheckShiftOperands(x, y).value, At(p))), st)
  {
    var s := Push(Push(st, Number(x)), Number(y)).stack;
    assert S.PopNumber(s).items == st.stack + [Number(x)];
    assert S.PopNumber(st.stack + [Number(x)]).items == st.stack;
  }

  /** Pushing a token that lies in the text keeps the state well formed. */
  lemma PushWf(n: nat, st: MState, t: Token)
    requires Wf(n, st) && InText(t, n)
    ensures Wf(n, Push(st, t))
  {
    forall u | u in Push(st, t).stack
      ensures InText(u, n)
    {
      if u != t {
        assert u in st.stack;
      }
    }
  }

  /** `?` runs its lambda exactly when the number beneath it is not 0, and
      otherwise just drops both operands. */
  lemma IfRunsIffNonzero(c: Config, p: nat, st: MState, n: Int32, body: Slice, fuel: nat)
    requires Wf(|c.text|, st) && Within(body, |c.text|)
    ensures var before := Push(Push(st, Number(n)), Lambda(body));
      && Wf(|c.text|, before)
      && Control(c, p, '?' as int, before, fuel) ==
           if n != 0 then Resume(Call(c, body, st, fuel)) else Stepped(Normal, Handled, st)
  {
    var mid := Push(st, Number(n));
    PushWf(|c.text|, st, Number(n));
    PushWf(|c.text|, mid, Lambda(body));
    var before := Push(mid, Lambda(body));
    assert S.PopLambda(before.stack).items == mid.stack;
    assert S.PopNumber(mid.stack).items == st.stack;
  }

  /** `¿` runs exactly one of its two lambdas: the first when the condition
      is not 0, the second when it is. */
  lemma ChooseRunsOneBranch(c: Config, p: nat, st: MState, n: Int32, t: Slice, f: Slice, fuel: nat)
    requires Wf(|c.text|, st) && Within(t, |c.text|) && Within(f, |c.text|)
    ensures var before := Push(Push(Push(st, Number(n)), Lambda(t)), Lambda(f));
      var run := Call(c, if n != 0 then t else f, st, fuel);
      && Wf(|c.text|, before)
      && DispatchExtended(c, p, INVERTED_QUESTION_MARK, before, fuel) ==
           Reply(if run.outcome.Completed? then Handled else Halted(run.outcome), run.st)
  {
    var s1 := Push(st, Number(n));
    var s2 := Push(s1, Lambda(t));
    PushWf(|c.text|, st, Number(n));
    PushWf(|c.text|, s1, Lambda(t));
    PushWf(|c.text|, s2, Lambda(f));
    var before := Push(s2, Lambda(f));
    assert S.PopLambda(before.stack).items == s2.stack;
    assert S.PopLambda(s2.stack).items == s1.stack;
    assert S.PopNumber(s1.stack).items == st.stack;
  }

  /** `#` pops the body and then the condition and runs the loop. */
  lemma LoopRunsWhile(c: Config, p: nat, st: MState, cond: Slice, body: Slice, fuel: nat)
    requires Wf(|c.text|, st) && Within(cond, |c.text|) && Within(body, |c.text|)
    ensures var before := Push(Push(st, Lambda(cond)), Lambda(body));
      && Wf(|c.text|, before)
      && Control(c, p, '#' as int, before, fuel) == Resume(While(c, p, cond, body, st, fuel))
  {
    var mid := Push(st, Lambda(cond));
    PushWf(|c.text|, st, Lambda(cond));
    PushWf(|c.text|, mid, Lambda(body));
    var before := Push(mid, Lambda(body));
    assert S.PopLambda(before.stack).items == mid.stack;
    assert S.PopLambda(mid.stack).items == st.stack;
  }

  /** The loop ends, successfully, as soon as the condition leaves 0; the
      0 is consumed and the body is not run. */
  lemma LoopStopsOnZero(c: Config, p: nat, cond: Slice, body: Slice, st: MState, after: MState, fuel: nat)
    requires Within(cond, |c.text|) && Within(body, |c.text|) && Wf(|c.text|, st)
    requires fuel > 0 && Process(c, cond, st, fuel - 1) == Run(Completed, Push(after, Number(0)))
    ensures While(c, p, cond, body, st, fuel) == Run(Completed, after)
  {
    assert S.PopNumber(Push(after, Number(0)).stack).items == after.stack;
  }

  /** A condition that leaves any other number runs the body, and the loop
      goes round again from the state the body leaves. */
  lemma LoopContinuesOnNonzero(c: Config, p: nat, cond: Slice, body: Slice, st: MState, after: MState, n: Int32, fuel: nat)
    requires Within(cond, |c.text|) && Within(body, |c.text|) && Wf(|c.text|, st)
    requires fuel > 0 && n != 0 && Process(c, cond, st, fuel - 1) == Run(Completed, Push(after, Number(n)))
    ensures Wf(|c.text|, after)
    ensures var rb := Process(c, body, after, fuel - 1);
      While(c, p, cond, body, st, fuel) ==
        if rb.outcome.Completed? then While(c, p, cond, body, rb.st, fuel - 1) else rb
  {
    var top := Push(after, Number(n));
    assert S.PopNumber(top.stack).items == after.stack;
    forall u | u in after.stack
      ensures InText(u, |c.text|)
    {
      assert u in top.stack;
    }
  }

  /** A condition that does not leave a number on top ends the loop with
      the error of pop_number at the `#`. */
  lemma LoopConditionMustLeaveNumber(c: Config, p: nat, cond: Slice, body: Slice, st: MState, fuel: nat)
    requires Within(cond, |c.text|) && Within(body, |c.text|) && Wf(|c.text|, st)
    requires fuel > 0
    ensures var rc := Process(c, cond, st, fuel - 1);
      var s := rc.st.stack;
      rc.outcome.Completed? && (|s| == 0 || !s[|s| - 1].Number?) ==>
        While(c, p, cond, body, st, fuel).outcome ==
          Fatal(if |s| == 0 then StackUnderflow else StackTypeMismatch, At(p))
  {
  }

  /** strtol finds a number in each of args[i..j]. */
  predicate NumericFrom(args: seq<seq<byte>>, i: nat, j: nat)
    requires j <= |args|
  {
    forall k :: i <= k < j ==> C.StrToL(args[k]).consumed > 0
  }

  /** The argument loop binds args[j] to the variable `b` + j, keeping the
      low 32 bits of what strtol returns, for every argument up to and
      including the first non-numeric one; it reports success exactly when
      every argument is numeric; and it leaves every other cell alone. */
  lemma {:induction false} BindBindsEach(cells: seq<Token>, args: seq<seq<byte>>, i: nat)
    requires |cells| == M.CELLS && i <= |args| <= 25
    ensures var r := Bind(cells, args, i);
      && (r.numeric <==> NumericFrom(args, i, |args|))
      && (forall j :: i <= j < |args| && NumericFrom(args, i, j) ==>
            M.Get(r.cells, 'b' as int + j) == Number(Wrap(C.StrToL(args[j]).value)))
      && (forall d :: !('b' as int + i <= d < 'b' as int + |args|) ==> M.Get(r.cells, d) == M.Get(cells, d))
    decreases |args| - i
  {
    if i < |args| {
      var p := C.StrToL(args[i]);
      var v := Number(Wrap(p.value));
      var cells' := M.Set(cells, 'b' as int + i, v);
      forall d
        ensures M.Get(cells', d) == if d == 'b' as int + i then v else M.Get(cells, d)
      {
        M.GetAfterSet(cells, 'b' as int + i, v, d);
      }
      assert NumericFrom(args, i, |args|) <==> p.consumed > 0 && NumericFrom(args, i + 1, |args|);
      if p.consumed > 0 {
        BindBindsEach(cells', args, i + 1);
        var r := Bind(cells', args, i + 1);
        forall j | i <= j < |args| && NumericFrom(args, i, j)
          ensures M.Get(r.cells, 'b' as int + j) == Number(Wrap(C.StrToL(args[j]).value))
        {
          if j > i {
            assert NumericFrom(args, i + 1, j);
          }
        }
      }
    }
  }

  /** interpret refuses the program, before running it, with a
      non-numeric-argument error when the argument count is right and
      strtol finds no number in one of the arguments. */
  lemma NonNumericArgumentIsFatal(argv: seq<seq<byte>>, str: seq<byte>, extensions: bool, feed: H.Feed, fuel: nat)
    requires 1 <= |argv| <= 26 && !NumericFrom(argv[1..], 0, |argv| - 1)
    ensures var r := Interpret(argv, str, extensions, feed, fuel);
      r.status == 1 && r.outcome == Fatal(NonNumericArgument, Null) && r.st.stack == [] && r.st.output == []
  {
    var args := argv[1..];
    var cells0 := M.Set(M.Cleared(), 'a' as int, Number(|args|));
    BindBindsEach(cells0, args, 0);
    var b := Bind(cells0, args, 0);
    assert !b.numeric;
    assert Interpret(argv, str, extensions, feed, fuel) == Exit(1, Fatal(NonNumericArgument, Null), Initial(feed).(cells := b.cells));
  }

  /** A program with no text (the string starts with its NUL) and numeric
      arguments succeeds, leaving `a` holding the argument count, `b`, `c`,
      ... the arguments' values and every other variable 0. */
  lemma EmptyProgramBindsArguments(argv: seq<seq<byte>>, str: seq<byte>, extensions: bool, feed: H.Feed, fuel: nat)
    requires 1 <= |argv| <= 26 && NumericFrom(argv[1..], 0, |argv| - 1)
    requires |str| == 0 || str[0] == 0
    ensures var r := Interpret(argv, str, extensions, feed, fuel);
      && r.status == 0 && r.st.stack == [] && r.st.output == []
      && M.Get(r.st.cells, 'a' as int) == Number(|argv| - 1)
      && (forall j :: 1 <= j < |argv| ==> M.Get(r.st.cells, 'a' as int + j) == Number(Wrap(C.StrToL(argv[j]).value)))
      && (forall d :: 'a' as int + |argv| <= d <= 'z' as int ==> M.Get(r.st.cells, d) == Number(0))
  {
    var args := argv[1..];
    var cells0 := M.Set(M.Cleared(), 'a' as int, Number(|args|));
    BindBindsEach(cells0, args, 0);
    forall d
      ensures M.Get(cells0, d) == if d == 'a' as int then Number(|args|) else M.Get(M.Cleared(), d)
    {
      M.GetAfterSet(M.Cleared(), 'a' as int, Number(|args|), d);
    }
    var b := Bind(cells0, args, 0);
    forall j | 1 <= j < |argv|
      ensures M.Get(b.cells, 'a' as int + j) == Number(Wrap(C.StrToL(argv[j]).value))
    {
      assert args[j - 1] == argv[j];
      assert NumericFrom(args, 0, j - 1);
    }
    EmptyProgramCompletes(argv, str, extensions, feed, fuel);
  }

  /** With numeric arguments, a program with no text completes with the
      bound cells and nothing else changed. */
  lemma EmptyProgramCompletes(argv: seq<seq<byte>>, str: seq<byte>, extensions: bool, feed: H.Feed, fuel: nat)
    requires 1 <= |argv| <= 26 && NumericFrom(argv[1..], 0, |argv| - 1)
    requires |str| == 0 || str[0] == 0
    ensures Interpret(argv, str, extensions, feed, fuel) ==
              Exit(0, Completed, Initial(feed).(cells := Bind(M.Set(M.Cleared(), 'a' as int, Number(|argv| - 1)), argv[1..], 0).cells))
  {
    var args := argv[1..];
    var cells0 := M.Set(M.Cleared(), 'a' as int, Number(|args|));
    BindBindsEach(cells0, args, 0);
    var b := Bind(cells0, args, 0);
    assert Strlen(str) == 0;
    var c := Config(str[..0], extensions);
    var st1 := Initial(feed).(cells := b.cells);
    assert b.numeric;
    assert Process(c, Make(At(0), 0), st1, fuel) == Run(Completed, st1);
  }

  /** A program that is a single byte outside ASCII is not a whole UTF-8
      character: interpret fails with a bad multi-byte character at the
      start of the program, and nothing is written. */
  lemma LoneNonAsciiByteIsFatal(argv: seq<seq<byte>>, b: byte, extensions: bool, feed: H.Feed, fuel: nat)
    requires |argv| == 1 && b >= 0x80
    ensures var r := Interpret(argv, [b], extensions, feed, fuel);
      r.status == 1 && r.outcome == Fatal(BadMultiByte, At(0)) && r.st.output == []
  {
    var text: seq<byte> := [b];
    assert Strlen(text) == 1;
    assert text[..1] == text;
    assert Decode(text, 0, 1).Bad?;
    var args := argv[1..];
    assert |args| == 0;
    var cells := M.Set(M.Cleared(), 'a' as int, Number(0));
    assert Bind(cells, args, 0) == Bound(cells, true);
    var st1 := Initial(feed).(cells := cells);
    var c := Config(text, extensions);
    assert Scan(c, 1, 0, 0, Normal, st1, fuel) == Run(Fatal(BadMultiByte, At(0)), st1);
    assert Process(c, Make(At(0), 1), st1, fuel) == Run(Fatal(BadMultiByte, At(0)), st1);
  }
}
