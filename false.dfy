/** false.c as imperative code over one Machine object whose fields are the
    interpreter's globals: the stack, the 26 cells, the host's input state
    and the output the host has been asked to write. Every method is proved
    to leave the state, and return the status, that the FalseSpec function
    of the same name describes; the properties of the interpreter are
    proved about those functions. The cursor `g_.slice.buf`, which false.c
    keeps global only so that `fatal` can report it, is the local `pos` of
    Process, and the position travels in the Outcome instead. */
module FalseImpl {
  import opened MachineInt
  import opened Slices
  import opened Tokens
  import opened Failures
  import opened Locale
  import opened CodePoints
  import opened FalseSpec
  import S = StackSpec
  import M = StorageSpec
  import H = Host
  import C = CLib
  import Stacks
  import Storages

  class Machine {
    const text: seq<byte>
    const extensions: bool
    const stack: Stacks.Stack
    const storage: Storages.Storage
    const host: H.HostInput
    var output: seq<Event>

    function Cfg(): Config
    {
      Config(text, extensions)
    }

    function State(): MState
      reads this, stack, storage.cells, host
    {
      MState(stack.items, storage.cells[..], output, host.Current())
    }

    /** The cells are 26 and every lambda held lies inside the text. */
    ghost predicate Ready()
      reads this, stack, storage.cells, host
    {
      storage.Valid() && Wf(|text|, State())
    }

    constructor (text: seq<byte>, extensions: bool, input: Option<seq<byte>>, stdin: seq<byte>)
      ensures Ready() && this.text == text && this.extensions == extensions
      ensures State() == Initial(H.Feed(input, stdin))
      ensures fresh(stack) && fresh(storage.cells) && fresh(host)
    {
      this.text := text;
      this.extensions := extensions;
      stack := new Stacks.Stack();
      storage := new Storages.Storage();
      host := new H.HostInput(input, stdin);
      output := [];
    }

    /** The part of dispatch that shuffles the stack. */
    method Shuffle(p: nat, wc: int) returns (status: Status)
      requires IsShuffle(wc)
      modifies stack
      ensures Reply(status, State()) == FalseSpec.Shuffle(p, wc, old(State()))
    {
      var r: Result<()>;
      if wc == '\\' as int {
        r := stack.Swap();
      } else if wc == '$' as int {
        r := stack.Dup();
      } else if wc == '%' as int {
        r := stack.Drop();
      } else if wc == '@' as int {
        r := stack.Rot();
      } else {
        var n := stack.PopNumber();
        if n.Err? {
          return Halted(Fatal(n.error, At(p)));
        }
        r := stack.Pick(n.value);
      }
      status := if r.Err? then Halted(Fatal(r.error, At(p))) else Handled;
    }

    /** compare */
    method Compare() returns (r: Result<bool>)
      modifies stack
      ensures r == FalseSpec.Compare(old(stack.items)).result
      ensures stack.items == FalseSpec.Compare(old(stack.items)).items
    {
      var y := stack.Pop();
      if y.Err? {
        return Err(y.error);
      }
      var x := stack.Pop();
      if x.Err? {
        return Err(x.error);
      }
      if !SameTag(x.value, y.value) {
        return Err(StackTypeMismatch);
      }
      match y.value
      case Number(n) => r := Ok(x.value.number == n);
      case Variable(v) => r := Ok(x.value.variable == v);
      case Lambda(_) => r := Ok(false);
    }

    /** `=` and `≠` */
    method Equal(p: nat, negate: bool) returns (status: Status)
      modifies stack
      ensures Reply(status, State()) == FalseSpec.Equal(p, old(State()), negate)
    {
      var e := Compare();
      if e.Err? {
        return Halted(Fatal(e.error, At(p)));
      }
      stack.Push(Number(Truth(e.value != negate)));
      status := Handled;
    }

    /** The binary operators of both tables: pop y, pop x, push. */
    method Binary(p: nat, wc: int) returns (status: Status)
      requires IsBaseBinary(wc) || IsExtendedBinary(wc)
      modifies stack
      ensures Reply(status, State()) == FalseSpec.Binary(p, wc, old(State()))
    {
      var y := stack.PopNumber();
      if y.Err? {
        return Halted(Fatal(y.error, At(p)));
      }
      var x := stack.PopNumber();
      if x.Err? {
        return Halted(Fatal(x.error, At(p)));
      }
      var v := BinaryOp(wc, x.value, y.value);
      if v.Err? {
        return Halted(Fatal(v.error, At(p)));
      }
      ghost var below := stack.items;
      stack.Push(Number(v.value[0]));
      if |v.value| == 2 {
        stack.Push(Number(v.value[1]));
        assert Numbers(v.value) == [Number(v.value[0]), Number(v.value[1])];
      } else {
        assert Numbers(v.value) == [Number(v.value[0])];
      }
      status := Handled;
    }

    /** `_`, `~`, `.` and `,` */
    method Unary(p: nat, wc: int) returns (status: Status)
      requires IsUnary(wc)
      modifies this, stack
      ensures Reply(status, State()) == FalseSpec.Unary(p, wc, old(State()))
    {
      var n := stack.PopNumber();
      if n.Err? {
        return Halted(Fatal(n.error, At(p)));
      }
      var x := n.value;
      if wc == '_' as int {
        stack.Push(Number(Wrap(-(x as int))));
      } else if wc == '~' as int {
        stack.Push(Number(BitNot(x)));
      } else if wc == '.' as int {
        output := output + [EmitNumber(x)];
      } else {
        output := output + [EmitChar(x % 256)];
      }
      status := Handled;
    }

    /** `:` */
    method Store(p: nat) returns (status: Status)
      requires storage.Valid()
      modifies stack, storage.cells
      ensures Reply(status, State()) == FalseSpec.Store(p, old(State()))
    {
      var v := stack.PopVariable();
      if v.Err? {
        return Halted(Fatal(v.error, At(p)));
      }
      var t := stack.Pop();
      if t.Err? {
        return Halted(Fatal(t.error, At(p)));
      }
      storage.Set(v.value, t.value);
      status := Handled;
    }

    /** `;` */
    method Fetch(p: nat) returns (status: Status)
      requires storage.Valid()
      modifies stack
      ensures Reply(status, State()) == FalseSpec.Fetch(p, old(State()))
    {
      var v := stack.PopVariable();
      if v.Err? {
        return Halted(Fatal(v.error, At(p)));
      }
      stack.Push(storage.Get(v.value));
      status := Handled;
    }

    /** dispatch */
    method Dispatch(p: nat, wc: int) returns (status: Status)
      requires storage.Valid()
      modifies this, stack, storage.cells, host
      ensures Reply(status, State()) == FalseSpec.Dispatch(p, wc, old(State()))
    {
      if wc == '`' as int {
        status := Halted(Fatal(UnsupportedInjection, At(p)));
      } else if IsShuffle(wc) {
        status := Shuffle(p, wc);
      } else if wc == '=' as int {
        status := Equal(p, false);
      } else if IsBaseBinary(wc) {
        status := Binary(p, wc);
      } else if IsUnary(wc) {
        status := Unary(p, wc);
      } else if wc == '^' as int {
        var c := host.Input();
        stack.Push(Number(c));
        status := Handled;
      } else if wc == LATIN_SMALL_LETTER_SHARP_S || wc == 'B' as int {
        host.Flush();
        status := Handled;
      } else if wc == ':' as int {
        status := Store(p);
      } else if wc == ';' as int {
        status := Fetch(p);
      } else {
        status := Unhandled(wc);
      }
    }

    /** dispatch_extended, except `¿` */
    method ExtendedTable(p: nat, wc: int) returns (status: Status)
      modifies stack
      ensures Reply(status, State()) == FalseSpec.ExtendedTable(p, wc, old(State()))
    {
      var r: Result<()> := Ok(());
      if wc == POUND_SIGN {
        r := stack.Over();
      } else if wc == PER_MILLE_SIGN {
        r := stack.Nip();
      } else if wc == EURO_SIGN {
        r := stack.Tuck();
      } else if wc == LATIN_CAPITAL_LETTER_O_WITH_STROKE {
        r := stack.TwoDup();
      } else if wc == SECTION_SIGN {
        stack.Push(Number(Wrap(stack.Size())));
      } else if wc == NOT_EQUAL_TO {
        status := Equal(p, true);
        return;
      } else if IsExtendedBinary(wc) {
        status := Binary(p, wc);
        return;
      } else if wc == INTEGRAL {
        var n := stack.PopNumber();
        if n.Err? {
          return Halted(Fatal(n.error, At(p)));
        }
        if n.value == 0 {
          return Halted(Fatal(AssertionFailed, At(p)));
        }
      } else {
        return Unhandled(wc);
      }
      status := if r.Err? then Halted(Fatal(r.error, At(p))) else Handled;
    }

    /** dispatch_extended */
    method DispatchExtended(p: nat, wc: int, fuel: nat) returns (status: Status)
      requires Ready()
      modifies this, stack, storage.cells, host
      ensures Ready()
      ensures Reply(status, State()) == FalseSpec.DispatchExtended(Cfg(), p, wc, old(State()), fuel)
      decreases fuel, 0, 2
    {
      if wc != INVERTED_QUESTION_MARK {
        status := ExtendedTable(p, wc);
        KeepsWf(|text|, old(State()), State());
        return;
      }
      PoppedLambda(|text|, State());
      var f := stack.PopLambda();
      if f.Err? {
        return Halted(Fatal(f.error, At(p)));
      }
      PoppedLambda(|text|, State());
      var t := stack.PopLambda();
      if t.Err? {
        return Halted(Fatal(t.error, At(p)));
      }
      ghost var before := State();
      var n := stack.PopNumber();
      KeepsWf(|text|, before, State());
      if n.Err? {
        return Halted(Fatal(n.error, At(p)));
      }
      var outcome := Call(if n.value != 0 then t.value else f.value, fuel);
      status := if outcome.Completed? then Handled else Halted(outcome);
    }

    /** Running a lambda: process its slice with one unit of fuel less. */
    method Call(s: Slice, fuel: nat) returns (outcome: Outcome)
      requires Ready() && Within(s, |text|)
      modifies this, stack, storage.cells, host
      ensures Ready()
      ensures Run(outcome, State()) == FalseSpec.Call(Cfg(), s, old(State()), fuel)
      decreases fuel, 0, 0
    {
      if fuel == 0 {
        return OutOfFuel;
      }
      outcome := Process(s, fuel - 1);
    }

    /** The `#` loop. */
    method While(p: nat, cond: Slice, body: Slice, fuel: nat) returns (outcome: Outcome)
      requires Ready() && Within(cond, |text|) && Within(body, |text|)
      modifies this, stack, storage.cells, host
      ensures Ready()
      ensures Run(outcome, State()) == FalseSpec.While(Cfg(), p, cond, body, old(State()), fuel)
      decreases fuel, 0, 1
    {
      ghost var expected := FalseSpec.While(Cfg(), p, cond, body, State(), fuel);
      var f: nat := fuel;
      while true
        invariant f <= fuel && Ready()
        invariant FalseSpec.While(Cfg(), p, cond, body, State(), f) == expected
        decreases f
      {
        if f == 0 {
          return OutOfFuel;
        }
        ghost var start := State();
        WhileAdvances(Cfg(), p, cond, body, start, f);
        outcome := Process(cond, f - 1);
        if !outcome.Completed? {
          return;
        }
        ghost var before := State();
        var n := stack.PopNumber();
        KeepsWf(|text|, before, State());
        if n.Err? {
          return Fatal(n.error, At(p));
        }
        if n.value == 0 {
          return Completed;
        }
        outcome := Process(body, f - 1);
        if !outcome.Completed? {
          return;
        }
        f := f - 1;
      }
    }

    /** `!`, `?` and `#` */
    method Control(p: nat, wc: int, fuel: nat) returns (status: Status)
      requires wc == '!' as int || wc == '?' as int || wc == '#' as int
      requires Ready()
      modifies this, stack, storage.cells, host
      ensures Ready()
      ensures Stepped(Normal, status, State()) == FalseSpec.Control(Cfg(), p, wc, old(State()), fuel)
      decreases fuel, 1, 0
    {
      PoppedLambda(|text|, State());
      var top := stack.PopLambda();
      if top.Err? {
        return Halted(Fatal(top.error, At(p)));
      }
      var outcome := Completed;
      if wc == '!' as int {
        outcome := Call(top.value, fuel);
      } else if wc == '?' as int {
        ghost var before := State();
        var n := stack.PopNumber();
        KeepsWf(|text|, before, State());
        if n.Err? {
          return Halted(Fatal(n.error, At(p)));
        }
        if n.value != 0 {
          outcome := Call(top.value, fuel);
        }
      } else {
        PoppedLambda(|text|, State());
        var cond := stack.PopLambda();
        if cond.Err? {
          return Halted(Fatal(cond.error, At(p)));
        }
        outcome := While(p, cond.value, top.value, fuel);
      }
      status := if outcome.Completed? then Handled else Halted(outcome);
    }

    /** A character in Normal mode that is not a digit. */
    method Operate(p: nat, wc: int, fuel: nat) returns (mode: Mode, status: Status)
      requires Ready()
      modifies this, stack, storage.cells, host
      ensures Ready()
      ensures Stepped(mode, status, State()) == FalseSpec.Operate(Cfg(), p, wc, old(State()), fuel)
      decreases fuel, 1, 1
    {
      mode := Normal;
      if IsSpace(wc) {
        return Normal, Handled;
      }
      if wc == '{' as int {
        return InComment, Handled;
      } else if wc == '\'' as int {
        return InChar, Handled;
      } else if wc == '"' as int {
        return InString, Handled;
      } else if wc == '[' as int {
        return Capture(0, 0, 0), Handled;
      } else if wc == ']' as int || wc == '}' as int {
        return Normal, Halted(Fatal(UnbalancedSymbol, At(p)));
      }
      if wc == '!' as int || wc == '?' as int || wc == '#' as int {
        status := Control(p, wc, fuel);
        return;
      }
      status := Dispatch(p, wc);
      KeepsWf(|text|, old(State()), State());
      if status.Unhandled? && extensions {
        status := DispatchExtended(p, status.wc, fuel);
      }
      if status.Unhandled? {
        if IsWLower(status.wc) {
          stack.Push(Variable(status.wc));
          status := Handled;
        } else {
          status := Halted(Fatal(UnknownSymbol, At(p)));
        }
      }
    }

    /** One decoded character in any mode. */
    method Step(p: nat, wc: int, mode: Mode, fuel: nat) returns (mode': Mode, status: Status)
      requires p < |text| && IsScalar(wc) && Ready() && WfMode(mode, p)
      modifies this, stack, storage.cells, host
      ensures Ready()
      ensures Stepped(mode', status, State()) == FalseSpec.Step(Cfg(), p, wc, mode, old(State()), fuel)
      decreases fuel, 1, 2
    {
      match mode
      case Normal =>
        if IsDigit(wc) {
          return InNumber(wc - '0' as int), Handled;
        }
        mode', status := Operate(p, wc, fuel);
      case InNumber(n) =>
        if IsDigit(wc) {
          return InNumber(Wrap(n * 10 + (wc - '0' as int))), Handled;
        }
        stack.Push(Number(n));
        mode', status := Operate(p, wc, fuel);
      case InComment =>
        mode' := if wc == '}' as int then Normal else InComment;
        status := Handled;
      case InChar =>
        stack.Push(Number(wc));
        mode', status := Normal, Handled;
      case InString =>
        if wc != '"' as int {
          output := output + [EmitWide(wc)];
          return InString, Handled;
        }
        mode', status := Normal, Handled;
      case Capture(start, nested, nesting) =>
        var k := CaptureStep(p, wc, start, nested, nesting);
        if k.lambda.Some? {
          stack.Push(Lambda(k.lambda.value));
        }
        mode', status := k.mode, Handled;
    }

    /** process */
    method Process(s: Slice, fuel: nat) returns (outcome: Outcome)
      requires Ready() && Within(s, |text|)
      modifies this, stack, storage.cells, host
      ensures Ready()
      ensures Run(outcome, State()) == FalseSpec.Process(Cfg(), s, old(State()), fuel)
      decreases fuel, 3, 0
    {
      ghost var expected := FalseSpec.Process(Cfg(), s, State(), fuel);
      var end := s.end.offset;
      var pos: nat := s.buf.offset;
      var width: nat := 0;
      var mode := Normal;
      while pos + width != end
        invariant pos + width <= end <= |text|
        invariant Ready() && WfMode(mode, pos)
        invariant Scan(Cfg(), end, pos, width, mode, State(), fuel) == expected
        decreases end - pos - width
      {
        ghost var before, pos0, width0, mode0 := State(), pos, width, mode;
        pos := pos + width;
        var d := Decode(text, pos, end);
        if d.Bad? || d.width == 0 {
          return Fatal(BadMultiByte, At(pos));
        }
        width := d.width;
        var status;
        mode, status := Step(pos, d.wc, mode, fuel);
        if status.Halted? {
          return status.outcome;
        }
        ScanAdvances(Cfg(), end, pos0, width0, mode0, before, fuel, d, Stepped(mode, status, State()));
      }
      match mode
      case Normal =>
        outcome := Completed;
      case InNumber(n) =>
        stack.Push(Number(n));
        outcome := Completed;
      case _ =>
        outcome := Fatal(UnterminatedStatement, At(pos));
    }
  }

  /** interpret */
  method Interpret(argv: seq<seq<byte>>, str: seq<byte>, extensions: bool,
                   input: Option<seq<byte>>, stdin: seq<byte>, fuel: nat)
    returns (status: int, outcome: Outcome, st: MState)
    ensures Exit(status, outcome, st) == FalseSpec.Interpret(argv, str, extensions, H.Feed(input, stdin), fuel)
  {
    var n := Strlen(str);
    var m := new Machine(str[..n], extensions, input, stdin);
    if |argv| == 0 {
      return 1, Fatal(TooFewArguments, Null), m.State();
    }
    var argc := |argv| - 1;
    var args := argv[1..];
    if argc > 25 {
      return 1, Fatal(TooManyArguments, Null), m.State();
    }
    m.stack.Init();
    m.storage.Clear();
    var v := 'a' as int;
    m.storage.Set(v, Number(argc));
    v := v + 1;
    ghost var expected := Bind(m.storage.cells[..], args, 0);
    var i := 0;
    while i < argc
      invariant 0 <= i <= argc && v == 'b' as int + i
      invariant m.State() == Initial(H.Feed(input, stdin)).(cells := m.storage.cells[..])
      invariant m.storage.Valid() && Bind(m.storage.cells[..], args, i) == expected
    {
      var p := C.StrToL(args[i]);
      m.storage.Set(v, Number(Wrap(p.value)));
      v := v + 1;
      if p.consumed == 0 {
        return 1, Fatal(NonNumericArgument, Null), m.State();
      }
      i := i + 1;
    }
    outcome := m.Process(Make(At(0), n), fuel);
    if outcome.Completed? && !m.stack.Empty() {
      outcome := Fatal(StackNotEmpty, Null);
    }
    status := if outcome.Completed? then 0 else 1;
    st := m.State();
  }
}
