/** Whole runs of process and interpret: one step of the scan for the
    variable, store, fetch and print operators, and the run of a short
    program that stores a number in a variable, fetches it back and prints
    it. */
module ProgramRuns {
  import opened MachineInt
  import opened Tokens
  import opened Slices
  import opened Failures
  import opened Locale
  import opened CodePoints
  import opened FalseSpec
  import opened FalseProperties
  import opened OperatorProperties
  import S = StackSpec
  import M = StorageSpec
  import H = Host

  /** An ASCII letter in Normal mode pushes that variable and the scan goes
      on after it. */
  lemma ScanVariable(c: Config, end: nat, pos: nat, width: nat, st: MState, fuel: nat)
    requires pos + width < end <= |c.text| && Wf(|c.text|, st)
    requires IsLower(c.text[pos + width])
    ensures var p := pos + width;
      Scan(c, end, pos, width, Normal, st, fuel) == Scan(c, end, p, 1, Normal, Push(st, Variable(c.text[p])), fuel)
  {
    var p := pos + width;
    ScanAscii(c, end, pos, width, Normal, st, fuel);
    LetterIsVariable(c, p, c.text[p], st, fuel);
  }

  /** `:` in Normal mode stores the token under the variable in its cell,
      pops both, and the scan goes on after it. */
  lemma ScanStore(c: Config, end: nat, pos: nat, width: nat, st: MState, t: Token, v: int, fuel: nat)
    requires pos + width < end <= |c.text| && c.text[pos + width] == ':' as int
    requires Wf(|c.text|, st) && InText(t, |c.text|) && IsLower(v)
    ensures Wf(|c.text|, Push(Push(st, t), Variable(v)))
    ensures Scan(c, end, pos, width, Normal, Push(Push(st, t), Variable(v)), fuel) ==
              Scan(c, end, pos + width, 1, Normal, st.(cells := M.Set(st.cells, v, t)), fuel)
  {
    var p := pos + width;
    var s2 := Push(Push(st, t), Variable(v));
    PushWf(|c.text|, st, t);
    StoreOperator(p, st, t, v);
    ByDispatch(c, p, ':' as int, s2, fuel);
    ScanAdvances(c, end, pos, width, Normal, s2, fuel, Decode(c.text, p, end),
                 Stepped(Normal, Handled, st.(cells := M.Set(st.cells, v, t))));
  }

  /** `;` in Normal mode replaces the variable on top by the token in its
      cell, and the scan goes on after it. */
  lemma ScanFetch(c: Config, end: nat, pos: nat, width: nat, st: MState, v: int, fuel: nat)
    requires pos + width < end <= |c.text| && c.text[pos + width] == ';' as int
    requires Wf(|c.text|, st)
    ensures Wf(|c.text|, Push(st, Variable(v)))
    ensures Scan(c, end, pos, width, Normal, Push(st, Variable(v)), fuel) ==
              Scan(c, end, pos + width, 1, Normal, Push(st, M.Get(st.cells, v)), fuel)
  {
    var p := pos + width;
    var s1 := Push(st, Variable(v));
    FetchOperator(p, st, v);
    ByDispatch(c, p, ';' as int, s1, fuel);
    ScanAdvances(c, end, pos, width, Normal, s1, fuel, Decode(c.text, p, end),
                 Stepped(Normal, Handled, Push(st, M.Get(st.cells, v))));
  }

  /** `.` in Normal mode prints the number on top and pops it, and the
      scan goes on after it. */
  lemma ScanPrintNumber(c: Config, end: nat, pos: nat, width: nat, st: MState, x: Int32, fuel: nat)
    requires pos + width < end <= |c.text| && c.text[pos + width] == '.' as int
    requires Wf(|c.text|, st)
    ensures Wf(|c.text|, Push(st, Number(x)))
    ensures Scan(c, end, pos, width, Normal, Push(st, Number(x)), fuel) ==
              Scan(c, end, pos + width, 1, Normal, st.(output := st.output + [EmitNumber(x)]), fuel)
  {
    var p := pos + width;
    var s1 := Push(st, Number(x));
    PrintNumberOperator(p, st, x);
    ByDispatch(c, p, '.' as int, s1, fuel);
    ScanAdvances(c, end, pos, width, Normal, s1, fuel, Decode(c.text, p, end),
                 Stepped(Normal, Handled, st.(output := st.output + [EmitNumber(x)])));
  }

  /** The program `1a:a;.`. */
  const StoreFetchPrint: seq<byte> := [0x31, 0x61, 0x3A, 0x61, 0x3B, 0x2E]

  /** The first half of `1a:a;.`, `1a:`, stores 1 in `a`. */
  lemma StoreOne(extensions: bool, st: MState, fuel: nat)
    requires Wf(6, st)
    ensures var c := Config(StoreFetchPrint, extensions);
      Process(c, Make(At(0), 6), st, fuel) ==
        Scan(c, 6, 2, 1, Normal, st.(cells := M.Set(st.cells, 'a' as int, Number(1))), fuel)
  {
    var c := Config(StoreFetchPrint, extensions);
    ScanDigit(c, 6, 0, 0, Normal, 0, st, fuel);
    assert AppendDigit(0, c.text[0]) == 1;
    NumberEnds(c, 6, 0, 1, 1, st, fuel);
    ScanVariable(c, 6, 0, 1, Push(st, Number(1)), fuel);
    ScanStore(c, 6, 1, 1, st, Number(1), 'a' as int, fuel);
  }

  /** The second half, `a;.`, prints the number in `a` and completes. */
  lemma FetchPrint(extensions: bool, st: MState, x: Int32, fuel: nat)
    requires Wf(6, st) && M.Get(st.cells, 'a' as int) == Number(x)
    ensures var c := Config(StoreFetchPrint, extensions);
      Scan(c, 6, 2, 1, Normal, st, fuel) == Run(Completed, st.(output := st.output + [EmitNumber(x)]))
  {
    var c := Config(StoreFetchPrint, extensions);
    ScanVariable(c, 6, 2, 1, st, fuel);
    ScanFetch(c, 6, 3, 1, st, 'a' as int, fuel);
    ScanPrintNumber(c, 6, 4, 1, st, x, fuel);
    EndOfSlice(c, 6, 5, 1, Normal, st.(output := st.output + [EmitNumber(x)]), fuel);
  }

  /** Processing `1a:a;.` from any state sets `a` to 1, prints 1 and leaves
      the stack as it was. */
  lemma ProcessStoreFetchPrint(extensions: bool, st: MState, fuel: nat)
    requires Wf(6, st)
    ensures var c := Config(StoreFetchPrint, extensions);
      Process(c, Make(At(0), 6), st, fuel) ==
        Run(Completed, st.(cells := M.Set(st.cells, 'a' as int, Number(1)), output := st.output + [EmitNumber(1)]))
  {
    var st3 := st.(cells := M.Set(st.cells, 'a' as int, Number(1)));
    StoreOne(extensions, st, fuel);
    M.GetAfterSet(st.cells, 'a' as int, Number(1), 'a' as int);
    FetchPrint(extensions, st3, 1, fuel);
  }

  /** interpret with no arguments runs `1a:a;.` to completion: exit status
      0, the number 1 printed, `a` holding 1 and the stack empty. */
  lemma InterpretStoreFetchPrint(argv: seq<seq<byte>>, extensions: bool, feed: H.Feed, fuel: nat)
    requires |argv| == 1
    ensures var r := Interpret(argv, StoreFetchPrint, extensions, feed, fuel);
      && r.status == 0 && r.outcome == Completed
      && r.st.output == [EmitNumber(1)] && r.st.stack == []
      && M.Get(r.st.cells, 'a' as int) == Number(1)
  {
    var text := StoreFetchPrint;
    assert Strlen(text) == 6;
    assert text[..6] == text;
    var cells0 := M.Set(M.Cleared(), 'a' as int, Number(0));
    assert argv[1..] == [];
    assert Bind(cells0, [], 0) == Bound(cells0, true);
    var st1 := Initial(feed).(cells := cells0);
    ProcessStoreFetchPrint(extensions, st1, fuel);
    M.GetAfterSet(cells0, 'a' as int, Number(1), 'a' as int);
  }
}
