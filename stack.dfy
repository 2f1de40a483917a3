/** The operand stack of stack.c as functions on a sequence of tokens whose
    last element is the top. Each compound operation is composed from pops,
    pushes and depth checks in the same order as the C code, and its
    contract states the stack diagram of false.h. A failing operation also
    reports the stack it leaves behind (a failing rot has already popped what
    it could). */
module StackSpec {
  import opened MachineInt
  import opened Slices
  import opened Tokens
  import opened Failures

  datatype Effect<+T> = Effect(result: Result<T>, items: seq<Token>)

  function Underflow<T>(items: seq<Token>): Effect<T>
  {
    Effect(Err(StackUnderflow), items)
  }

  /** Every token left on the stack was on it before: stack operations
      only move and copy tokens. */
  predicate Drawn(items: seq<Token>, s: seq<Token>)
  {
    forall t :: t in items ==> t in s
  }

  /** require(n): the stack holds at least n tokens, so the n-th token
      from the top is in the stack; a requirement of nothing always holds. */
  function Require(s: seq<Token>, n: int): (r: bool)
    ensures r && n > 0 ==> 0 <= |s| - n < |s|
    ensures n <= 0 ==> r
  {
    |s| >= n
  }

  /** pop: the top token, or underflow on an empty stack. */
  function Pop(s: seq<Token>): (e: Effect<Token>)
    ensures Drawn(e.items, s)
    ensures e.result.Err? <==> |s| == 0
    ensures e.result.Err? ==> e == Underflow(s)
    ensures e.result.Ok? ==> s == e.items + [e.result.value]
  {
    if !Require(s, 1) then Underflow(s) else Effect(Ok(s[|s| - 1]), s[..|s| - 1])
  }

  /** dup ( a -- a a ) */
  function Dup(s: seq<Token>): (e: Effect<()>)
    ensures Drawn(e.items, s)
    ensures e.result.Ok? <==> |s| >= 1
    ensures |s| >= 1 ==> e.items == s + [s[|s| - 1]]
    ensures |s| < 1 ==> e == Underflow(s)
  {
    if !Require(s, 1) then Underflow(s) else Effect(Ok(()), s + [s[|s| - 1]])
  }

  /** drop ( a -- ) */
  function Drop(s: seq<Token>): (e: Effect<()>)
    ensures Drawn(e.items, s)
    ensures e.result.Ok? <==> |s| >= 1
    ensures |s| >= 1 ==> e.items == s[..|s| - 1]
    ensures |s| < 1 ==> e == Underflow(s)
  {
    var a := Pop(s);
    if a.result.Err? then Underflow(a.items) else Effect(Ok(()), a.items)
  }

  /** swap ( a b -- b a ): pop, pop, push, push. */
  function Swap(s: seq<Token>): (e: Effect<()>)
    ensures Drawn(e.items, s)
    ensures e.result.Ok? <==> |s| >= 2
    ensures |s| >= 2 ==> e.items == s[..|s| - 2] + [s[|s| - 1], s[|s| - 2]]
    ensures |s| < 2 ==> e == Underflow([])
  {
    var x1 := Pop(s);
    if x1.result.Err? then Underflow(x1.items) else
    var x := Pop(x1.items);
    if x.result.Err? then Underflow(x.items) else
    Effect(Ok(()), x.items + [x1.result.value] + [x.result.value])
  }

  /** rot ( a b c -- b c a ): three pops, three pushes. */
  function Rot(s: seq<Token>): (e: Effect<()>)
    ensures Drawn(e.items, s)
    ensures e.result.Ok? <==> |s| >= 3
    ensures |s| >= 3 ==> e.items == s[..|s| - 3] + [s[|s| - 2], s[|s| - 1], s[|s| - 3]]
    ensures |s| < 3 ==> e == Underflow([])
  {
    var x2 := Pop(s);
    if x2.result.Err? then Underflow(x2.items) else
    var x1 := Pop(x2.items);
    if x1.result.Err? then Underflow(x1.items) else
    var x := Pop(x1.items);
    if x.result.Err? then Underflow(x.items) else
    Effect(Ok(()), x.items + [x1.result.value] + [x2.result.value] + [x.result.value])
  }

  /** over ( a b -- a b a ) */
  function Over(s: seq<Token>): (e: Effect<()>)
    ensures Drawn(e.items, s)
    ensures e.result.Ok? <==> |s| >= 2
    ensures |s| >= 2 ==> e.items == s + [s[|s| - 2]]
    ensures |s| < 2 ==> e == Underflow(s)
  {
    if !Require(s, 2) then Underflow(s) else Effect(Ok(()), s + [s[|s| - 2]])
  }

  /** nip ( a b -- b ): swap, then pop. */
  function Nip(s: seq<Token>): (e: Effect<()>)
    ensures Drawn(e.items, s)
    ensures e.result.Ok? <==> |s| >= 2
    ensures |s| >= 2 ==> e.items == s[..|s| - 2] + [s[|s| - 1]]
    ensures |s| < 2 ==> e == Underflow([])
  {
    var w := Swap(s);
    if w.result.Err? then w else
    var p := Pop(w.items);
    Effect(Ok(()), p.items)
  }

  /** tuck ( a b -- b a b ): dup, rot, rot. */
  function Tuck(s: seq<Token>): (e: Effect<()>)
    ensures Drawn(e.items, s)
    ensures e.result.Ok? <==> |s| >= 2
    ensures |s| >= 2 ==> e.items == s[..|s| - 2] + [s[|s| - 1], s[|s| - 2], s[|s| - 1]]
    ensures |s| < 2 ==> e == Underflow([])
  {
    var d := Dup(s);
    if d.result.Err? then d else
    var r1 := Rot(d.items);
    if r1.result.Err? then r1 else
    Rot(r1.items)
  }

  /** 2dup ( a b -- a b a b ): two pushes of the element second from the
      top, the second of them reading the stack the first one grew. */
  function TwoDup(s: seq<Token>): (e: Effect<()>)
    ensures Drawn(e.items, s)
    ensures e.result.Ok? <==> |s| >= 2
    ensures |s| >= 2 ==> e.items == s + [s[|s| - 2], s[|s| - 1]]
    ensures |s| < 2 ==> e == Underflow(s)
  {
    if !Require(s, 2) then Underflow(s) else
    var s1 := s + [s[|s| - 2]];
    Effect(Ok(()), s1 + [s1[|s1| - 2]])
  }

  /** pick ( xu ... x0 u -- xu ... x0 xu ), with u already popped: a copy of
      the element u places below the top. A negative u is an underflow (see
      PickGuardAsWritten for what the C code does with u = -1). */
  function Pick(s: seq<Token>, n: int): (e: Effect<()>)
    ensures Drawn(e.items, s)
    ensures e.result.Ok? <==> 0 <= n < |s|
    ensures 0 <= n < |s| ==> e.items == s + [s[|s| - 1 - n]]
    ensures !(0 <= n < |s|) ==> e == Underflow(s)
  {
    if n < 0 || !Require(s, n + 1) then Underflow(s) else Effect(Ok(()), s + [s[|s| - 1 - n]])
  }

  const SIZE_MAX_PLUS_ONE: int := 0x1_0000_0000_0000_0000

  /** stack_pick((size_t)n) as written: n is converted to a 64-bit size_t,
      `require(n + 1)` is computed modulo 2^64, and the element read is at
      index depth - 1 - n, again modulo 2^64. Returns whether the depth check
      passes and the index that is then read (g.0 and g.1). */
  function PickGuardAsWritten(depth: nat, n: int): (g: (bool, int))
    requires depth < SIZE_MAX_PLUS_ONE
  {
    var u := n % SIZE_MAX_PLUS_ONE;
    var need := (u + 1) % SIZE_MAX_PLUS_ONE;
    (depth >= need, (depth - 1 - u) % SIZE_MAX_PLUS_ONE)
  }

  /** pop, then check the tag: a type mismatch leaves the token popped. */
  function PopNumber(s: seq<Token>): (e: Effect<Int32>)
    ensures Drawn(e.items, s)
    ensures e.result.Err? && e.result.error == StackUnderflow <==> |s| == 0
    ensures e.result.Err? && e.result.error == StackTypeMismatch <==> |s| > 0 && !s[|s| - 1].Number?
    ensures e.result.Ok? ==> |s| > 0 && s[|s| - 1] == Number(e.result.value)
    ensures e.items == if |s| == 0 then s else s[..|s| - 1]
  {
    var p := Pop(s);
    if p.result.Err? then Underflow(p.items)
    else if !p.result.value.Number? then Effect(Err(StackTypeMismatch), p.items)
    else Effect(Ok(p.result.value.number), p.items)
  }

  function PopVariable(s: seq<Token>): (e: Effect<int>)
    ensures Drawn(e.items, s)
    ensures e.result.Err? && e.result.error == StackUnderflow <==> |s| == 0
    ensures e.result.Err? && e.result.error == StackTypeMismatch <==> |s| > 0 && !s[|s| - 1].Variable?
    ensures e.result.Ok? ==> |s| > 0 && s[|s| - 1] == Variable(e.result.value)
    ensures e.items == if |s| == 0 then s else s[..|s| - 1]
  {
    var p := Pop(s);
    if p.result.Err? then Underflow(p.items)
    else if !p.result.value.Variable? then Effect(Err(StackTypeMismatch), p.items)
    else Effect(Ok(p.result.value.variable), p.items)
  }

  function PopLambda(s: seq<Token>): (e: Effect<Slice>)
    ensures Drawn(e.items, s)
    ensures e.result.Err? && e.result.error == StackUnderflow <==> |s| == 0
    ensures e.result.Err? && e.result.error == StackTypeMismatch <==> |s| > 0 && !s[|s| - 1].Lambda?
    ensures e.result.Ok? ==> |s| > 0 && s[|s| - 1] == Lambda(e.result.value)
    ensures e.items == if |s| == 0 then s else s[..|s| - 1]
  {
    var p := Pop(s);
    if p.result.Err? then Underflow(p.items)
    else if !p.result.value.Lambda? then Effect(Err(StackTypeMismatch), p.items)
    else Effect(Ok(p.result.value.lambda), p.items)
  }

  /** As written, pick with n = -1 passes the depth check on any stack,
      even an empty one, and reads index depth: one slot past the top. */
  lemma PickMinusOneReadsPastTop(depth: nat)
    requires depth < SIZE_MAX_PLUS_ONE
    ensures PickGuardAsWritten(depth, -1) == (true, depth)
  {
    var u := -1 % SIZE_MAX_PLUS_ONE;
    assert u == SIZE_MAX_PLUS_ONE - 1;
    assert (u + 1) % SIZE_MAX_PLUS_ONE == 0;
    assert depth - 1 - u == depth - SIZE_MAX_PLUS_ONE;
  }

  /** A pop only lowers the depth of the C array (src/stack.c:89-93), so
      the count pick has just popped still sits in the slot at the depth.
      That slot is not part of the sequence model of the stack: here it is
      supplied as `s + [Number(-1)]`, not derived from a model of the
      array. Given it, when the count is -1 (the program `1_ø`), the read
      one past the top copies it: as written, pick pushes Number(-1)
      instead of failing. */
  lemma PickMinusOneCopiesCount(s: seq<Token>)
    requires |s| < SIZE_MAX_PLUS_ONE
    ensures var slots := s + [Number(-1)];
      var g := PickGuardAsWritten(|s|, -1);
      g.0 && 0 <= g.1 < |slots| && slots[g.1] == Number(-1)
  {
  }

  /** For every other 32-bit n the C guard agrees with Pick: it passes
      exactly when 0 <= n < depth, and then reads the token n below the
      top. */
  lemma PickGuardAgreesElsewhere(s: seq<Token>, n: Int32)
    requires |s| < SIZE_MAX_PLUS_ONE / 2 && n != -1
    ensures PickGuardAsWritten(|s|, n).0 <==> Pick(s, n).result.Ok?
    ensures Pick(s, n).result.Ok? ==>
              0 <= PickGuardAsWritten(|s|, n).1 < |s|
              && Pick(s, n).items == s + [s[PickGuardAsWritten(|s|, n).1]]
  {
    if n < -1 {
      assert n % SIZE_MAX_PLUS_ONE == n + SIZE_MAX_PLUS_ONE;
      assert (n + SIZE_MAX_PLUS_ONE + 1) % SIZE_MAX_PLUS_ONE == n + SIZE_MAX_PLUS_ONE + 1;
    } else {
      assert n % SIZE_MAX_PLUS_ONE == n;
      assert (n + 1) % SIZE_MAX_PLUS_ONE == n + 1;
      if n < |s| {
        assert (|s| - 1 - n) % SIZE_MAX_PLUS_ONE == |s| - 1 - n;
      }
    }
  }

  /** swap undoes itself. */
  lemma SwapTwice(s: seq<Token>)
    requires |s| >= 2
    ensures Swap(s).result.Ok? && Swap(Swap(s).items) == Effect(Ok(()), s)
  {
    var n := |s|;
    assert Swap(s).items == s[..n - 2] + [s[n - 1], s[n - 2]];
    assert s == s[..n - 2] + [s[n - 2], s[n - 1]];
  }

  /** Three rotations bring the top three tokens back in place. */
  lemma RotThrice(s: seq<Token>)
    requires |s| >= 3
    ensures Rot(Rot(Rot(s).items).items) == Effect(Ok(()), s)
  {
    var n := |s|;
    var b := s[..n - 3];
    assert s == b + [s[n - 3], s[n - 2], s[n - 1]];
    assert Rot(s).items == b + [s[n - 2], s[n - 1], s[n - 3]];
    assert Rot(Rot(s).items).items == b + [s[n - 1], s[n - 3], s[n - 2]];
  }

  /** tuck is swap followed by over. */
  lemma TuckIsSwapOver(s: seq<Token>)
    ensures Swap(s).result.Ok? ==> Tuck(s) == Over(Swap(s).items)
    ensures Swap(s).result.Err? ==> Tuck(s).result == Swap(s).result
  {
    if |s| >= 2 {
      var n := |s|;
      assert Swap(s).items == s[..n - 2] + [s[n - 1], s[n - 2]];
    }
  }

  /** 2dup is over twice. */
  lemma TwoDupIsOverOver(s: seq<Token>)
    ensures Over(s).result.Ok? ==> TwoDup(s) == Over(Over(s).items)
    ensures Over(s).result.Err? ==> TwoDup(s).result == Over(s).result
  {
  }

  /** ø with 0 is dup and with 1 is over. */
  lemma PickIsDupAndOver(s: seq<Token>)
    ensures Pick(s, 0) == Dup(s)
    ensures Pick(s, 1) == Over(s)
  {
  }
}

/** stack.c: the stack as one object whose token sequence the operations
    reassign, each proved to do what the matching StackSpec function
    describes. */
module Stacks {
  import opened MachineInt
  import opened Slices
  import opened Tokens
  import opened Failures
  import S = StackSpec

  class Stack {
    var items: seq<Token>

    constructor ()
      ensures items == []
    {
      items := [];
    }

    /** stack_init */
    method Init()
      modifies this
      ensures items == []
    {
      items := [];
    }

    /** stack_empty */
    function Empty(): (b: bool)
      reads this
      ensures b <==> |items| == 0
    {
      |items| == 0
    }

    /** stack_size */
    function Size(): (n: nat)
      reads this
      ensures n == |items|
    {
      |items|
    }

    /** push / stack_push */
    method Push(t: Token)
      modifies this
      ensures items == old(items) + [t]
    {
      items := items + [t];
    }

    /** pop / stack_pop */
    method Pop() returns (r: Result<Token>)
      modifies this
      ensures r == S.Pop(old(items)).result && items == S.Pop(old(items)).items
    {
      if !S.Require(items, 1) {
        return Err(StackUnderflow);
      }
      r := Ok(items[|items| - 1]);
      items := items[..|items| - 1];
    }

    method Dup() returns (r: Result<()>)
      modifies this
      ensures r == S.Dup(old(items)).result && items == S.Dup(old(items)).items
    {
      if !S.Require(items, 1) {
        return Err(StackUnderflow);
      }
      Push(items[|items| - 1]);
      r := Ok(());
    }

    method Drop() returns (r: Result<()>)
      modifies this
      ensures r == S.Drop(old(items)).result && items == S.Drop(old(items)).items
    {
      var a := Pop();
      if a.Err? {
        return Err(a.error);
      }
      r := Ok(());
    }

    method Swap() returns (r: Result<()>)
      modifies this
      ensures r == S.Swap(old(items)).result && items == S.Swap(old(items)).items
    {
      var x1 := Pop();
      if x1.Err? {
        return Err(x1.error);
      }
      var x := Pop();
      if x.Err? {
        return Err(x.error);
      }
      Push(x1.value);
      Push(x.value);
      r := Ok(());
    }

    method Rot() returns (r: Result<()>)
      modifies this
      ensures r == S.Rot(old(items)).result && items == S.Rot(old(items)).items
    {
      var x2 := Pop();
      if x2.Err? {
        return Err(x2.error);
      }
      var x1 := Pop();
      if x1.Err? {
        return Err(x1.error);
      }
      var x := Pop();
      if x.Err? {
        return Err(x.error);
      }
      Push(x1.value);
      Push(x2.value);
      Push(x.value);
      r := Ok(());
    }

    method Over() returns (r: Result<()>)
      modifies this
      ensures r == S.Over(old(items)).result && items == S.Over(old(items)).items
    {
      if !S.Require(items, 2) {
        return Err(StackUnderflow);
      }
      Push(items[|items| - 2]);
      r := Ok(());
    }

    method Nip() returns (r: Result<()>)
      modifies this
      ensures r == S.Nip(old(items)).result && items == S.Nip(old(items)).items
    {
      r := Swap();
      if r.Err? {
        return;
      }
      var _ := Pop();
    }

    method Tuck() returns (r: Result<()>)
      modifies this
      ensures r == S.Tuck(old(items)).result && items == S.Tuck(old(items)).items
    {
      r := Dup();
      if r.Err? {
        return;
      }
      r := Rot();
      if r.Err? {
        return;
      }
      r := Rot();
    }

    method TwoDup() returns (r: Result<()>)
      modifies this
      ensures r == S.TwoDup(old(items)).result && items == S.TwoDup(old(items)).items
    {
      if !S.Require(items, 2) {
        return Err(StackUnderflow);
      }
      Push(items[|items| - 2]);
      Push(items[|items| - 2]);
      r := Ok(());
    }

    method Pick(n: int) returns (r: Result<()>)
      modifies this
      ensures r == S.Pick(old(items), n).result && items == S.Pick(old(items), n).items
    {
      if n < 0 || !S.Require(items, n + 1) {
        return Err(StackUnderflow);
      }
      Push(items[|items| - 1 - n]);
      r := Ok(());
    }

    method PopNumber() returns (r: Result<Int32>)
      modifies this
      ensures r == S.PopNumber(old(items)).result && items == S.PopNumber(old(items)).items
    {
      var t := Pop();
      if t.Err? {
        return Err(t.error);
      }
      if !t.value.Number? {
        return Err(StackTypeMismatch);
      }
      r := Ok(t.value.number);
    }

    method PopVariable() returns (r: Result<int>)
      modifies this
      ensures r == S.PopVariable(old(items)).result && items == S.PopVariable(old(items)).items
    {
      var t := Pop();
      if t.Err? {
        return Err(t.error);
      }
      if !t.value.Variable? {
        return Err(StackTypeMismatch);
      }
      r := Ok(t.value.variable);
    }

    method PopLambda() returns (r: Result<Slice>)
      modifies this
      ensures r == S.PopLambda(old(items)).result && items == S.PopLambda(old(items)).items
    {
      var t := Pop();
      if t.Err? {
        return Err(t.error);
      }
      if !t.value.Lambda? {
        return Err(StackTypeMismatch);
      }
      r := Ok(t.value.lambda);
    }
  }
}
