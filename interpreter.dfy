/** The helpers of the command-line host in interpreter.c that the
    interpreter's behaviour depends on: locating a diagnostic position in the
    program text, skipping a `#!` header, removing an option from argv, and
    the `input`/`flush` callbacks that feed `^` from an `--input` string and
    then from standard input. */
module Host {
  import opened Slices
  import opened MachineInt
  import opened Failures

  /** The byte at i of a C string whose bytes before the terminator are
      `text`: the terminator itself reads as 0. */
  function Char(text: seq<byte>, i: nat): byte
  {
    if i < |text| then text[i] else 0
  }

  const NEWLINE: byte := '\n' as int

  /** The number of newlines in s. */
  function Newlines(s: seq<byte>): (n: nat)
    ensures n <= |s|
  {
    if |s| == 0 then 0 else Newlines(s[..|s| - 1]) + (if s[|s| - 1] == NEWLINE then 1 else 0)
  }

  /** The offset of the first byte of the line holding offset k: just after
      the last newline before k, or 0. */
  function LineStart(text: seq<byte>, k: nat): (r: nat)
    requires k <= |text|
    ensures r <= k
    ensures r == 0 || text[r - 1] == NEWLINE
    ensures forall i :: r <= i < k ==> text[i] != NEWLINE
  {
    if k == 0 then 0 else if text[k - 1] == NEWLINE then k else LineStart(text, k - 1)
  }

  /** The offset of the first newline at or after k, or the end of the
      text. */
  function LineEnd(text: seq<byte>, k: nat): (r: nat)
    requires k <= |text|
    ensures k <= r <= |text|
    ensures r == |text| || text[r] == NEWLINE
    ensures forall i :: k <= i < r ==> text[i] != NEWLINE
    decreases |text| - k
  {
    if k == |text| || text[k] == NEWLINE then k else LineEnd(text, k + 1)
  }

  /** struct position: 1-based line, 1-based byte column, and the bounds of
      the line. */
  datatype Position = Position(line: nat, ch: nat, bol: Ptr, eol: Ptr)

  /** position_of: a null position gives the all-zero position; otherwise the
      line is one more than the newlines before pos, bol and eol bracket the
      line holding pos, and ch counts bytes from bol to pos inclusive. */
  method PositionOf(text: seq<byte>, pos: Ptr) returns (r: Position)
    requires pos.At? ==> pos.offset <= |text|
    ensures pos.Null? ==> r == Position(0, 0, Null, Null)
    ensures pos.At? ==> r.line == 1 + Newlines(text[..pos.offset])
    ensures pos.At? ==> r.bol == At(LineStart(text, pos.offset)) && r.ch == pos.offset - r.bol.offset + 1
    ensures pos.At? ==> r.eol == At(LineEnd(text, pos.offset))
  {
    var line: nat := 0;
    var ch: nat := 0;
    var bol: Ptr := Null;
    var eol: Ptr := Null;
    if pos.Null? {
      return Position(line, ch, bol, eol);
    }
    var advance := true;
    var p: nat := 0;
    while p <= pos.offset
      invariant 0 <= p <= pos.offset + 1
      invariant p == 0 ==> line == 0 && ch == 0 && bol.Null? && advance
      invariant p > 0 ==> line == 1 + Newlines(text[..p - 1])
      invariant p > 0 ==> bol == At(LineStart(text, p - 1)) && ch == p - LineStart(text, p - 1)
      invariant p > 0 ==> advance == (Char(text, p - 1) == NEWLINE)
    {
      if advance {
        advance := false;
        line := line + 1;
        ch := 0;
        bol := At(p);
      }
      if p > 0 {
        assert text[..p][..p - 1] == text[..p - 1];
      }
      advance := Char(text, p) == NEWLINE;
      ch := ch + 1;
      p := p + 1;
    }
    var e := pos.offset;
    while e < |text| && text[e] != NEWLINE
      invariant pos.offset <= e <= |text|
      invariant LineEnd(text, e) == LineEnd(text, pos.offset)
      decreases |text| - e
    {
      e := e + 1;
    }
    eol := At(e);
    return Position(line, ch, bol, eol);
  }

  /** The offset of the first occurrence of b at or after i, if any. */
  function Find(text: seq<byte>, b: byte, i: nat): (r: Option<nat>)
    requires i <= |text|
    ensures r.Some? ==> i <= r.value < |text| && text[r.value] == b
    ensures forall k :: i <= k < |text| && (r.None? || k < r.value) ==> text[k] != b
    decreases |text| - i
  {
    if i == |text| then None else if text[i] == b then Some(i) else Find(text, b, i + 1)
  }

  /** skip_magic: a text that starts with `#!` and has a newline is entered
      at that first newline (so line numbers stay right); any other text is
      entered at its start. */
  function SkipMagic(text: seq<byte>): (r: nat)
    ensures r < |text| || r == 0
    ensures r > 0 <==> Char(text, 0) == '#' as int && Char(text, 1) == '!' as int && NEWLINE in text
    ensures r > 0 ==> text[r] == NEWLINE && NEWLINE !in text[..r]
  {
    if Char(text, 0) == '#' as int && Char(text, 1) == '!' as int then
      var nl := Find(text, NEWLINE, 0);
      if nl.Some? then
        assert text[nl.value] == NEWLINE;
        nl.value
      else
        assert forall k :: 0 <= k < |text| ==> text[k] != NEWLINE;
        0
    else
      0
  }

  /** drop: removes entry i of the first argc entries of argv by moving the
      later ones down one place, as memmove does, and returns the new count.
      The entries from the new count on are left as they were. */
  method Drop<T>(i: int, argc: int, argv: array<T>) returns (n: int)
    requires 0 <= i < argc <= argv.Length
    modifies argv
    ensures n == argc - 1
    ensures argv[..n] == old(argv[..i]) + old(argv[i + 1..argc])
    ensures argv[n..] == old(argv[n..])
  {
    n := argc - 1;
    var k := i;
    while k < n
      invariant i <= k <= n
      invariant forall j :: 0 <= j < i ==> argv[j] == old(argv[j])
      invariant forall j :: i <= j < k ==> argv[j] == old(argv[j + 1])
      invariant forall j :: k <= j < argv.Length ==> argv[j] == old(argv[j])
    {
      argv[k] := argv[k + 1];
      k := k + 1;
    }
    assert argv[..n] == old(argv[..i]) + old(argv[i + 1..argc]);
  }

  /** What the host's `input` callback still has to give: the rest of the
      `--input` string (None once it has been used up or flushed) and the
      bytes of standard input. */
  datatype Feed = Feed(buffered: Option<seq<byte>>, stdin: seq<byte>)

  /** A `char` read from the `--input` string, promoted to `int` on a target
      where `char` is signed. */
  function SignedChar(b: byte): (c: Int32)
    ensures -128 <= c < 128
    ensures (c - b) % 256 == 0
  {
    if b < 128 then b else b - 256
  }

  /** One value and the feed that is left. */
  datatype Got = Got(value: Int32, rest: Feed)

  const EOF: Int32 := -1

  /** input: the next byte of the `--input` string; at its terminator one
      newline, after which the string is forgotten; then getchar, which gives
      a byte as 0..255 or EOF at the end of standard input. */
  function Read(f: Feed): (g: Got)
    ensures f.buffered.Some? ==> g.rest.stdin == f.stdin
    ensures f.buffered.None? ==> g.rest.buffered.None?
    ensures f.buffered.None? && |f.stdin| == 0 ==> g == Got(EOF, f)
  {
    match f.buffered
    case Some(b) =>
      if |b| > 0 && b[0] != 0 then Got(SignedChar(b[0]), f.(buffered := Some(b[1..])))
      else Got(NEWLINE, f.(buffered := None))
    case None =>
      if |f.stdin| > 0 then Got(f.stdin[0], f.(stdin := f.stdin[1..])) else Got(EOF, f)
  }

  /** flush: forgets what is left of the `--input` string. */
  function Flushed(f: Feed): (r: Feed)
    ensures r.buffered.None? && r.stdin == f.stdin
  {
    if f.buffered.Some? then f.(buffered := None) else f
  }

  /** k successive reads. */
  datatype Reads = Reads(values: seq<Int32>, rest: Feed)

  function ReadMany(f: Feed, k: nat): (r: Reads)
    ensures |r.values| == k
    decreases k
  {
    if k == 0 then Reads([], f)
    else
      var g := Read(f);
      var more := ReadMany(g.rest, k - 1);
      Reads([g.value] + more.values, more.rest)
  }

  function SignedChars(b: seq<byte>): (r: seq<Int32>)
    ensures |r| == |b|
    ensures forall i :: 0 <= i < |b| ==> r[i] == SignedChar(b[i])
  {
    if |b| == 0 then [] else [SignedChar(b[0])] + SignedChars(b[1..])
  }

  /** The `--input` string is read byte by byte, followed by exactly one
      newline, and then the feed holds standard input alone. */
  lemma {:induction false} BufferedThenNewline(b: seq<byte>, stdin: seq<byte>)
    requires forall i :: 0 <= i < |b| ==> b[i] != 0
    ensures ReadMany(Feed(Some(b), stdin), |b| + 1) == Reads(SignedChars(b) + [NEWLINE], Feed(None, stdin))
    decreases |b|
  {
    if |b| > 0 {
      BufferedThenNewline(b[1..], stdin);
      assert SignedChars(b) == [SignedChar(b[0])] + SignedChars(b[1..]);
    }
  }

  /** Without an `--input` string the bytes of standard input are read in
      order, and EOF after them. */
  lemma {:induction false} StdinThenEof(stdin: seq<byte>)
    ensures ReadMany(Feed(None, stdin), |stdin| + 1) == Reads(stdin + [EOF], Feed(None, []))
    decreases |stdin|
  {
    if |stdin| > 0 {
      StdinThenEof(stdin[1..]);
      assert stdin == [stdin[0]] + stdin[1..];
    }
  }

  /** The host's input state: the static `buffered_input` pointer, advanced
      by each read, and standard input. */
  class HostInput {
    var buffered: Option<seq<byte>>
    var stdin: seq<byte>

    function Current(): Feed
      reads this
    {
      Feed(buffered, stdin)
    }

    constructor (input: Option<seq<byte>>, standardInput: seq<byte>)
      ensures Current() == Feed(input, standardInput)
    {
      buffered := input;
      stdin := standardInput;
    }

    /** input */
    method Input() returns (c: Int32)
      modifies this
      ensures Got(c, Current()) == Read(old(Current()))
    {
      if buffered.Some? {
        var b := buffered.value;
        if |b| > 0 && b[0] != 0 {
          buffered := Some(b[1..]);
          return SignedChar(b[0]);
        }
        buffered := None;
        return NEWLINE;
      }
      if |stdin| > 0 {
        c := stdin[0];
        stdin := stdin[1..];
        return c;
      }
      return EOF;
    }

    /** flush */
    method Flush()
      modifies this
      ensures Current() == Flushed(old(Current()))
    {
      if buffered.Some? {
        buffered := None;
      }
    }
  }
}
