/** The 26 variable cells of storage.c as a function on a sequence of 26
    tokens, cell 0 holding `a`. Reads and writes through a character that is
    not an ASCII lower-case letter are silently ignored (a read gives 0). */
module StorageSpec {
  import opened Tokens
  import opened Locale

  const CELLS: nat := 26

  /** storage_clear: every cell holds the number 0. */
  function Cleared(): (cells: seq<Token>)
    ensures |cells| == CELLS
    ensures forall i :: 0 <= i < CELLS ==> cells[i] == Number(0)
  {
    seq(CELLS, _ => Number(0))
  }

  /** storage_get */
  function Get(cells: seq<Token>, c: int): (t: Token)
    requires |cells| == CELLS
    ensures !IsLower(c) ==> t == Number(0)
    ensures t == Number(0) || t in cells
  {
    if !IsLower(c) then Number(0) else cells[c - 'a' as int]
  }

  /** storage_set */
  function Set(cells: seq<Token>, c: int, t: Token): (r: seq<Token>)
    requires |cells| == CELLS
    ensures |r| == CELLS
    ensures !IsLower(c) ==> r == cells
    ensures forall u :: u in r ==> u in cells || u == t
  {
    if !IsLower(c) then cells else cells[c - 'a' as int := t]
  }

  /** Reading a letter back gives what was last written to it; every other
      cell, and every read through a non-letter, is unaffected by the write. */
  lemma GetAfterSet(cells: seq<Token>, c: int, t: Token, d: int)
    requires |cells| == CELLS
    ensures Get(Set(cells, c, t), d) == if IsLower(c) && d == c then t else Get(cells, d)
  {
  }
}

/** storage.c: the cells as a fixed array of 26 tokens that storage_set
    overwrites and storage_clear resets with a loop. */
module Storages {
  import opened Tokens
  import opened Locale
  import S = StorageSpec

  class Storage {
    const cells: array<Token>

    ghost predicate Valid()
    {
      cells.Length == S.CELLS
    }

    constructor ()
      ensures Valid() && fresh(cells)
      ensures cells[..] == S.Cleared()
    {
      cells := new Token[S.CELLS](_ => Number(0));
    }

    /** storage_clear */
    method Clear()
      requires Valid()
      modifies cells
      ensures cells[..] == S.Cleared()
    {
      var i := 0;
      while i < cells.Length
        invariant 0 <= i <= cells.Length
        invariant forall k :: 0 <= k < i ==> cells[k] == Number(0)
      {
        cells[i] := Number(0);
        i := i + 1;
      }
    }

    /** storage_get */
    function Get(c: int): (t: Token)
      requires Valid()
      reads cells
      ensures t == S.Get(cells[..], c)
    {
      if !IsLower(c) then Number(0) else cells[c - 'a' as int]
    }

    /** storage_set */
    method Set(c: int, t: Token)
      requires Valid()
      modifies cells
      ensures cells[..] == S.Set(old(cells[..]), c, t)
    {
      if !IsLower(c) {
        return;
      }
      cells[c - 'a' as int] := t;
    }
  }
}
