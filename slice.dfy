/** A non-owning view [buf, end) into the program text. Pointers are offsets
    into that one buffer, or the null pointer. */
module Slices {

  /** One octet of the program text. */
  type byte = x: int | 0 <= x < 256

  datatype Ptr = Null | At(offset: nat)

  datatype Slice = Slice(buf: Ptr, end: Ptr)

  /** Both ends null, or both ends in the buffer with buf not after end. */
  predicate Valid(s: Slice)
  {
    || (s.buf.Null? && s.end.Null?)
    || (s.buf.At? && s.end.At? && s.buf.offset <= s.end.offset)
  }

  /** Both ends in a buffer of n bytes. */
  predicate Within(s: Slice, n: nat)
  {
    s.buf.At? && s.end.At? && s.buf.offset <= s.end.offset <= n
  }

  /** slice_make: a null buffer gives the null slice; otherwise the view
      starts at buf and ends len bytes later. */
  function Make(buf: Ptr, len: nat): (s: Slice)
    ensures Valid(s)
    ensures buf.Null? ==> s.buf.Null? && s.end.Null?
    ensures buf.At? ==> s.buf == buf && s.end.At? && s.end.offset - s.buf.offset == len
  {
    if buf.Null? then Slice(Null, Null) else Slice(buf, At(buf.offset + len))
  }

  /** slice_length: the distance from buf to end. */
  function Length(s: Slice): (n: nat)
    requires Valid(s)
    ensures s.buf.Null? ==> n == 0
    ensures s.buf.At? ==> s.buf.offset + n == s.end.offset
  {
    if s.buf.Null? then 0 else s.end.offset - s.buf.offset
  }

  /** The length of a slice made from a buffer is the length it was made with,
      and the null slice is empty. */
  lemma LengthOfMake(buf: Ptr, len: nat)
    ensures Length(Make(buf, len)) == if buf.Null? then 0 else len
  {
  }
}
