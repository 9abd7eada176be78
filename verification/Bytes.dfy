/** Bytes and memcpy. */
module Bytes {
  newtype byte = x: int | 0 <= x < 256

  /** memcpy into a buffer. */
  method CopyIn(buffer: array<byte>, at: nat, data: seq<byte>)
    requires at + |data| <= buffer.Length
    modifies buffer
    ensures buffer[..] == old(buffer[..at]) + data + old(buffer[at + |data|..])
  {
    ghost var before := buffer[..];
    for i := 0 to |data|
      invariant forall p :: 0 <= p < buffer.Length ==>
        buffer[p] == if at <= p < at + i then data[p - at] else before[p]
    {
      buffer[at + i] := data[i];
    }
  }

  /** memcpy out of a buffer. */
  method CopyOut(buffer: array<byte>, at: nat, n: nat) returns (data: seq<byte>)
    requires at + n <= buffer.Length
    ensures data == buffer[at..at + n]
  {
    data := [];
    for i := 0 to n
      invariant data == buffer[at..at + i]
    {
      data := data + [buffer[at + i]];
    }
  }
}
