/** Bytes, and buffers of bytes that are written to at a position. */
module Bytes {

  type byte = b: int | 0 <= b < 0x100
  type word = w: int | 0 <= w < 0x1_0000

  /** The buffer after the bytes `b` have been written at `pos`. */
  function Overwrite(s: seq<byte>, pos: nat, b: seq<byte>): (r: seq<byte>)
    requires pos + |b| <= |s|
    ensures |r| == |s|
  {
    s[..pos] + b + s[pos + |b|..]
  }

  lemma Regroup<T>(a: seq<T>, b: seq<T>, c: seq<T>)
    ensures a + (b + c) == a + b + c
  {
  }

  lemma OverwriteOn(s: seq<byte>, pos: nat, a: seq<byte>, b: seq<byte>)
    requires pos + |a| + |b| <= |s|
    ensures Overwrite(Overwrite(s, pos, a), pos + |a|, b) == Overwrite(s, pos, a + b)
  {
  }

  lemma OverwriteBefore(s: seq<byte>, pos: nat, a: seq<byte>, b: seq<byte>)
    requires pos + |a| + |b| <= |s|
    ensures Overwrite(Overwrite(s, pos + |a|, b), pos, a) == Overwrite(s, pos, a + b)
  {
  }

  lemma OverwriteNothing(s: seq<byte>, pos: nat)
    requires pos <= |s|
    ensures Overwrite(s, pos, []) == s
  {
  }

  lemma OverwriteReads(s: seq<byte>, pos: nat, b: seq<byte>)
    requires pos + |b| <= |s|
    ensures Overwrite(s, pos, b)[pos..pos + |b|] == b
    ensures Overwrite(s, pos, b)[..pos] == s[..pos] && Overwrite(s, pos, b)[pos + |b|..] == s[pos + |b|..]
  {
  }

  /** Writes the byte behind those in `done`. */
  method PutByte(buffer: array<byte>, i: nat, x: byte, ghost was: seq<byte>, ghost pos: nat, ghost done: seq<byte>)
    requires i < buffer.Length && |was| == buffer.Length && i == pos + |done|
    requires buffer[..] == Overwrite(was, pos, done)
    modifies buffer
    ensures buffer[..] == Overwrite(was, pos, done + [x])
  {
    buffer[i] := x;
  }

  /** Copies bytes into the buffer. */
  method Copy(buffer: array<byte>, pos: nat, b: seq<byte>)
    requires pos + |b| <= buffer.Length
    modifies buffer
    ensures buffer[..] == Overwrite(old(buffer[..]), pos, b)
  {
    for i := 0 to |b|
      invariant buffer[..] == Overwrite(old(buffer[..]), pos, b[..i])
    {
      assert b[..i + 1] == b[..i] + [b[i]];
      buffer[pos + i] := b[i];
    }
    assert b[..|b|] == b;
  }
}
