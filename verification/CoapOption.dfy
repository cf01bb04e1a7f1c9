/** The option format of CoAP draft 12: option numbers are sent as differences, long differences
    as a jump before the option, and lengths from 15 on in additional bytes. */
module CoapOption {

  import opened Arithmetic
  import opened Bytes

  const JUMP_1: byte := 0xF1
  const JUMP_2: byte := 0xF2
  const JUMP_3: byte := 0xF3
  const TERMINATOR: byte := 0xF0

  // ----- Integers

  /** The bytes of a 32-bit number, without leading zeros. */
  function IntBytes(v: nat): (r: seq<byte>)
    requires v < 0x1_0000_0000
    ensures |r| <= 4
  {
    if v >= 0x100_0000 then [v / 0x100_0000, v / 0x1_0000 % 0x100, v / 0x100 % 0x100, v % 0x100]
    else if v >= 0x1_0000 then [v / 0x1_0000, v / 0x100 % 0x100, v % 0x100]
    else if v >= 0x100 then [v / 0x100, v % 0x100]
    else if v > 0 then [v]
    else []
  }

  /** The number a sequence of bytes stands for, in 32 bits. */
  function IntValue(b: seq<byte>): (r: nat)
    ensures r < 0x1_0000_0000
  {
    if b == [] then 0 else (IntValue(b[..|b| - 1]) * 0x100 + b[|b| - 1]) % 0x1_0000_0000
  }

  lemma IntBytesStep(v: nat)
    requires 0 < v < 0x1_0000_0000
    ensures IntBytes(v) == IntBytes(v / 0x100) + [v % 0x100]
  {
  }

  lemma IntValueStep(b: seq<byte>, x: byte)
    ensures IntValue(b + [x]) == (IntValue(b) * 0x100 + x) % 0x1_0000_0000
  {
    assert (b + [x])[..|b|] == b;
  }

  lemma {:induction false} IntRoundTrip(v: nat)
    requires v < 0x1_0000_0000
    ensures IntValue(IntBytes(v)) == v
  {
    if v > 0 {
      hide IntBytes, IntValue;
      IntRoundTrip(v / 0x100);
      IntBytesStep(v);
      IntValueStep(IntBytes(v / 0x100), v % 0x100);
      assert IntValue(IntBytes(v)) == v;
    }
  }

  method ParseIntOption(bytes: seq<byte>) returns (v: nat)
    ensures v == IntValue(bytes)
  {
    v := 0;
    for i := 0 to |bytes|
      invariant v == IntValue(bytes[..i])
    {
      assert bytes[..i + 1][..i] == bytes[..i];
      v := (v * 0x100 + bytes[i]) % 0x1_0000_0000;
    }
    assert bytes[..|bytes|] == bytes;
  }

  /** The logarithm rounded down, and 0 for 0. */
  function Log(v: nat): nat { if v < 2 then 0 else Log(v / 2) + 1 }

  lemma {:induction false} LogBounds(v: nat)
    requires v > 0
    ensures Pow2(Log(v)) <= v < 2 * Pow2(Log(v))
  {
    if v >= 2 {
      LogBounds(v / 2);
    }
  }

  method Log2(value: nat) returns (r: nat)
    ensures r == Log(value)
  {
    var v := value / 2;
    r := 1;
    while v != 0
      invariant v >= 0 && r > 0 && Log(value) == r - 1 + (if v == 0 then 0 else Log(v) + 1)
    {
      v := v / 2;
      r := r + 1;
    }
    r := r - 1;
  }

  // ----- Option headers

  /** The bytes behind a length nibble of 15. */
  function Extension(n: nat): (r: seq<byte>)
    ensures |r| > 0
  {
    if n > 254 then [255] + Extension(n - 255) else [n]
  }

  /** The first byte of an option, and those of a long length. */
  function Header(delta: nat, length: nat): (r: seq<byte>)
    ensures |r| > 0
  {
    if length < 15 then [delta % 16 * 16 + length] else [delta % 16 * 16 + 15] + Extension(length - 15)
  }

  /** What is sent before an option for a difference of 15 or more. */
  function Jump(delta: nat): seq<byte> {
    if delta < 15 then []
    else if delta < 30 then [JUMP_1]
    else if delta < 2064 then [JUMP_2, delta / 8 - 2]
    else [JUMP_3, (delta / 8 - 258) / 0x100 % 0x100, (delta / 8 - 258) % 0x100]
  }

  /** By how much the sender takes the number to have gone on. */
  function JumpSent(delta: nat): (r: nat)
    ensures r <= delta
  {
    if delta < 15 then 0
    else if delta < 30 then 15
    else if delta < 2064 then delta / 8 - 2
    else delta / 8 - 258
  }

  datatype Option = Option(number: nat, value: seq<byte>)

  function EncodeOption(current: nat, o: Option): (r: seq<byte>)
    requires current <= o.number
    ensures |r| > 0
  {
    var delta := o.number - current;
    Jump(delta) + Header(delta - JumpSent(delta), |o.value|) + o.value
  }

  method SetOptionHeader(delta: nat, length: nat, buffer: array<byte>, pos: nat) returns (n: nat)
    requires pos + |Header(delta, length)| <= buffer.Length
    modifies buffer
    ensures n == |Header(delta, length)| && buffer[..] == Overwrite(old(buffer[..]), pos, Header(delta, length))
  {
    hide Extension, Overwrite;
    ghost var was := buffer[..];
    ghost var done: seq<byte> := [];
    OverwriteNothing(was, pos);
    if length < 15 {
      PutByte(buffer, pos, length + delta % 16 * 16, was, pos, done);
      assert done + [length + delta % 16 * 16] == Header(delta, length);
      return 1;
    }
    var size := 0;
    PutByte(buffer, pos, delta % 16 * 16 + 15, was, pos, done);
    done := [delta % 16 * 16 + 15];
    assert [] + done == done;
    var rest := length - 15;
    while rest > 254
      invariant size + 1 == |done| && done + Extension(rest) == Header(delta, length)
      invariant buffer[..] == Overwrite(was, pos, done)
    {
      ExtensionStep(done, rest);
      size := size + 1;
      PutByte(buffer, pos + size, 255, was, pos, done);
      done := done + [255];
      rest := rest - 255;
    }
    ExtensionStep(done, rest);
    size := size + 1;
    PutByte(buffer, pos + size, rest, was, pos, done);
    n := size + 1;
  }

  lemma ExtensionStep(done: seq<byte>, n: nat)
    ensures n > 254 ==> done + Extension(n) == done + [255] + Extension(n - 255)
    ensures n <= 254 ==> done + Extension(n) == done + [n]
    ensures |Extension(n)| > 0
  {
  }

  method InsertOptionJump(number: nat, current: nat, buffer: array<byte>, pos: nat) returns (n: nat, next: nat)
    requires current <= number < 0x1_0000 && pos + |Jump(number - current)| <= buffer.Length
    modifies buffer
    ensures n == |Jump(number - current)| && next == current + JumpSent(number - current)
    ensures buffer[..] == Overwrite(old(buffer[..]), pos, Jump(number - current))
  {
    var delta := number - current;
    if delta < 15 {
      return 0, current;
    } else if delta < 30 {
      buffer[pos] := JUMP_1;
      return 1, current + 15;
    } else if delta < 2064 {
      buffer[pos] := JUMP_2;
      buffer[pos + 1] := delta / 8 - 2;
      return 2, current + (delta / 8 - 2);
    } else {
      buffer[pos] := JUMP_3;
      buffer[pos + 1] := (delta / 8 - 258) / 0x100;
      buffer[pos + 2] := (delta / 8 - 258) % 0x100;
      return 3, current + (delta / 8 - 258);
    }
  }
}
