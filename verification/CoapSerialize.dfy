/** Serializing a packet into a buffer. */
module CoapSerialize {

  import opened Bytes
  import opened CoapOption
  import opened CoapStream
  import opened CoapText
  import opened CoapPacket

  // ----- What is written

  function Terminated(count: nat): seq<byte> { if count > 14 then [TERMINATOR] else [] }

  /** The options behind the fixed header. */
  function OptionBytes(p: Packet): seq<byte>
    requires p.Valid() && Sorted(0, OptionsFrom(p.fields, 0))
  {
    EncodeList(0, OptionsFrom(p.fields, 0)) + Terminated(|OptionsFrom(p.fields, 0)|)
  }

  function FixedHeader(p: Packet, count: nat): (r: seq<byte>)
    requires p.Valid()
    ensures |r| == HEADER_LEN
  {
    [64 + p.kind * 16 + (if count > 14 then 15 else count), p.code, p.mid / 0x100, p.mid % 0x100]
  }

  /** The whole message. */
  function MessageBytes(p: Packet): seq<byte>
    requires p.Valid() && Sorted(0, OptionsFrom(p.fields, 0))
  {
    FixedHeader(p, |OptionsFrom(p.fields, 0)|) + OptionBytes(p) + p.payload
  }

  // ----- The options of a packet are in the order of their numbers

  ghost predicate AllOf(number: nat, os: seq<Option>) {
    forall i | 0 <= i < |os| :: os[i].number == number
  }

  lemma {:induction false} SortedOf(current: nat, number: nat, os: seq<Option>)
    requires AllOf(number, os) && current <= number
    ensures Sorted(current, os) && Last(current, os) == if os == [] then current else number
    decreases |os|
  {
    if os != [] {
      SortedOf(number, number, os[1..]);
    }
  }

  lemma {:induction false} SortedTogether(current: nat, a: seq<Option>, b: seq<Option>)
    requires Sorted(current, a) && Sorted(Last(current, a), b)
    ensures Sorted(current, a + b)
    ensures EncodeList(current, a + b) == EncodeList(current, a) + EncodeList(Last(current, a), b)
    ensures Last(current, a + b) == Last(Last(current, a), b)
    decreases |a|
  {
    hide EncodeOption;
    if a == [] {
      assert a + b == b;
      assert [] + EncodeList(current, b) == EncodeList(current, b);
    } else {
      assert (a + b)[1..] == a[1..] + b;
      SortedTogether(a[0].number, a[1..], b);
      Regroup(EncodeOption(current, a[0]), EncodeList(a[0].number, a[1..]), EncodeList(Last(current, a), b));
    }
  }

  lemma {:induction false} IntOptionsOf(number: nat, vs: seq<nat>)
    requires forall i | 0 <= i < |vs| :: vs[i] < 0x1_0000
    ensures |IntOptions(number, vs)| == |vs|
    ensures forall i | 0 <= i < |vs| :: IntOptions(number, vs)[i] == Option(number, IntBytes(vs[i]))
  {
    if vs != [] {
      IntOptionsOf(number, vs[1..]);
    }
  }

  lemma OneNumber(number: nat, f: Field)
    requires Settable(number, f)
    ensures AllOf(number, OptionsOf(number, f))
  {
    hide IntBytes, Parts, KindOf;
    if f.Numbers? {
      IntOptionsOf(number, f.values);
    }
  }

  /** The options of the fields below `n`. */
  function OptionsBelow(fields: map<nat, Field>, n: nat): seq<Option>
    requires forall k | k in fields :: Settable(k, fields[k])
  {
    if n == 0 then [] else OptionsBelow(fields, n - 1) + (if n - 1 in fields then OptionsOf(n - 1, fields[n - 1]) else [])
  }

  lemma {:induction false} SortedBelow(fields: map<nat, Field>, n: nat)
    requires forall k | k in fields :: Settable(k, fields[k])
    ensures Sorted(0, OptionsBelow(fields, n)) && (n > 0 ==> Last(0, OptionsBelow(fields, n)) < n)
    ensures n == 0 ==> Last(0, OptionsBelow(fields, n)) == 0
  {
    hide OptionsOf, Settable, EncodeList;
    if n > 0 {
      SortedBelow(fields, n - 1);
      if n - 1 in fields {
        var os := OptionsOf(n - 1, fields[n - 1]);
        OneNumber(n - 1, fields[n - 1]);
        SortedOf(Last(0, OptionsBelow(fields, n - 1)), n - 1, os);
        SortedTogether(0, OptionsBelow(fields, n - 1), os);
      } else {
        assert OptionsBelow(fields, n - 1) + [] == OptionsBelow(fields, n - 1);
      }
    }
  }

  lemma {:induction false} BelowAndFrom(fields: map<nat, Field>, n: nat)
    requires (forall k | k in fields :: Settable(k, fields[k])) && n <= PROXY_URI + 1
    ensures OptionsBelow(fields, n) + OptionsFrom(fields, n) == OptionsFrom(fields, 0)
  {
    hide OptionsOf, Settable;
    if n > 0 {
      BelowAndFrom(fields, n - 1);
      var os := if n - 1 in fields then OptionsOf(n - 1, fields[n - 1]) else [];
      var below, from := OptionsBelow(fields, n - 1), OptionsFrom(fields, n);
      assert OptionsFrom(fields, n - 1) == os + from;
      Regroup(below, os, from);
    } else {
      assert [] + OptionsFrom(fields, 0) == OptionsFrom(fields, 0);
    }
  }

  lemma OptionsSorted(fields: map<nat, Field>)
    requires forall k | k in fields :: Settable(k, fields[k])
    ensures Sorted(0, OptionsFrom(fields, 0)) && OptionsBelow(fields, PROXY_URI + 1) == OptionsFrom(fields, 0)
  {
    hide Settable, OptionsBelow;
    BelowAndFrom(fields, PROXY_URI + 1);
    SortedBelow(fields, PROXY_URI + 1);
    assert OptionsBelow(fields, PROXY_URI + 1) + [] == OptionsBelow(fields, PROXY_URI + 1);
  }

  // ----- Serializing one option

  method SerializeIntOption(number: nat, current: nat, buffer: array<byte>, pos: nat, value: nat) returns (n: nat)
    requires current <= number < 0x1_0000 && value < 0x1_0000_0000
    requires pos + |EncodeOption(current, Option(number, IntBytes(value)))| <= buffer.Length
    modifies buffer
    ensures n == |EncodeOption(current, Option(number, IntBytes(value)))|
    ensures buffer[..] == Overwrite(old(buffer[..]), pos, EncodeOption(current, Option(number, IntBytes(value))))
  {
    hide Overwrite, Jump, JumpSent, IntBytes, Header;
    ghost var was := buffer[..];
    ShortHeader(number - current - JumpSent(number - current), |IntBytes(value)|);
    var i, next := InsertOptionJump(number, current, buffer, pos);
    ghost var jumped := buffer[..];
    var k := PutInt(buffer, pos + i + 1, value);
    var h := SetOptionHeader(number - next, k, buffer, pos + i);
    OverwriteBefore(jumped, pos + i, Header(number - next, k), IntBytes(value));
    OverwriteOn(was, pos, Jump(number - current), Header(number - next, k) + IntBytes(value));
    assert Jump(number - current) + (Header(number - next, k) + IntBytes(value))
        == EncodeOption(current, Option(number, IntBytes(value)));
    n := i + h + k;
  }

  lemma ShortHeader(delta: nat, length: nat)
    ensures length < 15 ==> |Header(delta, length)| == 1
  {
  }

  /** Writes the bytes of a number that are not leading zeros. */
  method PutInt(buffer: array<byte>, pos: nat, value: nat) returns (k: nat)
    requires value < 0x1_0000_0000 && pos + |IntBytes(value)| <= buffer.Length
    modifies buffer
    ensures k == |IntBytes(value)| && buffer[..] == Overwrite(old(buffer[..]), pos, IntBytes(value))
  {
    hide Overwrite;
    ghost var was := buffer[..];
    ghost var done: seq<byte> := [];
    OverwriteNothing(was, pos);
    k := 0;
    if value >= 0x100_0000 {
      PutByte(buffer, pos + k, value / 0x100_0000, was, pos, done);
      k, done := k + 1, done + [value / 0x100_0000];
    }
    if value >= 0x1_0000 {
      PutByte(buffer, pos + k, value / 0x1_0000 % 0x100, was, pos, done);
      k, done := k + 1, done + [value / 0x1_0000 % 0x100];
    }
    if value >= 0x100 {
      PutByte(buffer, pos + k, value / 0x100 % 0x100, was, pos, done);
      k, done := k + 1, done + [value / 0x100 % 0x100];
    }
    if value > 0 {
      PutByte(buffer, pos + k, value % 0x100, was, pos, done);
      k, done := k + 1, done + [value % 0x100];
    }
    assert done == IntBytes(value);
  }

  method SerializeWhole(number: nat, current: nat, buffer: array<byte>, pos: nat, s: seq<byte>) returns (n: nat)
    requires current <= number < 0x1_0000
    requires pos + |EncodeOption(current, Option(number, s))| <= buffer.Length
    modifies buffer
    ensures n == |EncodeOption(current, Option(number, s))|
    ensures buffer[..] == Overwrite(old(buffer[..]), pos, EncodeOption(current, Option(number, s)))
  {
    hide Overwrite, Jump, JumpSent, Header;
    ghost var was := buffer[..];
    var i, next := InsertOptionJump(number, current, buffer, pos);
    var h := SetOptionHeader(number - next, |s|, buffer, pos + i);
    OverwriteOn(was, pos, Jump(number - current), Header(number - next, |s|));
    Copy(buffer, pos + i + h, s);
    OverwriteOn(was, pos, Jump(number - current) + Header(number - next, |s|), s);
    n := i + h + |s|;
  }

  /** What has been written of a string when the segments `done` have been: at least the jump. */
  function PartsWritten(number: nat, current: nat, done: seq<seq<byte>>): seq<byte>
    requires current <= number
  {
    if done == [] then Jump(number - current)
    else
      SortedOf(current, number, PartOptions(number, done));
      EncodeList(current, PartOptions(number, done))
  }

  function NumberReached(number: nat, current: nat, done: seq<seq<byte>>): nat
    requires current <= number
  {
    if done == [] then current + JumpSent(number - current) else number
  }

  lemma PartWritten(number: nat, current: nat, done: seq<seq<byte>>, part: seq<byte>)
    requires current <= number
    ensures NumberReached(number, current, done) <= number
    ensures PartsWritten(number, current, done + [part]) ==
      PartsWritten(number, current, done) + Header(number - NumberReached(number, current, done), |part|) + part
  {
    hide Jump, JumpSent, Header;
    var o := Option(number, part);
    PartOptionsMore(number, done, part);
    SortedOf(current, number, PartOptions(number, done));
    EncodeMore(current, PartOptions(number, done), o);
    NoJump();
    if done == [] {
      assert EncodeList(current, []) == [];
    } else {
      assert EncodeOption(number, o) == Header(0, |part|) + part;
    }
  }

  lemma NoJump()
    ensures Jump(0) == [] && JumpSent(0) == 0
  {
  }

  lemma {:induction false} PartOptionsMore(number: nat, done: seq<seq<byte>>, part: seq<byte>)
    ensures PartOptions(number, done + [part]) == PartOptions(number, done) + [Option(number, part)]
  {
  }

  lemma PartOptionsTogether(number: nat, a: seq<seq<byte>>, b: seq<seq<byte>>)
    ensures PartOptions(number, a + b) == PartOptions(number, a) + PartOptions(number, b)
  {
  }

  lemma PartsFit(number: nat, current: nat, done: seq<seq<byte>>, rest: seq<seq<byte>>)
    requires current <= number && rest != []
    ensures |PartsWritten(number, current, done)| <= |PartsWritten(number, current, done + rest)|
  {
    hide EncodeList, Jump;
    var a, b := PartOptions(number, done), PartOptions(number, rest);
    PartOptionsTogether(number, done, rest);
    SortedOf(current, number, a);
    SortedOf(Last(current, a), number, b);
    SortedTogether(current, a, b);
    if done == [] {
      assert a + b == b && done + rest == rest;
      FirstOption(current, b);
    }
  }

  lemma FirstOption(current: nat, os: seq<Option>)
    requires Sorted(current, os) && os != []
    ensures |Jump(os[0].number - current)| <= |EncodeList(current, os)|
  {
  }

  lemma NothingWritten(number: nat, current: nat, s: seq<byte>, sep: byte)
    requires current <= number
    ensures var all := Parts(s, sep, 0, 0);
      && PartsWritten(number, current, []) == Jump(number - current) && [] + all == all != []
      && |Jump(number - current)| <= |PartsWritten(number, current, all)|
    ensures NumberReached(number, current, []) == current + JumpSent(number - current)
  {
    hide PartsWritten, Jump, JumpSent;
    SomeParts(s, sep, 0, 0);
    PartsFit(number, current, [], Parts(s, sep, 0, 0));
    OnlyJump(number, current);
    assert [] + Parts(s, sep, 0, 0) == Parts(s, sep, 0, 0);
  }

  lemma OnlyJump(number: nat, current: nat)
    requires current <= number
    ensures PartsWritten(number, current, []) == Jump(number - current)
  {
  }

  lemma {:induction false} SomeParts(s: seq<byte>, sep: byte, start: nat, j: nat)
    requires start <= j <= |s|
    ensures Parts(s, sep, start, j) != []
    decreases |s| - j
  {
    if j < |s| && s[j] != sep {
      SomeParts(s, sep, start, j + 1);
    }
  }

  lemma PartsNext(s: seq<byte>, sep: byte, start: nat, j: nat)
    requires start <= j <= |s|
    ensures j == |s| || s[j] == sep ==>
      Parts(s, sep, start, j) == [s[start..j]] + Parts(s, sep, SkipSlashes(s, j + 1), SkipSlashes(s, j + 1) + 1)
    ensures j < |s| && s[j] != sep ==> Parts(s, sep, start, j) == Parts(s, sep, start, j + 1)
  {
    if j == |s| {
      PartsEnd(s, sep, j + 1, j + 2);
      assert s[start..j] == s[start..];
    }
  }

  lemma PartsEnd(s: seq<byte>, sep: byte, start: nat, j: nat)
    requires j > |s|
    ensures Parts(s, sep, start, j) == []
  {
  }

  lemma FitsAfter(number: nat, current: nat, done: seq<seq<byte>>, rest: seq<seq<byte>>)
    requires current <= number
    ensures |PartsWritten(number, current, done)| <= |PartsWritten(number, current, done + rest)|
  {
    hide PartsWritten;
    if rest == [] {
      assert done + rest == done;
    } else {
      PartsFit(number, current, done, rest);
    }
  }

  /** Serializes a string with one option for each of its segments. */
  method SerializeParts(number: nat, current: nat, buffer: array<byte>, pos: nat, s: seq<byte>, sep: byte)
    returns (n: nat, count: nat)
    requires current <= number < 0x1_0000
    requires pos + |PartsWritten(number, current, Parts(s, sep, 0, 0))| <= buffer.Length
    modifies buffer
    ensures n == |PartsWritten(number, current, Parts(s, sep, 0, 0))| && count == |Parts(s, sep, 0, 0)| > 0
    ensures buffer[..] == Overwrite(old(buffer[..]), pos, PartsWritten(number, current, Parts(s, sep, 0, 0)))
  {
    hide Overwrite, Jump, JumpSent, Header, Parts, PartsWritten, SkipSlashes;
    ghost var was, all := buffer[..], Parts(s, sep, 0, 0);
    ghost var done: seq<seq<byte>> := [];
    NothingWritten(number, current, s, sep);
    var next: nat;
    n, next := InsertOptionJump(number, current, buffer, pos);
    var start: nat, j: nat := 0, 0;
    count := 0;
    while j <= |s|
      invariant start <= j && (j <= |s| || done != []) && count == |done|
      invariant done + Parts(s, sep, start, j) == all
      invariant pos + n <= buffer.Length && n == |PartsWritten(number, current, done)|
      invariant next == NumberReached(number, current, done)
      invariant buffer[..] == Overwrite(was, pos, PartsWritten(number, current, done))
      decreases |s| + 1 - j
    {
      PartsNext(s, sep, start, j);
      if j == |s| || s[j] == sep {
        var part := s[start..j];
        PartWritten(number, current, done, part);
        ghost var rest := Parts(s, sep, SkipSlashes(s, j + 1), SkipSlashes(s, j + 1) + 1);
        Regroup(done, [part], rest);
        FitsAfter(number, current, done + [part], rest);
        var h := SetOptionHeader(number - next, |part|, buffer, pos + n);
        OverwriteOn(was, pos, PartsWritten(number, current, done), Header(number - next, |part|));
        Copy(buffer, pos + n + h, part);
        OverwriteOn(was, pos, PartsWritten(number, current, done) + Header(number - next, |part|), part);
        n := n + h + |part|;
        done := done + [part];
        count := count + 1;
        next := number;
        j := PassSlashes(s, j + 1);
        start := j;
      }
      j := j + 1;
    }
    PartsEnd(s, sep, start, j);
    assert done + [] == done;
  }

  method PassSlashes(s: seq<byte>, i: nat) returns (j: nat)
    ensures j == SkipSlashes(s, i)
  {
    j := i;
    while j < |s| && s[j] == SLASH
      invariant SkipSlashes(s, j) == SkipSlashes(s, i)
      decreases |s| - j
    {
      j := j + 1;
    }
  }
}
