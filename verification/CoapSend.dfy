/** Serializing a whole packet. */
module CoapSend {

  import opened Bytes
  import opened CoapOption
  import opened CoapStream
  import opened CoapText
  import opened CoapPacket
  import opened CoapSerialize

  function FieldBytes(number: nat, current: nat, f: Field): seq<byte>
    requires Settable(number, f) && current <= number
  {
    OneNumber(number, f);
    SortedOf(current, number, OptionsOf(number, f));
    EncodeList(current, OptionsOf(number, f))
  }

  lemma OneOption(current: nat, o: Option)
    requires current <= o.number
    ensures Sorted(current, [o]) && EncodeList(current, [o]) == EncodeOption(current, o)
  {
    assert [o][1..] == [];
    assert EncodeOption(current, o) + [] == EncodeOption(current, o);
  }

  /** Serializes the options of one field. */
  method SerializeField(number: nat, f: Field, current: nat, buffer: array<byte>, pos: nat) returns (n: nat, count: nat)
    requires Settable(number, f) && current <= number < 0x1_0000
    requires pos + |FieldBytes(number, current, f)| <= buffer.Length
    modifies buffer
    ensures n == |FieldBytes(number, current, f)| && count == |OptionsOf(number, f)| > 0
    ensures buffer[..] == Overwrite(old(buffer[..]), pos, FieldBytes(number, current, f))
  {
    hide Overwrite, EncodeList, EncodeOption, Parts, PartsWritten, IntBytes, BlockBits, IntOptions;
    match f {
      case Flag =>
        NoBytes();
        OneOption(current, Option(number, []));
        n := SerializeIntOption(number, current, buffer, pos, 0);
        count := 1;
      case Number(v) =>
        OneOption(current, Option(number, IntBytes(v)));
        n := SerializeIntOption(number, current, buffer, pos, v);
        count := 1;
      case Bytes(b) =>
        if KindOf(number).PartsKind? {
          PartsAreOptions(number, current, b, KindOf(number).sep);
          n, count := SerializeParts(number, current, buffer, pos, b, KindOf(number).sep);
        } else {
          OneOption(current, Option(number, b));
          n := SerializeWhole(number, current, buffer, pos, b);
          count := 1;
        }
      case Numbers(vs) =>
        n := SerializeNumbers(number, current, buffer, pos, vs);
        IntOptionsOf(number, vs);
        count := |vs|;
      case Block(num, more, size, _) =>
        BlockBitsFit(num, more, size);
        var bits := BlockValue(num, more, size);
        OneOption(current, Option(number, IntBytes(bits)));
        n := SerializeIntOption(number, current, buffer, pos, bits);
        count := 1;
    }
  }

  lemma NoBytes()
    ensures IntBytes(0) == []
  {
  }

  lemma PartsAreOptions(number: nat, current: nat, s: seq<byte>, sep: byte)
    requires current <= number
    ensures Sorted(current, PartOptions(number, Parts(s, sep, 0, 0)))
    ensures PartsWritten(number, current, Parts(s, sep, 0, 0)) == EncodeList(current, PartOptions(number, Parts(s, sep, 0, 0)))
  {
    hide Parts;
    SomeParts(s, sep, 0, 0);
    SortedOf(current, number, PartOptions(number, Parts(s, sep, 0, 0)));
  }

  method BlockValue(num: nat, more: bool, size: nat) returns (r: nat)
    ensures r == BlockBits(num, more, size)
  {
    r := num * 16;
    if more {
      r := r + 8;
    }
    var log := Log2(size / 16);
    r := r + log % 16;
  }

  ghost predicate Words(vs: seq<nat>) {
    forall i | 0 <= i < |vs| :: vs[i] < 0x1_0000
  }

  function NumbersWritten(number: nat, current: nat, vs: seq<nat>): seq<byte>
    requires current <= number && Words(vs)
  {
    IntOptionsOf(number, vs);
    SortedOf(current, number, IntOptions(number, vs));
    EncodeList(current, IntOptions(number, vs))
  }

  lemma NumbersMore(number: nat, current: nat, vs: seq<nat>, k: nat)
    requires current <= number && Words(vs) && k < |vs|
    ensures vs[..k + 1] == vs[..k] + [vs[k]] && Words(vs[..k]) && Words(vs[..k + 1])
    ensures NumbersWritten(number, current, vs[..k + 1]) == NumbersWritten(number, current, vs[..k]) +
      EncodeOption(if k == 0 then current else number, Option(number, IntBytes(vs[k])))
    ensures |NumbersWritten(number, current, vs[..k + 1])| <= |NumbersWritten(number, current, vs)|
  {
    hide EncodeList, EncodeOption, IntBytes, IntOptions, Sorted, Last;
    var o := Option(number, IntBytes(vs[k]));
    var a, rest := IntOptionsAt(number, vs, k);
    PrefixShorter(current, number, a + [o], rest);
    SortedOf(current, number, a);
    LastOf(current, number, a);
    EncodeMore(current, a, o);
  }

  lemma LastOf(current: nat, number: nat, a: seq<Option>)
    requires AllOf(number, a)
    ensures Last(current, a) == if a == [] then current else number
  {
  }

  lemma IntOptionsAt(number: nat, vs: seq<nat>, k: nat) returns (a: seq<Option>, rest: seq<Option>)
    requires Words(vs) && k < |vs|
    ensures vs[..k + 1] == vs[..k] + [vs[k]] && Words(vs[..k]) && Words(vs[..k + 1])
    ensures a == IntOptions(number, vs[..k]) && |a| == k
    ensures IntOptions(number, vs[..k + 1]) == a + [Option(number, IntBytes(vs[k]))]
    ensures IntOptions(number, vs) == a + [Option(number, IntBytes(vs[k]))] + rest
    ensures AllOf(number, a) && AllOf(number, rest) && AllOf(number, a + [Option(number, IntBytes(vs[k]))])
  {
    hide IntBytes, IntOptions;
    IntOptionsOf(number, vs[..k]);
    IntOptionsOf(number, vs[..k + 1]);
    IntOptionsOf(number, vs);
    a, rest := IntOptions(number, vs[..k]), IntOptions(number, vs)[k + 1..];
  }

  lemma PrefixShorter(current: nat, number: nat, a: seq<Option>, b: seq<Option>)
    requires AllOf(number, a) && AllOf(number, b) && current <= number
    ensures Sorted(current, a) && Sorted(current, a + b)
    ensures |EncodeList(current, a)| <= |EncodeList(current, a + b)|
  {
    hide EncodeList;
    SortedOf(current, number, a);
    SortedOf(Last(current, a), number, b);
    SortedTogether(current, a, b);
  }

  method SerializeNumbers(number: nat, current: nat, buffer: array<byte>, pos: nat, vs: seq<nat>) returns (n: nat)
    requires current <= number < 0x1_0000 && Words(vs)
    requires pos + |NumbersWritten(number, current, vs)| <= buffer.Length
    modifies buffer
    ensures n == |NumbersWritten(number, current, vs)|
    ensures buffer[..] == Overwrite(old(buffer[..]), pos, NumbersWritten(number, current, vs))
  {
    hide Overwrite, EncodeList, EncodeOption, IntBytes, NumbersWritten;
    ghost var was := buffer[..];
    n := 0;
    var last: nat := current;
    NoNumbers(number, current);
    OverwriteNothing(was, pos);
    for i := 0 to |vs|
      invariant Words(vs[..i]) && last == (if i == 0 then current else number)
      invariant n == |NumbersWritten(number, current, vs[..i])| && pos + n <= buffer.Length
      invariant buffer[..] == Overwrite(was, pos, NumbersWritten(number, current, vs[..i]))
    {
      NumbersMore(number, current, vs, i);
      var k := SerializeIntOption(number, last, buffer, pos + n, vs[i]);
      OverwriteOn(was, pos, NumbersWritten(number, current, vs[..i]), EncodeOption(last, Option(number, IntBytes(vs[i]))));
      n, last := n + k, number;
    }
    assert vs[..|vs|] == vs;
  }

  lemma NoNumbers(number: nat, current: nat)
    requires current <= number
    ensures NumbersWritten(number, current, []) == []
  {
  }

  // ----- The message

  function BelowBytes(fields: map<nat, Field>, n: nat): seq<byte>
    requires forall k | k in fields :: Settable(k, fields[k])
  {
    SortedBelow(fields, n);
    EncodeList(0, OptionsBelow(fields, n))
  }

  function NumberBelow(fields: map<nat, Field>, n: nat): nat
    requires forall k | k in fields :: Settable(k, fields[k])
  {
    Last(0, OptionsBelow(fields, n))
  }

  /** What the next option number adds. */
  lemma FieldStep(fields: map<nat, Field>, n: nat)
    requires forall k | k in fields :: Settable(k, fields[k])
    requires n <= PROXY_URI
    ensures NumberBelow(fields, n) <= n
    ensures n !in fields ==>
      OptionsBelow(fields, n + 1) == OptionsBelow(fields, n) && BelowBytes(fields, n + 1) == BelowBytes(fields, n)
    ensures n in fields ==> OptionsBelow(fields, n + 1) == OptionsBelow(fields, n) + OptionsOf(n, fields[n])
    ensures n in fields ==>
      BelowBytes(fields, n + 1) == BelowBytes(fields, n) + FieldBytes(n, NumberBelow(fields, n), fields[n])
    ensures n in fields ==> |OptionsOf(n, fields[n])| > 0 ==> NumberBelow(fields, n + 1) == n
  {
    hide Settable, OptionsOf, EncodeList;
    SortedBelow(fields, n);
    if n in fields {
      var os := OptionsOf(n, fields[n]);
      OneNumber(n, fields[n]);
      SortedOf(NumberBelow(fields, n), n, os);
      SortedTogether(0, OptionsBelow(fields, n), os);
    } else {
      assert OptionsBelow(fields, n) + [] == OptionsBelow(fields, n);
    }
  }

  lemma {:induction false} BytesGrow(fields: map<nat, Field>, n: nat, m: nat)
    requires forall k | k in fields :: Settable(k, fields[k])
    requires n <= m <= PROXY_URI + 1
    ensures |BelowBytes(fields, n)| <= |BelowBytes(fields, m)|
    decreases m - n
  {
    hide Settable, OptionsOf, BelowBytes, OptionsBelow, NumberBelow;
    if n < m {
      FieldStep(fields, n);
      BytesGrow(fields, n + 1, m);
    }
  }

  lemma {:induction false} AByteEach(current: nat, os: seq<Option>)
    requires Sorted(current, os)
    ensures |os| <= |EncodeList(current, os)|
    decreases |os|
  {
    hide EncodeOption;
    if os != [] {
      AByteEach(os[0].number, os[1..]);
    }
  }

  /** The length of everything before the payload. */
  function HeaderSize(p: Packet): nat
    requires p.Valid()
  {
    OptionsSorted(p.fields);
    HEADER_LEN + |OptionBytes(p)|
  }

  /** Serializes the options in the order of their numbers. */
  method SerializeOptions(fields: map<nat, Field>, buffer: array<byte>) returns (n: nat, optionCount: nat)
    requires forall k | k in fields :: Settable(k, fields[k])
    requires HEADER_LEN + |BelowBytes(fields, PROXY_URI + 1)| <= buffer.Length
    modifies buffer
    ensures n == |BelowBytes(fields, PROXY_URI + 1)| && optionCount == |OptionsBelow(fields, PROXY_URI + 1)| % 0x100
    ensures buffer[..] == Overwrite(old(buffer[..]), HEADER_LEN, BelowBytes(fields, PROXY_URI + 1))
  {
    hide Overwrite, Settable, OptionsOf, BelowBytes, OptionsBelow, NumberBelow, FieldBytes;
    ghost var was := buffer[..];
    n, optionCount := 0, 0;
    var current: nat := 0;
    OverwriteNothing(was, HEADER_LEN);
    NothingBelow(fields);
    for number := 0 to PROXY_URI + 1
      invariant current == NumberBelow(fields, number)
      invariant n == |BelowBytes(fields, number)| && HEADER_LEN + n <= buffer.Length
      invariant optionCount == |OptionsBelow(fields, number)| % 0x100
      invariant buffer[..] == Overwrite(was, HEADER_LEN, BelowBytes(fields, number))
    {
      FieldStep(fields, number);
      if number in fields {
        BytesGrow(fields, number + 1, PROXY_URI + 1);
        var k, count := SerializeField(number, fields[number], current, buffer, HEADER_LEN + n);
        OverwriteOn(was, HEADER_LEN, BelowBytes(fields, number), FieldBytes(number, current, fields[number]));
        n, current := n + k, number;
        optionCount := (optionCount + count) % 0x100;
      } else {
        SameNumber(fields, number);
      }
    }
  }

  lemma NothingBelow(fields: map<nat, Field>)
    requires forall k | k in fields :: Settable(k, fields[k])
    ensures BelowBytes(fields, 0) == [] && OptionsBelow(fields, 0) == [] && NumberBelow(fields, 0) == 0
  {
  }

  lemma SameNumber(fields: map<nat, Field>, n: nat)
    requires forall k | k in fields :: Settable(k, fields[k])
    requires OptionsBelow(fields, n + 1) == OptionsBelow(fields, n)
    ensures NumberBelow(fields, n + 1) == NumberBelow(fields, n)
  {
  }

  /** Writes the message into the buffer and returns its length, or 0 when its header is too long. */
  method SerializeMessage(p: Packet, buffer: array<byte>) returns (n: nat)
    requires p.Valid() && HeaderSize(p) + |p.payload| <= buffer.Length
    modifies buffer
    ensures n == if HeaderSize(p) <= MAX_HEADER_SIZE then HeaderSize(p) + |p.payload| else 0
    ensures Sorted(0, OptionsFrom(p.fields, 0))
    ensures HeaderSize(p) <= MAX_HEADER_SIZE ==> n == |MessageBytes(p)|
    ensures HeaderSize(p) <= MAX_HEADER_SIZE ==> buffer[..] == Overwrite(old(buffer[..]), 0, MessageBytes(p))
  {
    hide Overwrite, Settable, OptionsOf, OptionsFrom, OptionsBelow, EncodeList;
    ghost var was := buffer[..];
    OptionsSorted(p.fields);
    AByteEach(0, OptionsFrom(p.fields, 0));
    var i, optionCount := SerializeOptions(p.fields, buffer);
    if optionCount > 14 {
      optionCount := 15;
      Copy(buffer, HEADER_LEN + i, [TERMINATOR]);
      OverwriteOn(was, HEADER_LEN, BelowBytes(p.fields, PROXY_URI + 1), [TERMINATOR]);
      i := i + 1;
    } else {
      assert BelowBytes(p.fields, PROXY_URI + 1) + [] == BelowBytes(p.fields, PROXY_URI + 1);
    }
    if HEADER_LEN + i > MAX_HEADER_SIZE {
      return 0;
    }
    assert BelowBytes(p.fields, PROXY_URI + 1) + Terminated(optionCount) == OptionBytes(p);
    Copy(buffer, HEADER_LEN + i, p.payload);
    OverwriteOn(was, HEADER_LEN, OptionBytes(p), p.payload);
    var header := [64 + p.kind * 16 + optionCount, p.code, p.mid / 0x100, p.mid % 0x100];
    Copy(buffer, 0, header);
    OverwriteBefore(was, 0, header, OptionBytes(p) + p.payload);
    assert header + (OptionBytes(p) + p.payload) == MessageBytes(p);
    n := HEADER_LEN + i + |p.payload|;
  }
}
