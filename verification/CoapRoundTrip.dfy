/** Which packets come back from the wire as they were sent. */
module CoapRoundTrip {

  import opened Arithmetic
  import opened Bytes
  import opened CoapOption
  import opened CoapStream
  import opened CoapText
  import opened CoapPacket
  import opened CoapSerialize
  import opened CoapSend
  import opened CoapReceive

  ghost predicate AllSettable(fields: map<nat, Field>) {
    forall n | n in fields :: Settable(n, fields[n])
  }

  /** The fields below `n` as they arrive. */
  ghost function ArrivedBelow(fields: map<nat, Field>, n: nat): map<nat, Field>
    requires AllSettable(fields)
  {
    map k | k in fields && k < n :: Arrives(k, fields[k])
  }

  ghost function Arrived(fields: map<nat, Field>): map<nat, Field>
    requires AllSettable(fields)
  {
    map k | k in fields :: Arrives(k, fields[k])
  }

  lemma {:induction false} StoreTogether(fields: map<nat, Field>, a: seq<Option>, b: seq<Option>)
    requires StoreAll(fields, a).Stored?
    ensures StoreAll(fields, a + b) == StoreAll(StoreAll(fields, a).fields, b)
    decreases |a|
  {
    hide Store;
    if a == [] {
      assert a + b == b;
    } else {
      assert (a + b)[1..] == a[1..] + b;
      StoreTogether(Store(fields, a[0]).fields, a[1..], b);
    }
  }

  lemma {:induction false} StoresFrom(fields: map<nat, Field>, n: nat)
    requires AllSettable(fields) && PROXY_URI !in fields && n <= PROXY_URI + 1
    ensures StoreAll(ArrivedBelow(fields, n), OptionsFrom(fields, n)) == Stored(ArrivedBelow(fields, PROXY_URI + 1))
    decreases PROXY_URI + 1 - n
  {
    hide Settable, OptionsOf, StoreAll, Arrives;
    if n > PROXY_URI {
      StoresNothing(ArrivedBelow(fields, n));
    } else if n in fields {
      StoresField(ArrivedBelow(fields, n), n, fields[n]);
      assert ArrivedBelow(fields, n)[n := Arrives(n, fields[n])] == ArrivedBelow(fields, n + 1);
      StoreTogether(ArrivedBelow(fields, n), OptionsOf(n, fields[n]), OptionsFrom(fields, n + 1));
      StoresFrom(fields, n + 1);
    } else {
      assert [] + OptionsFrom(fields, n + 1) == OptionsFrom(fields, n + 1);
      assert ArrivedBelow(fields, n) == ArrivedBelow(fields, n + 1);
      StoresFrom(fields, n + 1);
    }
  }

  lemma StoresNothing(fields: map<nat, Field>)
    ensures StoreAll(fields, []) == Stored(fields)
  {
  }

  lemma StoresFields(fields: map<nat, Field>)
    requires AllSettable(fields) && PROXY_URI !in fields
    ensures StoreAll(map[], OptionsFrom(fields, 0)) == Stored(Arrived(fields))
  {
    hide Settable, OptionsOf, StoreAll, Arrives;
    StoresFrom(fields, 0);
    assert ArrivedBelow(fields, 0) == map[];
    forall n | n in fields
      ensures n <= PROXY_URI
    {
      BelowBitmap(n, fields[n]);
    }
    assert ArrivedBelow(fields, PROXY_URI + 1) == Arrived(fields);
  }

  /** Without Proxy-Uri no difference is a long one. */
  lemma ShortDeltas(fields: map<nat, Field>)
    requires AllSettable(fields) && PROXY_URI !in fields
    ensures Sorted(0, OptionsFrom(fields, 0)) && Last(0, OptionsFrom(fields, 0)) < 30
  {
    hide OptionsOf, EncodeList;
    OptionsSorted(fields);
    SortedBelow(fields, SIZE + 1);
    AboveSize(fields, SIZE + 1);
  }

  lemma {:induction false} AboveSize(fields: map<nat, Field>, n: nat)
    requires AllSettable(fields) && PROXY_URI !in fields && SIZE < n <= PROXY_URI + 1
    ensures OptionsBelow(fields, PROXY_URI + 1) == OptionsBelow(fields, n)
    decreases PROXY_URI + 1 - n
  {
    hide OptionsOf;
    if n <= PROXY_URI {
      AboveSize(fields, n + 1);
      assert n !in fields;
      assert OptionsBelow(fields, n) + [] == OptionsBelow(fields, n);
    }
  }

  function Cut(payload: seq<byte>): seq<byte> {
    if |payload| > MAX_CHUNK_SIZE then payload[..MAX_CHUNK_SIZE] else payload
  }

  /** A packet as it arrives: with 15 options and more the terminator is taken for payload. */
  ghost function ArrivedPacket(p: Packet): Packet
    requires p.Valid()
  {
    p.(fields := Arrived(p.fields),
       payload := if |OptionsFrom(p.fields, 0)| > 14 then Cut([TERMINATOR] + p.payload) else p.payload)
  }

  function CountNibble(count: nat): nat { if count > 14 then 15 else count }

  lemma SerializedReads(p: Packet)
    requires p.Valid() && PROXY_URI !in p.fields && Sorted(0, OptionsFrom(p.fields, 0))
    ensures var os := OptionsFrom(p.fields, 0);
      && MessageBytes(p) == FixedHeader(p, |os|) + EncodeList(0, os) + (Terminated(|os|) + p.payload)
      && ReadFields(MessageBytes(p), HEADER_LEN, 0, 0, CountNibble(|os|), map[]) ==
           Options(Arrived(p.fields), HEADER_LEN + |EncodeList(0, os)|)
  {
    hide Settable, OptionsFrom, EncodeList, ReadFields, Arrived, StoreAll, FixedHeader;
    var os := OptionsFrom(p.fields, 0);
    var fixed, rest := FixedHeader(p, |os|), Terminated(|os|) + p.payload;
    ShortDeltas(p.fields);
    StoresFields(p.fields);
    Regroup(fixed, EncodeList(0, os), Terminated(|os|));
    Regroup(fixed + EncodeList(0, os), Terminated(|os|), p.payload);
    ReadsList(fixed, 0, os, rest, 0, CountNibble(|os|), map[]);
    ReadsEnd(fixed + EncodeList(0, os), rest, Last(0, os), |os|, CountNibble(|os|), Arrived(p.fields));
  }

  lemma ParseFrom(data: seq<byte>, count: nat, fields: map<nat, Field>, at: nat)
    requires HEADER_LEN <= at <= |data| && data[0] / 64 == 1 && data[0] % 16 == count
    requires ReadFields(data, HEADER_LEN, 0, 0, count, map[]) == Options(fields, at)
    ensures Parse(data) ==
      Received(Packet(data[0] / 16 % 4, data[1], data[2] as int * 0x100 + data[3] as int, fields, Payload(data, at)))
  {
    hide ReadFields;
  }

  lemma SerializedHeader(p: Packet)
    requires p.Valid() && PROXY_URI !in p.fields && Sorted(0, OptionsFrom(p.fields, 0))
    ensures var os, data := OptionsFrom(p.fields, 0), MessageBytes(p);
      && HEADER_LEN + |EncodeList(0, os)| <= |data|
      && data[0] / 64 == 1 && data[0] / 16 % 4 == p.kind && data[0] % 16 == CountNibble(|os|)
      && data[1] == p.code && data[2] as int * 0x100 + data[3] as int == p.mid
      && Payload(data, HEADER_LEN + |EncodeList(0, os)|) == Cut(Terminated(|os|) + p.payload)
  {
    hide Settable, OptionsFrom, EncodeList, ReadFields, Arrived, StoreAll, MessageBytes, Payload, Cut, Sorted;
    var os := OptionsFrom(p.fields, 0);
    SerializedReads(p);
    HeaderFirst(FixedHeader(p, |os|), EncodeList(0, os), Terminated(|os|) + p.payload);
    HeaderBack(p, CountNibble(|os|), MessageBytes(p));
    PayloadBack(FixedHeader(p, |os|) + EncodeList(0, os), Terminated(|os|) + p.payload);
  }

  /** Every packet without Proxy-Uri is parsed, and as what. */
  lemma ParseOfSerialized(p: Packet)
    requires p.Valid() && PROXY_URI !in p.fields
    ensures Sorted(0, OptionsFrom(p.fields, 0))
    ensures Parse(MessageBytes(p)) == Received(ArrivedPacket(p))
  {
    hide Settable, OptionsFrom, EncodeList, ReadFields, Arrived, MessageBytes, Payload, Cut, Sorted, Parse, FixedHeader;
    OptionsSorted(p.fields);
    var os := OptionsFrom(p.fields, 0);
    SerializedReads(p);
    SerializedHeader(p);
    ParseFrom(MessageBytes(p), CountNibble(|os|), Arrived(p.fields), HEADER_LEN + |EncodeList(0, os)|);
    NotCut(p.payload);
  }

  lemma HeaderFirst(fixed: seq<byte>, options: seq<byte>, rest: seq<byte>)
    ensures (fixed + options + rest)[..|fixed|] == fixed
  {
  }

  lemma NotCut(payload: seq<byte>)
    requires |payload| <= MAX_CHUNK_SIZE
    ensures Cut([] + payload) == payload
  {
    assert [] + payload == payload;
  }

  lemma HeaderBack(p: Packet, count: nat, data: seq<byte>)
    requires p.kind < 4 && p.mid < 0x1_0000 && count < 16 && |data| >= HEADER_LEN
    requires data[..HEADER_LEN] == [64 + p.kind * 16 + count, p.code, p.mid / 0x100, p.mid % 0x100]
    ensures data[0] / 64 == 1 && data[0] / 16 % 4 == p.kind && data[0] % 16 == count
    ensures data[1] == p.code && data[2] as int * 0x100 + data[3] as int == p.mid
  {
    assert data[0] == data[..HEADER_LEN][0] && data[1] == data[..HEADER_LEN][1];
    assert data[2] == data[..HEADER_LEN][2] && data[3] == data[..HEADER_LEN][3];
  }

  lemma PayloadBack(pre: seq<byte>, rest: seq<byte>)
    ensures Payload(pre + rest, |pre|) == Cut(rest)
  {
  }

  /** Reading ends behind the last option: by the count, or at the terminator. */
  lemma ReadsEnd(pre: seq<byte>, rest: seq<byte>, current: nat, index: nat, count: nat, fields: map<nat, Field>)
    requires if count == 15 then rest != [] && rest[0] == TERMINATOR else index >= count
    ensures ReadFields(pre + rest, |pre|, current, index, count, fields) == Options(fields, |pre|)
  {
    hide Store;
  }

  // ----- What comes back

  /** A field that is sent without loss. */
  predicate Intact(number: nat, f: Field) {
    match f
    case Bytes(b) => KindOf(number).PartsKind? ==> Clean(b, KindOf(number).sep)
    case Block(_, _, size, _) => BlockSize(size)
    case _ => true
  }

  lemma IntactArrives(number: nat, f: Field)
    requires Settable(number, f)
    ensures Arrives(number, f) == f <==> Intact(number, f)
  {
    hide KindOf, Parts, MergeAll, Clean, Log, Pow2;
    if f.Bytes? {
      if KindOf(number).PartsKind? {
        ComesBack(f.bytes, KindOf(number).sep);
      }
    } else if f.Block? {
      SmallLog(f.size / 16);
      BlockSizes(f.size, Pow2(Log(f.size / 16)));
    }
  }

  /** With 15 options and more only a full payload of terminators looks the same with another one
      before it. */
  ghost predicate PayloadIntact(count: nat, payload: seq<byte>) {
    count < 15 || (|payload| == MAX_CHUNK_SIZE && forall i | 0 <= i < |payload| :: payload[i] == TERMINATOR)
  }

  lemma {:induction false} AllTerminators(payload: seq<byte>, n: nat)
    requires |payload| == MAX_CHUNK_SIZE && Cut([TERMINATOR] + payload) == payload && n <= |payload|
    ensures forall i | 0 <= i < n :: payload[i] == TERMINATOR
  {
    if n > 0 {
      AllTerminators(payload, n - 1);
      assert payload[n - 1] == ([TERMINATOR] + payload)[n - 1];
    }
  }

  lemma PayloadComesBack(payload: seq<byte>)
    requires |payload| <= MAX_CHUNK_SIZE
    ensures Cut([TERMINATOR] + payload) == payload <==> PayloadIntact(15, payload)
  {
    var r := Cut([TERMINATOR] + payload);
    if |payload| == MAX_CHUNK_SIZE {
      if r == payload {
        AllTerminators(payload, |payload|);
      }
      forall i | 0 <= i < |r| && PayloadIntact(15, payload)
        ensures r[i] == payload[i]
      {
        assert r[i] == if i == 0 then TERMINATOR else payload[i - 1];
      }
    }
  }

  ghost predicate AllIntact(fields: map<nat, Field>) {
    forall n | n in fields :: Intact(n, fields[n])
  }

  lemma FieldsComeBack(fields: map<nat, Field>)
    requires AllSettable(fields)
    ensures Arrived(fields) == fields <==> AllIntact(fields)
  {
    hide Settable, Arrives, Intact;
    forall n | n in fields
      ensures Arrived(fields)[n] == fields[n] <==> Intact(n, fields[n])
    {
      IntactArrives(n, fields[n]);
    }
  }

  /** Parsing undoes serializing if and only if every string comes back from its segments, the block
      sizes are powers of two, and there are fewer than 15 options (or a payload of terminators). */
  lemma RoundTrip(p: Packet)
    requires p.Valid() && PROXY_URI !in p.fields
    ensures Sorted(0, OptionsFrom(p.fields, 0))
    ensures Parse(MessageBytes(p)) == Received(p) <==>
            AllIntact(p.fields) && PayloadIntact(|OptionsFrom(p.fields, 0)|, p.payload)
  {
    hide Settable, OptionsFrom, Parse, MessageBytes, Arrived, AllIntact, Cut;
    ParseOfSerialized(p);
    FieldsComeBack(p.fields);
    PayloadComesBack(p.payload);
  }

  // ----- A packet with 15 options and a short header

  /** One byte between every two slashes. */
  ghost predicate Alternates(s: seq<byte>) {
    |s| % 2 == 1 && forall i | 0 <= i < |s| :: s[i] == SLASH <==> i % 2 == 1
  }

  ghost predicate OneByteEach(parts: seq<seq<byte>>) { forall i | 0 <= i < |parts| :: |parts[i]| == 1 }

  lemma {:induction false} AlternatesParts(s: seq<byte>, k: nat)
    requires Alternates(s) && 2 * k < |s|
    ensures var parts := Parts(s, SLASH, 2 * k, 2 * k + 1);
      |parts| == |s| / 2 + 1 - k && OneByteEach(parts)
    decreases |s| - k
  {
    if 2 * k + 1 < |s| {
      assert s[2 * k + 1] == SLASH && s[2 * k + 2] != SLASH;
      AlternatesParts(s, k + 1);
    }
  }

  lemma {:induction false} TwoBytesEach(number: nat, current: nat, os: seq<Option>)
    requires AllOf(number, os) && current <= number < current + 15
    requires forall i | 0 <= i < |os| :: |os[i].value| == 1
    ensures Sorted(current, os) && |EncodeList(current, os)| == 2 * |os|
    decreases |os|
  {
    SortedOf(current, number, os);
    if os != [] {
      TwoBytesEach(number, number, os[1..]);
    }
  }

  lemma {:induction false} OneField(number: nat, f: Field, n: nat)
    requires Settable(number, f) && number <= PROXY_URI
    ensures OptionsFrom(map[number := f], n) == if n <= number then OptionsOf(number, f) else []
    decreases PROXY_URI + 1 - n
  {
    hide OptionsOf, Settable;
    if n <= PROXY_URI {
      OneField(number, f, n + 1);
      assert n == number ==> OptionsOf(number, f) + [] == OptionsOf(number, f);
    }
  }

  lemma PathOptions(path: seq<byte>)
    requires Alternates(path)
    ensures var f := Bytes(path);
      && Settable(URI_PATH, f) && Intact(URI_PATH, f)
      && var os := OptionsOf(URI_PATH, f);
      |os| == |path| / 2 + 1 && Sorted(0, os) && |EncodeList(0, os)| == 2 * |os|
  {
    assert path[0] != SLASH;
    assert Parts(path, SLASH, 0, 0) == Parts(path, SLASH, 0, 1);
    AlternatesParts(path, 0);
    TwoBytesEach(URI_PATH, 0, PartOptions(URI_PATH, Parts(path, SLASH, 0, 0)));
    CleanPath(path);
  }

  /** A packet whose only option is a path of 15 to 32 segments of one byte has a header that is not too
      long, and its payload arrives with the terminator before it. */
  lemma ManySegments(p: Packet, path: seq<byte>)
    requires p.Valid() && p.fields == map[URI_PATH := Bytes(path)]
    requires Alternates(path) && 15 <= |path| / 2 + 1 <= 32
    ensures Sorted(0, OptionsFrom(p.fields, 0)) && |OptionsFrom(p.fields, 0)| == |path| / 2 + 1
    ensures HeaderSize(p) <= MAX_HEADER_SIZE
    ensures Parse(MessageBytes(p)) == Received(p.(payload := Cut([0xF0] + p.payload)))
  {
    hide Parse, MessageBytes, Arrived, Cut, Settable, Intact, OptionsOf, OptionsFrom, EncodeList, Alternates;
    PathOptions(path);
    OneField(URI_PATH, Bytes(path), 0);
    OptionsSorted(p.fields);
    ParseOfSerialized(p);
    FieldsComeBack(p.fields);
  }
}
