/** What a received message means, and which packets come back as they were sent. */
module CoapReceive {

  import opened Arithmetic
  import opened Bytes
  import opened CoapOption
  import opened CoapStream
  import opened CoapText
  import opened CoapPacket
  import opened CoapSerialize
  import opened CoapSend

  /** The options that the bitmap of a packet has room for. */
  const BITMAP_LIMIT := 40

  datatype Status = BadRequest | BadOption | ProxyingNotSupported | Undefined

  // ----- One option

  datatype Stored = Stored(fields: map<nat, Field>) | Refused(status: Status)

  /** A block option as a receiver takes it apart. */
  function BlockOf(n: nat): Field {
    Block(n / 16, n / 8 % 2 == 1, 16 * Pow2(n % 8), n / 16 * 16 * Pow2(n % 8) % 0x1_0000_0000)
  }

  function TextIn(fields: map<nat, Field>, number: nat): seq<byte> {
    if number in fields && fields[number].Bytes? then fields[number].bytes else []
  }

  function NumbersIn(fields: map<nat, Field>, number: nat): seq<nat> {
    if number in fields && fields[number].Numbers? then fields[number].values else []
  }

  /** The fields after one more option. Numbers that the bitmap has no room for are written outside it. */
  function Store(fields: map<nat, Field>, o: Option): Stored {
    if o.number >= BITMAP_LIMIT then Refused(Undefined)
    else
      match KindOf(o.number)
      case NumberKind(limit) => Stored(fields[o.number := Number(if limit > 0 then IntValue(o.value) % limit else 0)])
      case OpaqueKind => Stored(fields[o.number := Bytes(if |o.value| > OPAQUE_LEN then o.value[..OPAQUE_LEN] else o.value)])
      case WholeKind => Stored(fields[o.number := Bytes(o.value)])
      case PartsKind(sep) => Stored(fields[o.number := Bytes(MergeOne(TextIn(fields, o.number), o.value, sep))])
      case NumbersKind =>
        var had := NumbersIn(fields, o.number);
        Stored(fields[o.number := Numbers(if |had| < MAX_ACCEPT_NUM then had + [IntValue(o.value) % 0x1_0000] else had)])
      case BlockKind => Stored(fields[o.number := BlockOf(IntValue(o.value))])
      case FlagKind => Stored(fields[o.number := Flag])
      case ProxyKind => Refused(ProxyingNotSupported)
      case UnknownKind => if o.number % 2 == 1 then Refused(BadOption) else Stored(fields[o.number := Unknown])
  }

  function StoreAll(fields: map<nat, Field>, os: seq<Option>): Stored
    decreases |os|
  {
    if os == [] then Stored(fields)
    else
      var s := Store(fields, os[0]);
      if s.Refused? then s else StoreAll(s.fields, os[1..])
  }

  // ----- A message

  datatype Options = Options(fields: map<nat, Field>, at: nat) | Stopped(status: Status)

  /** Reads options until `count` of them have been read or, for a count of 15, until the terminator. */
  function ReadFields(data: seq<byte>, i: nat, current: nat, index: nat, count: nat, fields: map<nat, Field>): (r: Options)
    ensures r.Options? && i <= |data| ==> i <= r.at <= |data|
    decreases |data| - i
  {
    if index >= count && count != 15 then Options(fields, i)
    else
      match ReadOption(data, i, current)
      case End => Options(fields, i)
      case Outside => Stopped(Undefined)
      case Item(number, at, length) =>
        var s := Store(fields, Option(number, data[at..at + length]));
        if s.Refused? then Stopped(s.status) else ReadFields(data, at + length, number, index + 1, count, s.fields)
  }

  datatype Outcome = Received(packet: Packet) | Failed(status: Status)

  /** The payload begins where reading the options has stopped, which is at the terminator. */
  function Payload(data: seq<byte>, at: nat): seq<byte>
    requires at <= |data|
  {
    if |data| - at > MAX_CHUNK_SIZE then data[at..at + MAX_CHUNK_SIZE] else data[at..]
  }

  function Parse(data: seq<byte>): Outcome {
    if |data| < HEADER_LEN then Failed(Undefined)
    else if data[0] / 64 != 1 then Failed(BadRequest)
    else
      var r := ReadFields(data, HEADER_LEN, 0, 0, data[0] % 16, map[]);
      if r.Stopped? then Failed(r.status)
      else Received(Packet(data[0] / 16 % 4, data[1], data[2] as int * 0x100 + data[3] as int, r.fields, Payload(data, r.at)))
  }

  // ----- Reading a list of options

  lemma {:induction false} ReadsList(pre: seq<byte>, current: nat, os: seq<Option>, post: seq<byte>, index: nat,
                                     count: nat, fields: map<nat, Field>)
    requires Sorted(current, os) && Last(current, os) < 30
    requires count == 15 || index + |os| <= count
    requires StoreAll(fields, os).Stored?
    ensures var data := pre + EncodeList(current, os) + post;
      ReadFields(data, |pre|, current, index, count, fields) ==
      ReadFields(data, |pre| + |EncodeList(current, os)|, Last(current, os), index + |os|, count, StoreAll(fields, os).fields)
    decreases |os|
  {
    hide ReadOption, EncodeOption, Store, DeltaRead;
    if os != [] {
      var o, rest := os[0], os[1..];
      LastBounds(current, os);
      ReadsOption(pre, current, o, EncodeList(o.number, rest) + post);
      ShortDeltaIsRead(o.number - current);
      var data := pre + EncodeList(current, os) + post;
      Regroup(pre, EncodeOption(current, o), EncodeList(o.number, rest));
      Regroup(pre + EncodeOption(current, o), EncodeList(o.number, rest), post);
      ReadsList(pre + EncodeOption(current, o), o.number, rest, post, index + 1, count, Store(fields, o).fields);
      assert data == pre + EncodeOption(current, o) + EncodeList(o.number, rest) + post;
      assert data == pre + EncodeOption(current, o) + (EncodeList(o.number, rest) + post);
    }
  }

  lemma {:induction false} LastBounds(current: nat, os: seq<Option>)
    requires Sorted(current, os) && os != []
    ensures current <= os[0].number <= Last(current, os) == Last(os[0].number, os[1..])
    decreases |os|
  {
    if |os| > 1 {
      LastBounds(os[0].number, os[1..]);
    }
  }

  // ----- Storing what was sent

  /** A field as it arrives. */
  function Arrives(number: nat, f: Field): Field
    requires Settable(number, f)
  {
    match f
    case Bytes(b) => if KindOf(number).PartsKind?
      then Bytes(MergeAll([], Parts(b, KindOf(number).sep, 0, 0), KindOf(number).sep)) else f
    case Block(num, more, size, _) =>
      var s := 16 * Pow2(Log(size / 16));
      Block(num, more, s, num * s)
    case _ => f
  }

  lemma {:induction false} StoresParts(fields: map<nat, Field>, number: nat, parts: seq<seq<byte>>, sep: byte)
    requires KindOf(number) == PartsKind(sep) && number < BITMAP_LIMIT && parts != []
    ensures StoreAll(fields, PartOptions(number, parts)) ==
      Stored(fields[number := Bytes(MergeAll(TextIn(fields, number), parts, sep))])
    decreases |parts|
  {
    hide KindOf;
    var os := PartOptions(number, parts);
    var after := fields[number := Bytes(MergeOne(TextIn(fields, number), parts[0], sep))];
    assert Store(fields, os[0]) == Stored(after);
    assert os[1..] == PartOptions(number, parts[1..]);
    if |parts| > 1 {
      StoresParts(after, number, parts[1..], sep);
      var text := MergeAll(TextIn(fields, number), parts, sep);
      assert after[number := Bytes(text)] == fields[number := Bytes(text)];
    }
  }

  lemma SmallLog(v: nat)
    requires v <= 128
    ensures Log(v) < 8 && Pow2(Log(v)) in {1, 2, 4, 8, 16, 32, 64, 128}
    ensures v > 0 ==> Pow2(Log(v)) <= v < 2 * Pow2(Log(v))
  {
    assert Pow2(0) == 1 && Pow2(1) == 2 && Pow2(2) == 4 && Pow2(3) == 8;
    assert Pow2(4) == 2 * Pow2(3) && Pow2(5) == 2 * Pow2(4) && Pow2(6) == 2 * Pow2(5) && Pow2(7) == 2 * Pow2(6);
    if v > 0 {
      LogBounds(v);
    }
    if Log(v) >= 8 {
      PowGrows(Log(v));
    }
  }

  lemma BlockSizes(size: nat, p: nat)
    requires 16 <= size <= 2048 && p in {1, 2, 4, 8, 16, 32, 64, 128} && p <= size / 16 < 2 * p
    ensures 16 * p == size <==> BlockSize(size)
  {
  }

  /** A block arrives with its number and flag, with its size rounded down to a power of two, and
      with the offset of that block: nothing is lost in 32 bits. */
  lemma BlockArrives(num: nat, more: bool, size: nat)
    requires num <= 0xF_FFFF && 16 <= size <= 2048
    ensures var s := 16 * Pow2(Log(size / 16));
      BlockOf(BlockBits(num, more, size)) == Block(num, more, s, num * s) && s <= size < 2 * s
  {
    hide Log, Pow2, BlockOf, BlockBits;
    SmallLog(size / 16);
    var log, flag := Log(size / 16), if more then 1 else 0;
    TakesApart(num, flag, log);
    BitsOf(num, more, size);
    OffsetFits(num, Pow2(log));
    BlockOfParts(BlockBits(num, more, size), num, more, log);
  }

  lemma BitsOf(num: nat, more: bool, size: nat)
    requires Log(size / 16) < 8
    ensures BlockBits(num, more, size) == num * 16 + (if more then 1 else 0) * 8 + Log(size / 16)
  {
    hide Log;
  }

  lemma BlockOfParts(n: nat, num: nat, more: bool, log: nat)
    requires n / 16 == num && n % 8 == log && (n / 8 % 2 == 1) == more && num * 16 * Pow2(log) < 0x1_0000_0000
    ensures BlockOf(n) == Block(num, more, 16 * Pow2(log), num * 16 * Pow2(log))
  {
    hide Pow2;
    Below(num * 16 * Pow2(log), 0x1_0000_0000);
  }

  lemma TakesApart(num: nat, flag: nat, log: nat)
    requires flag < 2 && log < 8
    ensures var n := num * 16 + flag * 8 + log;
      n / 16 == num && n % 8 == log && n / 8 % 2 == flag && log % 16 == log
  {
  }

  lemma OffsetFits(num: nat, p: nat)
    requires num <= 0xF_FFFF && 0 < p <= 128
    ensures num * 16 * p == num * (16 * p) < 0x1_0000_0000
  {
    Grouped(num, 16, p);
    Grows(p, 128, num * 16);
  }

  lemma Grouped(a: nat, b: nat, c: nat)
    ensures a * b * c == a * (b * c)
  {
  }

  lemma Grows(a: nat, b: nat, c: nat)
    requires a <= b
    ensures c * a <= c * b
  {
  }

  lemma {:induction false} StoresNumbers(fields: map<nat, Field>, number: nat, vs: seq<nat>)
    requires KindOf(number) == NumbersKind && number < BITMAP_LIMIT && vs != [] && Words(vs)
    requires |NumbersIn(fields, number)| + |vs| <= MAX_ACCEPT_NUM
    ensures StoreAll(fields, IntOptions(number, vs)) == Stored(fields[number := Numbers(NumbersIn(fields, number) + vs)])
    decreases |vs|
  {
    hide KindOf, IntBytes, IntValue;
    IntOptionsOf(number, vs);
    IntRoundTrip(vs[0]);
    var os := IntOptions(number, vs);
    var had := NumbersIn(fields, number);
    var after := fields[number := Numbers(had + [vs[0]])];
    assert Store(fields, os[0]) == Stored(after);
    assert os[1..] == IntOptions(number, vs[1..]);
    assert had + vs == had + [vs[0]] + vs[1..];
    if |vs| > 1 {
      StoresNumbers(after, number, vs[1..]);
      assert after[number := Numbers(had + vs)] == fields[number := Numbers(had + vs)];
    } else {
      assert had + vs == had + [vs[0]];
    }
  }

  lemma StoresOne(fields: map<nat, Field>, o: Option)
    ensures StoreAll(fields, [o]) == Store(fields, o)
  {
    hide Store;
    assert [o][1..] == [];
  }

  lemma BelowBitmap(number: nat, f: Field)
    requires Settable(number, f)
    ensures number <= PROXY_URI
  {
  }

  lemma StoresNumber(fields: map<nat, Field>, number: nat, v: nat)
    requires Settable(number, Number(v)) && number < BITMAP_LIMIT
    ensures Store(fields, Option(number, IntBytes(v))) == Stored(fields[number := Number(v)])
  {
    hide KindOf, IntBytes, IntValue;
    IntRoundTrip(v);
    Below(v, KindOf(number).limit);
  }

  lemma Below(v: nat, limit: nat)
    requires v < limit
    ensures v % limit == v
  {
  }

  lemma StoresBlock(fields: map<nat, Field>, number: nat, f: Field)
    requires Settable(number, f) && f.Block? && number < BITMAP_LIMIT
    ensures BlockBits(f.num, f.more, f.size) < 0x1_0000_0000
    ensures
        Store(fields, Option(number, IntBytes(BlockBits(f.num, f.more, f.size)))) == Stored(fields[number := Arrives(number, f)])
  {
    hide KindOf, IntBytes, IntValue, BlockOf, BlockBits, Log, Pow2;
    BlockBitsFit(f.num, f.more, f.size);
    BlockArrives(f.num, f.more, f.size);
    IntRoundTrip(BlockBits(f.num, f.more, f.size));
  }

  lemma StoresBytes(fields: map<nat, Field>, number: nat, b: seq<byte>)
    requires Settable(number, Bytes(b)) && number != PROXY_URI && number < BITMAP_LIMIT && number !in fields
    ensures StoreAll(fields, OptionsOf(number, Bytes(b))) == Stored(fields[number := Arrives(number, Bytes(b))])
  {
    hide KindOf, Parts, MergeAll, StoreAll, PartOptions;
    OnlyProxy(number);
    if KindOf(number).PartsKind? {
      SomeParts(b, KindOf(number).sep, 0, 0);
      StoresParts(fields, number, Parts(b, KindOf(number).sep, 0, 0), KindOf(number).sep);
    } else {
      StoresOne(fields, Option(number, b));
    }
  }

  /** Storing the options of a field gives the field as it arrives. */
  lemma StoresField(fields: map<nat, Field>, number: nat, f: Field)
    requires Settable(number, f) && number != PROXY_URI && number !in fields
    ensures StoreAll(fields, OptionsOf(number, f)) == Stored(fields[number := Arrives(number, f)])
  {
    hide KindOf, IntBytes, IntValue, Parts, MergeAll, StoreAll, BlockOf, BlockBits, Log, Pow2, IntOptions, PartOptions;
    BelowBitmap(number, f);
    if f.Flag? {
      StoresOne(fields, Option(number, []));
    } else if f.Number? {
      hide Store;
      StoresNumber(fields, number, f.value);
      StoresOne(fields, Option(number, IntBytes(f.value)));
    } else if f.Bytes? {
      hide Store;
      StoresBytes(fields, number, f.bytes);
    } else if f.Numbers? {
      hide Store;
      StoresNumbers(fields, number, f.values);
      assert [] + f.values == f.values;
    } else {
      hide Store;
      StoresBlock(fields, number, f);
      StoresOne(fields, Option(number, IntBytes(BlockBits(f.num, f.more, f.size))));
    }
  }

  lemma OnlyProxy(number: nat)
    ensures KindOf(number).ProxyKind? ==> number == PROXY_URI
  {
  }
}
