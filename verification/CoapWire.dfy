/** The options of CoAP by their numbers, and the bytes they are sent as, without the tables and names
    that the serializer and the parser share. */
module CoapWire {

  import opened Arithmetic
  import opened Bytes
  import opened CoapOption
  import opened CoapStream
  import opened CoapText
  import opened CoapPacket
  import opened CoapSerialize
  import opened CoapSend
  import opened CoapReceive
  import opened CoapRoundTrip

  // ----- What can be set, and what is sent

  /** What each option can hold: numbers of two bytes or four, short and long strings, one or two media
      types, blocks, or nothing. */
  lemma SettableByNumber(n: nat, f: Field)
    ensures Settable(n, f) <==>
      match f
      case Flag => n == 5
      case Unknown => false
      case Number(v) => (n in {6, 7, 12} && v < 0x1_0000) || (n in {14, 28} && v < 0x1_0000_0000)
      case Bytes(b) => (n in {1, 4, 19} && |b| <= 8) || n in {3, 8, 11, 15, 20, 35}
      case Numbers(vs) => n == 16 && 0 < |vs| <= 2 && forall i | 0 <= i < |vs| :: vs[i] < 0x1_0000
      case Block(num, _, size, offset) => n in {23, 27} && num <= 0xF_FFFF && 16 <= size <= 2048 && offset == num * size
  {
  }

  /** Between `j` and `k` there is nothing to split at. */
  lemma {:induction false} NoSplit(s: seq<byte>, sep: byte, start: nat, j: nat, k: nat)
    requires start <= j <= k <= |s| && forall i | j <= i < k :: s[i] != sep
    ensures Parts(s, sep, start, j) == Parts(s, sep, start, k)
    decreases k - j
  {
    if j < k {
      NoSplit(s, sep, start, j + 1, k);
    }
  }

  lemma TwoParts(a: seq<byte>, sep: byte, b: seq<byte>)
    requires sep !in a && sep !in b && b != [] && b[0] != 47
    ensures Parts(a + [sep] + b, sep, 0, 0) == [a, b]
  {
    var s := a + [sep] + b;
    NoSplit(s, sep, 0, 0, |a|);
    var next := |a| + 1;
    assert s[|a|] == sep && s[next] == b[0] && s[0..|a|] == a && s[next..] == b;
    assert SkipSlashes(s, next) == next;
    forall i | next + 1 <= i < |s|
      ensures s[i] != sep
    {
      assert s[i] == b[i - next];
    }
    NoSplit(s, sep, next, next + 1, |s|);
    assert Parts(s, sep, next, |s|) == [s[next..]];
  }

  /** Queries are split at `&`. */
  lemma QueriesSplit(n: nat, a: seq<byte>, b: seq<byte>)
    requires n in {15, 20} && 38 !in a && 38 !in b && b != [] && b[0] != 47
    ensures Settable(n, Bytes(a + [38] + b)) && OptionsOf(n, Bytes(a + [38] + b)) == [Option(n, a), Option(n, b)]
  {
    hide Parts;
    TwoParts(a, 38, b);
    TwoOptions(n, a, b);
  }

  /** Paths are split at `/`. */
  lemma PathsSplit(n: nat, a: seq<byte>, b: seq<byte>)
    requires n in {8, 11} && 47 !in a && 47 !in b && b != []
    ensures Settable(n, Bytes(a + [47] + b)) && OptionsOf(n, Bytes(a + [47] + b)) == [Option(n, a), Option(n, b)]
  {
    hide Parts;
    assert b[0] in b;
    TwoParts(a, 47, b);
    TwoOptions(n, a, b);
  }

  lemma TwoOptions(n: nat, a: seq<byte>, b: seq<byte>)
    ensures PartOptions(n, [a, b]) == [Option(n, a), Option(n, b)]
  {
    assert [a, b][1..] == [b] && [b][1..] == [];
  }

  /** And what is not split: other strings, whatever is in them, and paths and queries of one segment. */
  lemma SentWhole(n: nat, b: seq<byte>)
    requires (n in {1, 4, 19} && |b| <= 8) || n in {3, 35} || (n in {8, 11} && 47 !in b) || (n in {15, 20} && 38 !in b)
    ensures Settable(n, Bytes(b)) && OptionsOf(n, Bytes(b)) == [Option(n, b)]
  {
    hide Parts;
    if n in {8, 11, 15, 20} {
      NoSplit(b, if n in {8, 11} then 47 else 38, 0, 0, |b|);
      OnePart(b, if n in {8, 11} then 47 else 38);
      assert [b][1..] == [];
    }
  }

  lemma OnePart(b: seq<byte>, sep: byte)
    ensures Parts(b, sep, 0, |b|) == [b]
  {
    assert b[0..] == b;
  }

  /** Numbers are sent in one option each, also those of a block: number, flag and size together. */
  lemma NumbersSent(n: nat, f: Field)
    requires Settable(n, f) && !f.Bytes?
    ensures f.Flag? ==> OptionsOf(n, f) == [Option(n, [])]
    ensures f.Number? ==> f.value < 0x1_0000_0000 && OptionsOf(n, f) == [Option(n, IntBytes(f.value))]
    ensures f.Block? ==>
      var v := f.num * 16 + (if f.more then 8 else 0) + Log(f.size / 16) % 16;
      v < 0x1_0000_0000 && OptionsOf(n, f) == [Option(n, IntBytes(v))]
    ensures f.Numbers? ==>
      |OptionsOf(n, f)| == |f.values| &&
      forall i | 0 <= i < |f.values| :: f.values[i] < 0x1_0000 && OptionsOf(n, f)[i] == Option(n, IntBytes(f.values[i]))
  {
    hide IntBytes, Log;
    match f {
      case Numbers(vs) => IntOptionsOf(n, vs);
      case Block(num, more, size, _) => BlockBitsFit(num, more, size);
      case _ =>
    }
  }

  // ----- What becomes of a received option

  /** By its number: read as a number in two bytes or four, cut to eight bytes, kept, joined to what there
      is, taken as one of at most two media types, taken apart, or refused. */
  lemma StoredByNumber(fields: map<nat, Field>, n: nat, b: seq<byte>)
    requires n < 40
    ensures n in {6, 7, 12} ==> Store(fields, Option(n, b)) == Stored(fields[n := Number(IntValue(b) % 0x1_0000)])
    ensures n in {14, 28} ==> Store(fields, Option(n, b)) == Stored(fields[n := Number(IntValue(b))])
    ensures n in {1, 4, 19} ==>
      Store(fields, Option(n, b)) == Stored(fields[n := Bytes(if |b| > 8 then b[..8] else b)])
    ensures n == 3 ==> Store(fields, Option(n, b)) == Stored(fields[n := Bytes(b)])
    ensures n in {8, 11, 15, 20} ==>
      var sep: byte := if n in {8, 11} then 47 else 38;
      if n in fields && fields[n].Bytes? && fields[n].bytes != []
      then Store(fields, Option(n, b)) == Stored(fields[n := Bytes(fields[n].bytes + [sep] + b)])
      else Store(fields, Option(n, b)) == Stored(fields[n := Bytes(b)])
    ensures n == 16 ==>
      var v := IntValue(b) % 0x1_0000;
      if n in fields && fields[n].Numbers? && fields[n].values != [] then
        Store(fields, Option(n, b)) ==
          Stored(fields[n := Numbers(if |fields[n].values| == 1 then fields[n].values + [v] else fields[n].values)])
      else Store(fields, Option(n, b)) == Stored(fields[n := Numbers([v])])
    ensures n in {23, 27} ==>
      var v := IntValue(b);
      Store(fields, Option(n, b)) == Stored(fields[n :=
        Block(v / 16, v / 8 % 2 == 1, 16 * Pow2(v % 8), v / 16 * 16 * Pow2(v % 8) % 0x1_0000_0000)])
    ensures n == 5 ==> Store(fields, Option(n, b)) == Stored(fields[n := Flag])
    ensures n == 35 ==> Store(fields, Option(n, b)) == Refused(ProxyingNotSupported)
    ensures n !in {1, 3, 4, 5, 6, 7, 8, 11, 12, 14, 15, 16, 19, 20, 23, 27, 28, 35} ==>
      Store(fields, Option(n, b)) == if n % 2 == 1 then Refused(BadOption) else Stored(fields[n := Unknown])
  {
    hide IntValue, Pow2;
    ValueFits(b);
    if n == 16 {
      assert [] + [IntValue(b) % 0x1_0000] == [IntValue(b) % 0x1_0000];
    }
  }

  lemma ValueFits(b: seq<byte>)
    ensures IntValue(b) % 0x1_0000_0000 == IntValue(b)
  {
  }

  // ----- The bytes on the wire

  /** The bytes of an option: the difference of its number and the length in one byte, behind a jump for a
      difference from 15 on; a length from 15 on follows in further bytes. */
  lemma OptionBytesAre(current: nat, n: nat, v: seq<byte>)
    requires current <= n
    ensures var d, l := n - current, |v|;
      var head: seq<byte> :=
        if d < 15 then [] else if d < 30 then [0xF1] else if d < 2064 then [0xF2, d / 8 - 2]
        else [0xF3, (d / 8 - 258) / 0x100 % 0x100, (d / 8 - 258) % 0x100];
      var delta :=
        if d < 15 then d else if d < 30 then d - 15 else if d < 2064 then (d - (d / 8 - 2)) % 16
        else (d - (d / 8 - 258)) % 16;
      && (l < 15 ==> EncodeOption(current, Option(n, v)) == head + [delta * 16 + l] + v)
      && (15 <= l < 270 ==> EncodeOption(current, Option(n, v)) == head + [delta * 16 + 15, l - 15] + v)
      && (270 <= l < 525 ==> EncodeOption(current, Option(n, v)) == head + [delta * 16 + 15, 255, l - 270] + v)
  {
    var d, l := n - current, |v|;
    if l >= 15 {
      assert Extension(l - 15) == if l < 270 then [l - 15] else [255] + Extension(l - 270);
    }
  }

  /** The fixed header: version 1, type and number of options, code, and message id with the high byte
      first. A number of 15 options and more is sent as 15, and 0xF0 ends them. */
  lemma MessageBytesAre(p: Packet)
    requires p.Valid() && Sorted(0, OptionsFrom(p.fields, 0))
    ensures var os := OptionsFrom(p.fields, 0);
      MessageBytes(p) ==
        [64 + p.kind * 16 + (if |os| < 15 then |os| else 15), p.code, p.mid / 0x100, p.mid % 0x100]
        + (EncodeList(0, os) + (if |os| < 15 then [] else [0xF0])) + p.payload
  {
    hide OptionsFrom, EncodeList;
  }

  /** A message, byte for byte: a request for the query `x&y`. */
  lemma Example(p: Packet)
    requires p == Packet(0, 1, 0x1234, map[15 := Bytes([120, 38, 121])], [])
    ensures p.Valid() && Sorted(0, OptionsFrom(p.fields, 0))
    ensures MessageBytes(p) == [0x42, 1, 0x12, 0x34, 0xF1, 0x01, 120, 0x01, 121]
  {
    hide OptionsFrom, MessageBytes, EncodeList, Settable;
    ExampleOptions();
    OptionsSorted(p.fields);
    MessageBytesAre(p);
  }

  lemma ExampleOptions()
    ensures Settable(15, Bytes([120, 38, 121]))
    ensures var os := OptionsFrom(map[15 := Bytes([120, 38, 121])], 0);
      |os| == 2 && Sorted(0, os) && EncodeList(0, os) == [0xF1, 0x01, 120, 0x01, 121]
  {
    hide OptionsFrom, OptionsOf, EncodeList, EncodeOption, Settable, Parts;
    assert [120] + [38] + [121] == [120, 38, 121];
    QueriesSplit(15, [120], [121]);
    OneField(15, Bytes([120, 38, 121]), 0);
    TwoEncoded(Option(15, [120]), Option(15, [121]));
    OptionBytesAre(0, 15, [120]);
    OptionBytesAre(15, 15, [121]);
    assert [0xF1] + [0x01] + [120] == [0xF1, 0x01, 120];
    assert [] + [0x01] + [121] == [0x01, 121];
  }

  lemma TwoEncoded(x: Option, y: Option)
    requires x.number <= y.number
    ensures Sorted(0, [x, y]) && EncodeList(0, [x, y]) == EncodeOption(0, x) + EncodeOption(x.number, y)
  {
    assert [x, y][1..] == [y];
    OneOption(x.number, y);
  }

  /** Numbers have their high byte first, and no leading zeros. */
  lemma NumberBytes(v: nat)
    requires v < 0x1_0000_0000
    ensures v == 0 <==> IntBytes(v) == []
    ensures v > 0 ==> IntBytes(v)[0] != 0 && IntBytes(v)[|IntBytes(v)| - 1] == v % 0x100
    ensures v >= 0x100 ==> IntBytes(v) == IntBytes(v / 0x100) + [v % 0x100]
  {
  }

  /** A message of another version than 1 is a bad request. */
  lemma VersionIsChecked(data: seq<byte>)
    requires |data| >= 4
    ensures data[0] / 64 != 1 ==> Parse(data) == Failed(BadRequest)
    ensures Parse(data).Received? ==>
      && data[0] / 64 == 1 && Parse(data).packet.kind == data[0] / 16 % 4 && Parse(data).packet.code == data[1]
      && Parse(data).packet.mid == data[2] as int * 0x100 + data[3] as int && |Parse(data).packet.payload| <= 128
  {
  }
}
