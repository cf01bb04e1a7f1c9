/** Parsing a message in its buffer, in which the segments of strings are merged in place. */
module CoapParse {

  import opened Bytes
  import opened CoapOption
  import opened CoapStream
  import opened CoapText
  import opened CoapPacket
  import opened CoapReceive

  /** A field of a parsed message: strings are pointers into the buffer. */
  datatype Place = Plain(field: Field) | Text(at: nat, length: nat)

  function FieldAt(buf: seq<byte>, p: Place): Field
    requires p.Text? ==> p.at + p.length <= |buf|
  {
    match p
    case Plain(f) => f
    case Text(at, length) => Bytes(buf[at..at + length])
  }

  /** The strings lie before `end`, and the options so far have numbers up to `current`. */
  ghost predicate Before(places: map<nat, Place>, current: nat, end: nat) {
    forall n | n in places :: n <= current && (places[n].Text? ==> places[n].at + places[n].length <= end)
  }

  /** The strings lie in the order of their numbers and do not overlap. */
  ghost predicate Apart(places: map<nat, Place>) {
    forall m, n | m in places && n in places && m < n && places[m].Text? && places[n].Text? ::
      places[m].at + places[m].length <= places[n].at
  }

  ghost predicate Fit(places: map<nat, Place>, end: nat) {
    forall n | n in places && places[n].Text? :: places[n].at + places[n].length <= end
  }

  /** The fields that the places stand for. */
  ghost function FieldsAt(buf: seq<byte>, places: map<nat, Place>): map<nat, Field>
    requires Fit(places, |buf|)
  {
    map n | n in places :: FieldAt(buf, places[n])
  }

  /** The state between two options: what is behind `i` has not been touched. */
  ghost predicate Parsing(buf: seq<byte>, was: seq<byte>, places: map<nat, Place>, current: nat, i: nat) {
    && |buf| == |was| && i <= |buf| && buf[i..] == was[i..]
    && Before(places, current, i) && Apart(places)
  }

  lemma ParsingFits(buf: seq<byte>, was: seq<byte>, places: map<nat, Place>, current: nat, i: nat)
    requires Parsing(buf, was, places, current, i)
    ensures Fit(places, |buf|) && Fit(places, i) && |buf| == |was| && i <= |buf| && buf[i..] == was[i..]
    ensures Apart(places)
  {
  }

  // ----- Storing an option

  /** A field that is a value of its own, or a string that is left where it is. */
  lemma StoresPlace(buf: seq<byte>, was: seq<byte>, places: map<nat, Place>, current: nat, i: nat, number: nat,
                    p: Place, end: nat)
    requires Parsing(buf, was, places, current, i) && current <= number && i <= end <= |buf|
    requires p.Text? ==> i <= p.at && p.at + p.length <= end
    ensures Parsing(buf, was, places[number := p], number, end)
    ensures Fit(places, |buf|) && Fit(places[number := p], |buf|)
    ensures FieldsAt(buf, places[number := p]) == FieldsAt(buf, places)[number := FieldAt(buf, p)]
  {
    var after := places[number := p];
    assert buf[end..] == buf[i..][end - i..] && was[end..] == was[i..][end - i..];
  }

  lemma MovedBytes(buf: seq<byte>, was: seq<byte>, start: nat, end: nat, i: nat, at: nat, length: nat, sep: byte)
    requires start <= end <= i < at && at + length <= |buf| == |was| && buf[i..] == was[i..]
    ensures var after := Overwrite(buf, end, [sep] + was[at..at + length]);
      && after[at + length..] == was[at + length..] && after[..end] == buf[..end]
      && after[start..end + 1 + length] == buf[start..end] + [sep] + was[at..at + length]
  {
    var after := Overwrite(buf, end, [sep] + was[at..at + length]);
    assert after[at + length..] == buf[i..][at + length - i..];
    assert was[at + length..] == was[i..][at + length - i..];
  }

  lemma SameSlice(a: seq<byte>, b: seq<byte>, end: nat, from: nat, upto: nat)
    requires end <= |a| == |b| && a[..end] == b[..end] && from <= upto <= end
    ensures a[from..upto] == b[from..upto]
  {
    assert a[from..upto] == a[..end][from..upto];
    assert b[from..upto] == b[..end][from..upto];
  }

  /** A segment is moved behind the string of its option: never farther than to where it was. */
  lemma MergesInPlace(buf: seq<byte>, was: seq<byte>, places: map<nat, Place>, current: nat, i: nat, number: nat,
                      at: nat, length: nat, sep: byte)
    requires Parsing(buf, was, places, current, i) && current <= number && i < at && at + length <= |buf|
    requires number in places && places[number].Text? && places[number].length > 0
    ensures var p := places[number];
      var end := p.at + p.length;
      && end + 1 + length <= at + length
      && var after := Overwrite(buf, end, [sep] + was[at..at + length]);
      && Parsing(after, was, places[number := Text(p.at, p.length + 1 + length)], number, at + length)
      && Fit(places, |buf|) && Fit(places[number := Text(p.at, p.length + 1 + length)], |after|)
      && FieldsAt(after, places[number := Text(p.at, p.length + 1 + length)]) ==
           FieldsAt(buf, places)[number := Bytes(buf[p.at..end] + [sep] + was[at..at + length])]
  {
    hide Overwrite, FieldsAt, Before, Apart;
    var p := places[number];
    ParsingFits(buf, was, places, current, i);
    PlaceFits(places, current, i, number);
    MovedBytes(buf, was, p.at, p.at + p.length, i, at, length, sep);
    var after := Overwrite(buf, p.at + p.length, [sep] + was[at..at + length]);
    GrowsPlace(places, current, i, number, length, at + length);
    OthersStay(buf, after, places, current, i, number, Text(p.at, p.length + 1 + length));
  }

  lemma PlaceFits(places: map<nat, Place>, current: nat, i: nat, number: nat)
    requires Before(places, current, i) && number in places && places[number].Text?
    ensures places[number].at + places[number].length <= i
  {
  }

  /** The string that a segment is merged into is the last one, so that it can grow. */
  lemma GrowsPlace(places: map<nat, Place>, current: nat, i: nat, number: nat, length: nat, end: nat)
    requires Before(places, current, i) && Apart(places) && current <= number && number in places && places[number].Text?
    requires i + 1 + length <= end
    ensures var placed := places[number := Text(places[number].at, places[number].length + 1 + length)];
      Before(placed, number, end) && Apart(placed) && Fit(placed, end)
  {
  }

  lemma OthersStay(buf: seq<byte>, after: seq<byte>, places: map<nat, Place>, current: nat, i: nat, number: nat, p: Place)
    requires Before(places, current, i) && Apart(places) && current <= number && number in places && places[number].Text?
    requires Fit(places, |buf|) && Fit(places[number := p], |after|) && |after| == |buf|
    requires var end := places[number].at + places[number].length;
      end <= |buf| && after[..end] == buf[..end] && p.Text? && p.at == places[number].at && p.at + p.length <= |after|
    ensures FieldsAt(after, places[number := p]) == FieldsAt(buf, places)[number := Bytes(after[p.at..p.at + p.length])]
  {
    var end := places[number].at + places[number].length;
    forall n | n in places && n != number && places[n].Text?
      ensures FieldAt(after, places[n]) == FieldAt(buf, places[n])
    {
      SameSlice(after, buf, end, places[n].at, places[n].at + places[n].length);
    }
  }

  /** Strings of segments are kept in the buffer, lists of numbers in the packet. */
  ghost predicate Typed(places: map<nat, Place>) {
    forall n | n in places :: TypedPlace(n, places[n])
  }

  predicate TypedPlace(n: nat, p: Place) {
    (KindOf(n).PartsKind? ==> p.Text?) && (KindOf(n).NumbersKind? ==> p.Plain?)
  }

  /** The segment at `at` has been merged into the field of its option. */
  ghost predicate Merged(buf: seq<byte>, places: map<nat, Place>, after: seq<byte>, placed: map<nat, Place>,
                         was: seq<byte>, number: nat, at: nat, length: nat, sep: byte)
    requires at + length <= |was|
  {
    && Parsing(after, was, placed, number, at + length) && Typed(placed)
    && Fit(places, |buf|) && Fit(placed, |after|)
    && var fields := FieldsAt(buf, places);
    && FieldsAt(after, placed) == fields[number := Bytes(MergeOne(TextIn(fields, number), was[at..at + length], sep))]
  }

  lemma MergesFirst(buf: seq<byte>, was: seq<byte>, places: map<nat, Place>, current: nat, i: nat, number: nat,
                    at: nat, length: nat, sep: byte)
    requires Parsing(buf, was, places, current, i) && Typed(places) && current <= number && i < at && at + length <= |buf|
    requires KindOf(number) == PartsKind(sep) && (number in places ==> places[number].Text? && places[number].length == 0)
    ensures Merged(buf, places, buf, places[number := Text(at, length)], was, number, at, length, sep)
  {
    hide KindOf, Parsing;
    ParsingFits(buf, was, places, current, i);
    SameAhead(buf, was, i, at, at + length);
    StoresPlace(buf, was, places, current, i, number, Text(at, length), at + length);
  }

  lemma MergesMore(buf: seq<byte>, was: seq<byte>, places: map<nat, Place>, current: nat, i: nat, number: nat,
                   at: nat, length: nat, sep: byte)
    requires Parsing(buf, was, places, current, i) && Typed(places) && current <= number && i < at && at + length <= |buf|
    requires KindOf(number) == PartsKind(sep) && number in places && places[number].Text? && places[number].length > 0
    ensures var p := places[number];
      && p.at + p.length + 1 <= at && |buf| == |was|
      && Merged(buf, places, Overwrite(buf, p.at + p.length, [sep] + was[at..at + length]),
                places[number := Text(p.at, p.length + 1 + length)], was, number, at, length, sep)
  {
    hide KindOf, Parsing, Overwrite;
    ParsingFits(buf, was, places, current, i);
    MergesInPlace(buf, was, places, current, i, number, at, length, sep);
  }

  // ----- Reading depends on what lies ahead only

  lemma {:induction false} SameExtension(a: seq<byte>, b: seq<byte>, from: nat, i: nat, n: nat)
    requires |a| == |b| && from <= i && from <= |a| && a[from..] == b[from..]
    ensures ReadExtension(a, i, n) == ReadExtension(b, i, n)
    decreases |a| - i
  {
    if i < |a| {
      SameByte(a, b, from, i);
      SameExtension(a, b, from, i + 1, n + 255);
    }
  }

  lemma SameByte(a: seq<byte>, b: seq<byte>, from: nat, i: nat)
    requires |a| == |b| && from <= i < |a| && a[from..] == b[from..]
    ensures a[i] == b[i]
  {
    assert a[i] == a[from..][i - from] && b[i] == b[from..][i - from];
  }

  lemma SameOption(a: seq<byte>, b: seq<byte>, i: nat, current: nat)
    requires |a| == |b| && i <= |a| && a[i..] == b[i..]
    ensures ReadOption(a, i, current) == ReadOption(b, i, current)
  {
    hide ReadExtension;
    if i < |a| {
      SameByte(a, b, i, i);
      if i + 1 < |a| {
        SameByte(a, b, i, i + 1);
      }
      if i + 2 < |a| {
        SameByte(a, b, i, i + 2);
      }
      var n := ReadJump(a, i).0;
      if i + n < |a| {
        SameByte(a, b, i, i + n);
        SameExtension(a, b, i, i + n + 1, 15);
      }
    }
  }

  lemma SameAhead(a: seq<byte>, b: seq<byte>, i: nat, at: nat, upto: nat)
    requires |a| == |b| && i <= at <= upto <= |a| && a[i..] == b[i..]
    ensures a[at..upto] == b[at..upto]
  {
    forall k | 0 <= k < upto - at
      ensures a[at..upto][k] == b[at..upto][k]
    {
      SameByte(a, b, i, at + k);
    }
  }

  // ----- The parser

  class Message {
    const data: array<byte>
    const dataLen: nat
    var version: nat
    var kind: nat
    var code: byte
    var mid: nat
    var places: map<nat, Place>
    var payloadAt: nat
    var payloadLen: nat

    constructor (data: array<byte>, dataLen: nat)
      requires dataLen < data.Length
      ensures this.data == data && this.dataLen == dataLen && places == map[]
    {
      this.data, this.dataLen := data, dataLen;
      version, kind, code, mid, places, payloadAt, payloadLen := 0, 0, 0, 0, map[], 0, 0;
    }

    /** Reads the additional bytes of a long length. */
    method ReadLongLength(i: nat) returns (r: Length)
      requires dataLen < data.Length
      ensures r == ReadExtension(data[..dataLen], i, 15)
    {
      var at, length := i, 15 as int;
      while at < dataLen && data[at] == 255
        invariant i <= at
        invariant ReadExtension(data[..dataLen], at, length) == ReadExtension(data[..dataLen], i, 15)
        decreases dataLen - at
      {
        at, length := at + 1, length + 255;
      }
      if at >= dataLen {
        return TooShort;
      }
      r := Length(length + data[at] as int, at + 1);
    }

    /** Reads the head of the option at `i`. */
    method ReadHead(i: nat, current: nat) returns (r: Read)
      requires dataLen < data.Length
      ensures r == ReadOption(data[..dataLen], i, current)
    {
      hide ReadExtension;
      if i >= dataLen {
        return Outside;
      } else if data[i] == TERMINATOR {
        return End;
      }
      var at, number := i, current;
      if data[at] == JUMP_1 {
        number, at := number + 15, at + 1;
      } else if data[at] == JUMP_2 {
        if at + 2 >= dataLen {
          return Outside;
        }
        number, at := number + (data[at + 1] as int + 2) * 8, at + 2;
      } else if data[at] == JUMP_3 {
        if at + 3 >= dataLen {
          return Outside;
        }
        number, at := number + (data[at + 1] as int * 0x100 + data[at + 2] as int + 258) * 8, at + 3;
      }
      if at >= dataLen {
        return Outside;
      }
      number := number + data[at] / 16;
      var length := Length.Length(data[at] % 16, at + 1);
      if data[at] % 16 == 15 {
        length := ReadLongLength(at + 1);
      }
      if length.TooShort? || length.at + length.length > dataLen {
        return Outside;
      }
      r := Item(number, length.at, length.length);
    }

    /** Appends a segment to the string of its option, or lets the string begin with it. */
    method MergeMultiOption(number: nat, at: nat, length: nat, sep: byte, ghost was: seq<byte>, ghost current: nat,
                            ghost i: nat)
      requires dataLen < data.Length && Parsing(data[..dataLen], was, places, current, i) && Typed(places)
      requires KindOf(number) == PartsKind(sep) && current <= number && i < at && at + length <= dataLen == |was|
      modifies data, this`places
      ensures Merged(old(data[..dataLen]), old(places), data[..dataLen], places, was, number, at, length, sep)
    {
      hide Parsing, FieldsAt, Overwrite, Merged, KindOf;
      ghost var buf := data[..dataLen];
      ParsingFits(buf, was, places, current, i);
      SameAhead(buf, was, i, at, at + length);
      if number in places && places[number].length > 0 {
        var p := places[number];
        MergesMore(buf, was, places, current, i, number, at, length, sep);
        PutSeparator(p.at + p.length, sep);
        ghost var separated := data[..dataLen];
        OverwriteReads(buf, p.at + p.length, [sep]);
        SameAhead(separated, buf, p.at + p.length + 1, at, at + length);
        Move(p.at + p.length + 1, at, length);
        OverwriteOn(buf, p.at + p.length, [sep], was[at..at + length]);
        places := places[number := Text(p.at, p.length + 1 + length)];
      } else {
        MergesFirst(buf, was, places, current, i, number, at, length, sep);
        places := places[number := Text(at, length)];
      }
    }

    /** Stores the option whose value lies at `at`. */
    method StoreOption(number: nat, at: nat, length: nat, ghost was: seq<byte>, ghost current: nat,
                       ghost i: nat) returns (r: Refusal)
      requires dataLen < data.Length && Parsing(data[..dataLen], was, places, current, i) && Typed(places)
      requires current <= number && i < at && at + length <= dataLen == |was|
      modifies data, this`places
      ensures HasStored(old(data[..dataLen]), old(places), data[..dataLen], places,
                        was, Option(number, was[at..at + length]), at + length, r)
    {
      hide Parsing, FieldsAt, Merged, KindOf, IntValue, BlockOf;
      ghost var buf, o := data[..dataLen], Option(number, was[at..at + length]);
      ParsingFits(buf, was, places, current, i);
      SameAhead(buf, was, i, at, at + length);
      assert data[at..at + length] == o.value;
      if number >= BITMAP_LIMIT {
        return Refusal(Undefined);
      }
      var place;
      match KindOf(number) {
        case NumberKind(limit) =>
          var v := ParseIntOption(data[at..at + length]);
          place := Plain(Number(if limit > 0 then v % limit else 0));
        case OpaqueKind =>
          var n := if length > OPAQUE_LEN then OPAQUE_LEN else length;
          place := Plain(Bytes(data[at..at + n]));
          assert data[at..at + n] == o.value[..n];
        case WholeKind =>
          place := Text(at, length);
        case PartsKind(sep) =>
          MergeMultiOption(number, at, length, sep, was, current, i);
          MergedIsStored(buf, old(places), data[..dataLen], places, was, number, at, length, sep);
          return Fine;
        case NumbersKind =>
          HadNumbers(buf, places, number);
          var had := if number in places && places[number].Plain? && places[number].field.Numbers?
                     then places[number].field.values else [];
          if |had| < MAX_ACCEPT_NUM {
            var v := ParseIntOption(data[at..at + length]);
            had := had + [v % 0x1_0000];
          }
          place := Plain(Numbers(had));
        case BlockKind =>
          var v := ParseIntOption(data[at..at + length]);
          place := Plain(BlockOf(v));
        case FlagKind =>
          place := Plain(Flag);
        case ProxyKind =>
          return Refusal(ProxyingNotSupported);
        case UnknownKind =>
          if number % 2 == 1 {
            return Refusal(BadOption);
          }
          place := Plain(Unknown);
      }
      StoresPlain(buf, was, places, current, i, o, place, at + length);
      places := places[number := place];
      r := Fine;
    }

    /** Reads the options from the fixed header on; `at` is where reading has stopped. */
    method ParseOptions(count: nat) returns (r: Refusal, at: nat)
      requires HEADER_LEN <= dataLen < data.Length && places == map[]
      modifies data, this`places
      ensures var expected := ReadFields(old(data[..dataLen]), HEADER_LEN, 0, 0, count, map[]);
        HasRead(expected, data[..dataLen], old(data[..dataLen]), places, at, r)
    {
      hide Parsing, FieldsAt, ReadOption, Store, Typed, TypedPlace;
      ghost var was, expected := data[..dataLen], ReadFields(data[..dataLen], HEADER_LEN, 0, 0, count, map[]);
      var index, current: nat := 0, 0;
      at := HEADER_LEN;
      ParsingStarts(was);
      while index < count || count == 15
        invariant HEADER_LEN <= at <= dataLen && Parsing(data[..dataLen], was, places, current, at) && Typed(places)
        invariant Fit(places, dataLen)
        invariant ReadFields(was, at, current, index, count, FieldsAt(data[..dataLen], places)) == expected
        decreases dataLen - at
      {
        ghost var buf, had := data[..dataLen], places;
        ParsingFits(buf, was, places, current, at);
        SameOption(buf, was, at, current);
        var head := ReadHead(at, current);
        if head.End? {
          return Fine, at;
        } else if head.Outside? {
          return Refusal(Undefined), at;
        }
        r := StoreOption(head.number, head.at, head.length, was, current, at);
        if r.Refusal? {
          return;
        }
        StoredOn(buf, had, data[..dataLen], places, was,
                 Option(head.number, was[head.at..head.at + head.length]), head.at + head.length);
        index, current, at := index + 1, head.number, head.at + head.length;
      }
      ParsingFits(data[..dataLen], was, places, current, at);
      r := Fine;
    }

    /** Parses the message in the buffer and ends its payload with a zero. */
    method ParseMessage() returns (r: Refusal)
      requires dataLen < data.Length && places == map[]
      modifies data, this
      ensures var expected := Parse(old(data[..dataLen]));
        if expected.Failed? then r == Refusal(expected.status)
        else
          && r == Fine && kind == expected.packet.kind && code == expected.packet.code && mid == expected.packet.mid
          && Fit(places, dataLen) && FieldsAt(data[..dataLen], places) == expected.packet.fields
          && Apart(places) && Fit(places, payloadAt)
          && payloadAt + payloadLen <= dataLen && data[payloadAt..payloadAt + payloadLen] == expected.packet.payload
          && data[payloadAt + payloadLen] == 0
    {
      hide Parsing, FieldsAt, ReadFields, Fit;
      ghost var was := data[..dataLen];
      if dataLen < HEADER_LEN {
        return Refusal(Undefined);
      }
      version := data[0] / 64;
      kind := data[0] / 16 % 4;
      var count := data[0] % 16;
      code := data[1];
      mid := data[2] as int * 0x100 + data[3] as int;
      if version != 1 {
        return Refusal(BadRequest);
      }
      var at;
      r, at := ParseOptions(count);
      if r.Refusal? {
        return;
      }
      payloadAt := at;
      payloadLen := if dataLen - at > MAX_CHUNK_SIZE then MAX_CHUNK_SIZE else dataLen - at;
      ghost var read := data[..dataLen];
      data[payloadAt + payloadLen] := 0;
      EndsPayload(was, read, data[..dataLen], places, at, payloadLen);
    }

    method PutSeparator(i: nat, sep: byte)
      requires i < dataLen < data.Length
      modifies data
      ensures data[..dataLen] == Overwrite(old(data[..dataLen]), i, [sep])
    {
      data[i] := sep;
    }

    /** Moves bytes towards the beginning of the buffer. */
    method Move(target: nat, source: nat, length: nat)
      requires target <= source && source + length <= dataLen < data.Length
      modifies data
      ensures data[..dataLen] == Overwrite(old(data[..dataLen]), target, old(data[..dataLen])[source..source + length])
    {
      hide Overwrite;
      ghost var was := data[..dataLen];
      OverwriteNothing(was, target);
      assert was[source..source] == [];
      for k := 0 to length
        invariant data[..dataLen] == Overwrite(was, target, was[source..source + k])
      {
        MovesByte(was, target, source, k);
        data[target + k] := data[source + k];
        assert data[..dataLen] == Overwrite(was, target, was[source..source + k])[target + k := was[source + k]];
      }
    }
  }

  lemma StoresPlain(buf: seq<byte>, was: seq<byte>, places: map<nat, Place>, current: nat, i: nat, o: Option,
                    p: Place, end: nat)
    requires Parsing(buf, was, places, current, i) && Typed(places) && current <= o.number && i <= end <= |buf|
    requires p.Text? ==> i <= p.at && p.at + p.length <= end
    requires TypedPlace(o.number, p)
    ensures Fit(places, |buf|) && Fit(places[o.number := p], |buf|)
    ensures Store(FieldsAt(buf, places), o) == Stored(FieldsAt(buf, places)[o.number := FieldAt(buf, p)]) ==>
      HasStored(buf, places, buf, places[o.number := p], was, o, end, Fine)
  {
    hide Parsing, Store, KindOf;
    ParsingFits(buf, was, places, current, i);
    StoresPlace(buf, was, places, current, i, o.number, p, end);
  }

  datatype Refusal = Fine | Refusal(status: Status)

  /** The option `o` has been stored, or refused for the same reason as in `Store`. */
  ghost predicate HasStored(buf: seq<byte>, places: map<nat, Place>, after: seq<byte>, placed: map<nat, Place>,
                            was: seq<byte>, o: Option, end: nat, r: Refusal)
  {
    && Fit(places, |buf|)
    && var s := Store(FieldsAt(buf, places), o);
    && (s.Refused? ==> r == Refusal(s.status))
    && (s.Stored? ==> r == Fine && Parsing(after, was, placed, o.number, end) && Typed(placed)
                      && Fit(placed, |after|) && FieldsAt(after, placed) == s.fields)
  }

  /** What has been read is what a reader of the unchanged message would have read. */
  ghost predicate HasRead(expected: Options, buf: seq<byte>, was: seq<byte>, places: map<nat, Place>, at: nat, r: Refusal) {
    if expected.Stopped? then r == Refusal(expected.status)
    else
      && r == Fine && at == expected.at <= |buf| == |was| && buf[at..] == was[at..]
      && Fit(places, at) && Apart(places) && FieldsAt(buf, places) == expected.fields
  }

  lemma ParsingStarts(was: seq<byte>)
    requires HEADER_LEN <= |was|
    ensures Parsing(was, was, map[], 0, HEADER_LEN) && Typed(map[]) && Fit(map[], |was|) && FieldsAt(was, map[]) == map[]
  {
  }

  lemma StoredOn(buf: seq<byte>, places: map<nat, Place>, after: seq<byte>, placed: map<nat, Place>, was: seq<byte>,
                 o: Option, end: nat)
    requires HasStored(buf, places, after, placed, was, o, end, Fine)
    ensures Fit(places, |buf|) && Store(FieldsAt(buf, places), o).Stored?
    ensures Parsing(after, was, placed, o.number, end) && Typed(placed) && Fit(placed, |after|)
    ensures FieldsAt(after, placed) == Store(FieldsAt(buf, places), o).fields
  {
    hide Store, Parsing, FieldsAt;
  }

  /** The zero behind the payload leaves all strings alone. */
  lemma EndsPayload(was: seq<byte>, buf: seq<byte>, after: seq<byte>, places: map<nat, Place>, at: nat, length: nat)
    requires at + length <= |buf| == |was| == |after| && buf[at..] == was[at..] && Fit(places, at)
    requires length == if |was| - at > MAX_CHUNK_SIZE then MAX_CHUNK_SIZE else |was| - at
    requires forall k | 0 <= k < |buf| && k != at + length :: after[k] == buf[k]
    ensures Fit(places, |after|) && FieldsAt(after, places) == FieldsAt(buf, places)
    ensures after[at..at + length] == Payload(was, at)
  {
    SameAhead(buf, was, at, at, at + length);
    forall n | n in places
      ensures FieldAt(after, places[n]) == FieldAt(buf, places[n])
    {
    }
  }

  lemma MergedIsStored(buf: seq<byte>, places: map<nat, Place>, after: seq<byte>, placed: map<nat, Place>,
                       was: seq<byte>, number: nat, at: nat, length: nat, sep: byte)
    requires at + length <= |was| && Merged(buf, places, after, placed, was, number, at, length, sep)
    requires KindOf(number) == PartsKind(sep) && number < BITMAP_LIMIT
    ensures HasStored(buf, places, after, placed, was, Option(number, was[at..at + length]), at + length, Fine)
  {
    hide Parsing, KindOf, FieldsAt;
  }

  lemma HadNumbers(buf: seq<byte>, places: map<nat, Place>, number: nat)
    requires Fit(places, |buf|) && Typed(places) && KindOf(number).NumbersKind?
    ensures NumbersIn(FieldsAt(buf, places), number) ==
      if number in places && places[number].Plain? && places[number].field.Numbers? then places[number].field.values else []
  {
    hide KindOf;
  }

  lemma MovesByte(was: seq<byte>, target: nat, source: nat, k: nat)
    requires target <= source && source + k < |was|
    ensures var moved := Overwrite(was, target, was[source..source + k]);
      moved[source + k] == was[source + k]
        && moved[target + k := was[source + k]] == Overwrite(was, target, was[source..source + k + 1])
  {
  }
}
