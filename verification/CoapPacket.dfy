/** A CoAP packet and its serialization. */
module CoapPacket {

  import opened Bytes
  import opened CoapOption
  import opened CoapStream
  import opened CoapText

  const IF_MATCH := 1
  const URI_HOST := 3
  const ETAG := 4
  const IF_NONE_MATCH := 5
  const OBSERVE := 6
  const URI_PORT := 7
  const LOCATION_PATH := 8
  const URI_PATH := 11
  const CONTENT_TYPE := 12
  const MAX_AGE := 14
  const URI_QUERY := 15
  const ACCEPT := 16
  const TOKEN := 19
  const LOCATION_QUERY := 20
  const BLOCK2 := 23
  const BLOCK1 := 27
  const SIZE := 28
  const PROXY_URI := 35

  const AMPERSAND: byte := 38
  const OPAQUE_LEN := 8
  const MAX_ACCEPT_NUM := 2
  const HEADER_LEN := 4
  const MAX_HEADER_SIZE := 70
  const MAX_CHUNK_SIZE := 128

  // ----- Fields of a packet

  datatype Kind =
    | NumberKind(limit: nat)
    | OpaqueKind
    | WholeKind
    | PartsKind(sep: byte)
    | NumbersKind
    | BlockKind
    | FlagKind
    | ProxyKind
    | UnknownKind

  function KindOf(number: nat): Kind {
    if number == IF_MATCH || number == ETAG || number == TOKEN then OpaqueKind
    else if number == URI_HOST then WholeKind
    else if number == IF_NONE_MATCH then FlagKind
    else if number == OBSERVE || number == URI_PORT || number == CONTENT_TYPE then NumberKind(0x1_0000)
    else if number == MAX_AGE || number == SIZE then NumberKind(0x1_0000_0000)
    else if number == LOCATION_PATH || number == URI_PATH then PartsKind(SLASH)
    else if number == URI_QUERY || number == LOCATION_QUERY then PartsKind(AMPERSAND)
    else if number == ACCEPT then NumbersKind
    else if number == BLOCK2 || number == BLOCK1 then BlockKind
    else if number == PROXY_URI then ProxyKind
    else UnknownKind
  }

  datatype Field =
    | Flag
    | Unknown
    | Number(value: nat)
    | Bytes(bytes: seq<byte>)
    | Numbers(values: seq<nat>)
    | Block(num: nat, more: bool, size: nat, offset: nat)

  /** What the setters of an option make sure of. */
  predicate Settable(number: nat, f: Field) {
    var kind := KindOf(number);
    match f
    case Flag => kind.FlagKind?
    case Unknown => false
    case Number(v) => kind.NumberKind? && v < kind.limit <= 0x1_0000_0000
    case Bytes(b) => (kind.OpaqueKind? && |b| <= OPAQUE_LEN) || kind.WholeKind? || kind.PartsKind? || kind.ProxyKind?
    case Numbers(v) => kind.NumbersKind? && 0 < |v| <= MAX_ACCEPT_NUM && forall i | 0 <= i < |v| :: v[i] < 0x1_0000
    case Block(num, more, size, offset) => kind.BlockKind? && num <= 0xF_FFFF && 16 <= size <= 2048 && offset == num * size
  }

  /** The sizes that a block option can state. */
  predicate BlockSize(size: nat) {
    size == 16 || size == 32 || size == 64 || size == 128 || size == 256 || size == 512 || size == 1024 || size == 2048
  }

  datatype Packet = Packet(kind: nat, code: byte, mid: nat, fields: map<nat, Field>, payload: seq<byte>) {
    predicate Valid() {
      && kind < 4 && mid < 0x1_0000 && |payload| <= MAX_CHUNK_SIZE
      && forall n | n in fields :: Settable(n, fields[n])
    }
  }

  // ----- The options of a packet

  function BlockBits(num: nat, more: bool, size: nat): nat {
    num * 16 + (if more then 8 else 0) + Log(size / 16) % 16
  }

  lemma BlockBitsFit(num: nat, more: bool, size: nat)
    requires num <= 0xF_FFFF
    ensures BlockBits(num, more, size) < 0x1_0000_0000
  {
  }

  function IntOptions(number: nat, vs: seq<nat>): seq<Option>
    requires forall i | 0 <= i < |vs| :: vs[i] < 0x1_0000
  {
    if vs == [] then [] else [Option(number, IntBytes(vs[0]))] + IntOptions(number, vs[1..])
  }

  function PartOptions(number: nat, parts: seq<seq<byte>>): (r: seq<Option>)
    ensures |r| == |parts| && forall i | 0 <= i < |r| :: r[i] == Option(number, parts[i])
  {
    if parts == [] then [] else [Option(number, parts[0])] + PartOptions(number, parts[1..])
  }

  /** The options that carry a field. */
  function OptionsOf(number: nat, f: Field): seq<Option>
    requires Settable(number, f)
  {
    match f
    case Flag => [Option(number, [])]
    case Number(v) => [Option(number, IntBytes(v))]
    case Bytes(b) =>
      if KindOf(number).PartsKind? then PartOptions(number, Parts(b, KindOf(number).sep, 0, 0)) else [Option(number, b)]
    case Numbers(vs) => IntOptions(number, vs)
    case Block(num, more, size, _) =>
      BlockBitsFit(num, more, size);
      [Option(number, IntBytes(BlockBits(num, more, size)))]
  }

  /** The options of the fields from number `n` on. */
  function OptionsFrom(fields: map<nat, Field>, n: nat): seq<Option>
    requires forall k | k in fields :: Settable(k, fields[k])
    decreases PROXY_URI + 1 - n
  {
    if n > PROXY_URI then []
    else (if n in fields then OptionsOf(n, fields[n]) else []) + OptionsFrom(fields, n + 1)
  }
}
