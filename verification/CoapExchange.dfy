/** A message on its way: serialized into a buffer and parsed from it. */
module CoapExchange {

  import opened Bytes
  import opened CoapOption
  import opened CoapStream
  import opened CoapPacket
  import opened CoapSerialize
  import opened CoapSend
  import opened CoapReceive
  import opened CoapRoundTrip
  import opened CoapParse

  /** Serializes a packet and parses the bytes in their buffer, unless the header is too long. The
      parsed message is the packet as it arrives. */
  method Exchange(p: Packet, buffer: array<byte>) returns (n: nat, m: Message, r: Refusal)
    requires p.Valid() && PROXY_URI !in p.fields && HeaderSize(p) + |p.payload| < buffer.Length
    modifies buffer
    ensures m.data == buffer && m.dataLen == n < buffer.Length && (n == 0 <==> HeaderSize(p) > MAX_HEADER_SIZE)
    ensures n > 0 ==> r == Fine && m.kind == p.kind && m.code == p.code && m.mid == p.mid
    ensures n > 0 ==> Fit(m.places, n) && FieldsAt(buffer[..n], m.places) == Arrived(p.fields)
    ensures n > 0 ==> AreAt(buffer[..n], m.places, Arrived(p.fields))
    ensures n > 0 ==> m.payloadAt + m.payloadLen <= n
    ensures n > 0 ==> buffer[m.payloadAt..m.payloadAt + m.payloadLen] == ArrivedPacket(p).payload
  {
    hide AreAt, Overwrite, Settable, OptionsFrom, MessageBytes, Parse, Arrived, FieldsAt, Fit, EncodeList, Cut;
    ghost var was := buffer[..];
    n := SerializeMessage(p, buffer);
    m := new Message(buffer, n);
    r := Fine;
    if n > 0 {
      ParseOfSerialized(p);
      OverwriteReads(was, 0, MessageBytes(p));
      assert buffer[..n] == buffer[..][0..0 + n];
      r := m.ParseMessage();
      ReadFromPlaces(p, buffer[..n], m.places);
    }
  }

  /** Every field is there, its string at its place in the buffer. */
  ghost predicate AreAt(buf: seq<byte>, places: map<nat, Place>, fields: map<nat, Field>) {
    places.Keys == fields.Keys && forall k | k in places ::
      match places[k]
      case Plain(f) => fields[k] == f
      case Text(at, length) => at + length <= |buf| && fields[k] == Bytes(buf[at..at + length])
  }

  lemma ReadFromPlaces(p: Packet, buf: seq<byte>, places: map<nat, Place>)
    requires p.Valid() && Fit(places, |buf|) && FieldsAt(buf, places) == Arrived(p.fields)
    ensures AreAt(buf, places, Arrived(p.fields))
  {
    hide Arrived;
    assert places.Keys == FieldsAt(buf, places).Keys;
    forall k | k in places
      ensures FieldsAt(buf, places)[k] == FieldAt(buf, places[k])
    {
    }
  }
}
