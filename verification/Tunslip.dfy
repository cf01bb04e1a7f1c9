/** The way of a packet from the tunnel to the serial line. */
module Tunslip {

  import opened Bytes
  import opened InternetChecksum
  import opened IpPacket
  import Slip

  const DONT_FRAGMENT := 0x40

  /** What is sent for a packet, and what becomes of it in its buffer. */
  datatype Outcome = Sent | Dropped(code: int) | Overflow

  /** A packet without an identification that must not be fragmented; hosts of different byte order
      look at different bits. */
  predicate WantsId(buf: seq<byte>, big: bool)
    requires |buf| == InternetChecksum.BUFFER_SIZE
  {
    buf[4] == 0 == buf[5] && (if big then buf[6] else buf[7]) / DONT_FRAGMENT % 2 == 1
  }

  /** The packet as it is sent. */
  function Prepared(buf: seq<byte>, big: bool, id: word): (r: seq<byte>)
    requires |buf| == InternetChecksum.BUFFER_SIZE
    ensures |r| == |buf|
  {
    if WantsId(buf, big) then Rewritten(buf, id) else buf
  }

  class Tunnel {
    // Whether words in memory have their high byte first.
    const big: bool
    const slipBuf: array<byte>
    var slipEnd: nat
    var ipId: word

    constructor (big: bool, id: word)
      ensures Valid() && fresh(slipBuf) && this.big == big && ipId == id && slipEnd == 0
    {
      this.big := big;
      slipBuf := new byte[Slip.BUFFER_SIZE];
      slipEnd, ipId := 0, id;
    }

    ghost predicate Valid()
      reads this
    {
      slipBuf.Length == Slip.BUFFER_SIZE && slipEnd <= Slip.BUFFER_SIZE
    }

    /** Adds a byte to those to be sent, if there is room. */
    method SlipSend(c: byte) returns (ok: bool)
      requires Valid()
      modifies this`slipEnd, slipBuf
      ensures Valid() && ok == (old(slipEnd) < Slip.BUFFER_SIZE)
      ensures ok ==> slipBuf[..slipEnd] == old(slipBuf[..slipEnd]) + [c]
      ensures !ok ==> slipEnd == old(slipEnd) && slipBuf[..] == old(slipBuf[..])
    {
      if slipEnd >= slipBuf.Length {
        return false;
      }
      slipBuf[slipEnd] := c;
      slipEnd := slipEnd + 1;
      ok := true;
    }

    /** Sends the encoding of a byte. */
    method SendEncoded(b: byte) returns (ok: bool)
      requires Valid()
      modifies this`slipEnd, slipBuf
      ensures Valid() && ok == (old(slipEnd) + |Slip.EncodeByte(b)| <= Slip.BUFFER_SIZE)
      ensures ok ==> slipBuf[..slipEnd] == old(slipBuf[..slipEnd]) + Slip.EncodeByte(b)
    {
      if b == Slip.SLIP_END || b == Slip.SLIP_ESC {
        ok := SlipSend(Slip.SLIP_ESC);
        if ok {
          ok := SlipSend(if b == Slip.SLIP_END then Slip.SLIP_ESC_END else Slip.SLIP_ESC_ESC);
        }
      } else {
        ok := SlipSend(b);
      }
    }

    /** Checks a packet, gives it an identification if it wants one, checks it again and encodes it. The
        program ends when the encoding does not fit. */
    method WriteToSerial(inbuf: array<byte>, len: nat) returns (r: Outcome)
      requires Valid() && inbuf.Length == InternetChecksum.BUFFER_SIZE && len <= inbuf.Length && inbuf != slipBuf
      modifies this`slipEnd, this`ipId, slipBuf, inbuf
      ensures Valid()
      ensures r.Dropped? ==> slipBuf[..slipEnd] == old(slipBuf[..slipEnd])
      ensures r.Dropped? ==> var first := CheckIp(old(inbuf[..]), len);
        r.code == if first < 0 then first else CheckIp(Prepared(old(inbuf[..]), big, old(ipId)), len)
      ensures CheckIp(old(inbuf[..]), len) >= 0 && WantsId(old(inbuf[..]), big) ==> ipId == (old(ipId) + 1) % 0x1_0000
      ensures !(CheckIp(old(inbuf[..]), len) >= 0 && WantsId(old(inbuf[..]), big)) ==> ipId == old(ipId)
      ensures r.Sent? ==>
        && inbuf[..] == Prepared(old(inbuf[..]), big, old(ipId))
        && slipBuf[..slipEnd] == old(slipBuf[..slipEnd]) + Slip.Encode(inbuf[..len])
      ensures r.Dropped? <==>
        CheckIp(old(inbuf[..]), len) < 0 || CheckIp(Prepared(old(inbuf[..]), big, old(ipId)), len) < 0
      // What is sent: the packet as it was, or with the next identification if it had none and must not be
      // fragmented.
      ensures r.Sent? ==>
        var wants := old(inbuf[4]) == 0 == old(inbuf[5])
                     && (if big then old(inbuf[6]) else old(inbuf[7])) / 64 % 2 == 1;
        if wants then
          && inbuf[4] == old(ipId) / 0x100 && inbuf[5] == old(ipId) % 0x100
          && forall i | 0 <= i < 2000 && i != 4 && i != 5 && i != 10 && i != 11 :: inbuf[i] == old(inbuf[i])
        else inbuf[..] == old(inbuf[..])
      ensures r.Overflow? ==>
        old(slipEnd) + |Slip.Encode(Prepared(old(inbuf[..]), big, old(ipId))[..len])| > Slip.BUFFER_SIZE
    {
      hide CheckIp, Rewritten, Slip.EncodeBytes, Slip.EncodeByte;
      RewrittenBytes(inbuf[..], ipId);
      var code := Check(inbuf[..], len);
      if code < 0 {
        return Dropped(code);
      }
      if inbuf[4] == 0 && inbuf[5] == 0 && (if big then inbuf[6] else inbuf[7]) / DONT_FRAGMENT % 2 == 1 {
        RewriteId(inbuf, ipId, big);
        ipId := (ipId + 1) % 0x1_0000;
        code := Check(inbuf[..], len);
        if code < 0 {
          return Dropped(code);
        }
      }
      ghost var was, start, id := slipBuf[..slipEnd], slipEnd, ipId;
      NothingEncoded();
      for i := 0 to len
        invariant Valid() && slipBuf[..slipEnd] == was + Slip.EncodeBytes(inbuf[..i])
        invariant inbuf[..] == Prepared(old(inbuf[..]), big, old(ipId)) && ipId == id
      {
        EncodeNext(inbuf[..len], i);
        assert inbuf[..len][..i] == inbuf[..i] && inbuf[..len][..i + 1] == inbuf[..i + 1];
        var ok := SendEncoded(inbuf[i]);
        if !ok {
          assert inbuf[..len] == inbuf[..][..len];
          return Overflow;
        }
      }
      assert inbuf[..len] == inbuf[..][..len];
      var ok := SlipSend(Slip.SLIP_END);
      r := if ok then Sent else Overflow;
    }
  }

  // ----- Which packets fail the second check

  /** A host of big byte order never gives an identification to a packet whose header is stated to be two
      words long: the words of such a header do not add up with the bit that asks for one. */
  lemma ShortHeaderOnBigHost(buf: seq<byte>, len: nat)
    requires IsBuffer(buf, len) && CheckHeader(buf, len) == 0 && buf[0] % 16 == 2
    ensures !WantsId(buf, true)
  {
    hide Sum, Passes, Word;
    if buf[4] == 0 == buf[5] {
      ShortHeaderSum(buf);
      NoFragmentBit(buf[0], buf[1], Word(buf[2], buf[3]), buf[6], buf[7]);
    }
  }

  lemma NoFragmentBit(b0: byte, b1: byte, len: nat, b6: byte, b7: byte)
    requires b0 / 16 == 4 && b0 % 16 == 2 && len <= InternetChecksum.BUFFER_SIZE
    requires Passes(Word(b0, b1) + len + Word(b6, b7))
    ensures b6 / DONT_FRAGMENT % 2 == 0
  {
    assert b0 == 0x42;
    var total := Word(b0, b1) + len + Word(b6, b7);
    assert 0 < total < 2 * 0xFFFF;
    assert total == 0xFFFF;
    assert 0xB5 <= b6 <= 0xBD;
  }

  lemma ShortHeaderSum(buf: seq<byte>)
    requires |buf| == InternetChecksum.BUFFER_SIZE && buf[0] % 16 == 2 && buf[4] == 0 == buf[5]
    ensures Sum(buf, 0, HeaderLength(buf)) == Word(buf[0], buf[1]) + Word(buf[2], buf[3]) + Word(buf[6], buf[7])
  {
    assert HeaderLength(buf) == 8;
    assert buf[0..8] == [buf[0], buf[1], buf[2], buf[3], buf[4], buf[5], buf[6], buf[7]];
    FourWords(buf[0], buf[1], buf[2], buf[3], buf[4], buf[5], buf[6], buf[7]);
  }

  /** Of the packets that pass the first check and get an identification, those fail the second one that
      have a header of two words, on a host of little byte order, and an identification that does not
      count as zero. */
  lemma SecondCheckPasses(buf: seq<byte>, len: nat, big: bool, id: word)
    requires IsBuffer(buf, len) && 12 <= len && CheckIp(buf, len) >= 0 && WantsId(buf, big)
    ensures CheckIp(Prepared(buf, big, id), len) >= 0 <==> big || buf[0] % 16 != 2 || id % 0xFFFF == 0
  {
    hide CheckPayload, CheckHeader, Rewritten;
    CodesAreNegative(buf, len);
    CodesAreNegative(Rewritten(buf, id), len);
    if big && buf[0] % 16 == 2 {
      ShortHeaderOnBigHost(buf, len);
    } else {
      RewriteKeepsChecks(buf, len, id);
    }
  }

  lemma CodesAreNegative(buf: seq<byte>, len: nat)
    requires IsBuffer(buf, len)
    ensures CheckIp(buf, len) >= 0 ==> CheckIp(buf, len) == 0 && CheckHeader(buf, len) == 0
  {
    hide Sum, Passes;
  }

  /** Such a packet: its eight header bytes, whatever follows but a protocol with a sum of its own. */
  lemma ShortHeaderFails(buf: seq<byte>, id: word)
    requires |buf| == InternetChecksum.BUFFER_SIZE && buf[..8] == [0x42, 0, 0, 12, 0, 0, 0xBD, 0xF3]
    requires buf[9] == 0 && id % 0xFFFF != 0
    ensures CheckIp(buf, 12) == 0 && WantsId(buf, false) && CheckIp(Prepared(buf, false, id), 12) == -4
  {
    hide Rewritten;
    assert forall k | 0 <= k < 8 :: buf[k] == buf[..8][k];
    assert HeaderLength(buf) == 8 && Word(buf[2], buf[3]) == 12;
    ShortHeaderSum(buf);
    HeaderAfterRewrite(buf, id, 8);
    RewrittenHead(buf, id);
  }

  lemma RewrittenHead(buf: seq<byte>, id: word)
    requires |buf| == InternetChecksum.BUFFER_SIZE
    ensures forall k | 0 <= k < 4 :: Rewritten(buf, id)[k] == buf[k]
  {
  }

  lemma NothingEncoded()
    ensures Slip.EncodeBytes([]) == []
  {
  }

  lemma EncodeNext(p: seq<byte>, i: nat)
    requires i < |p|
    ensures Slip.EncodeBytes(p[..i + 1]) == Slip.EncodeBytes(p[..i]) + Slip.EncodeByte(p[i])
    ensures |Slip.EncodeBytes(p[..i + 1])| <= |Slip.EncodeBytes(p)|
  {
    assert p[..i + 1][..i] == p[..i];
    EncodedPrefix(p, i + 1);
  }

  lemma {:induction false} EncodedPrefix(p: seq<byte>, i: nat)
    requires i <= |p|
    ensures |Slip.EncodeBytes(p[..i])| <= |Slip.EncodeBytes(p)|
    decreases |p|
  {
    if i < |p| {
      assert p[..|p| - 1][..i] == p[..i];
      EncodedPrefix(p[..|p| - 1], i);
    } else {
      assert p[..i] == p;
    }
  }
}
