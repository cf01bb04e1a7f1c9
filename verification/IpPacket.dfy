/** Checking the checksums of an IP packet, and giving it an identification. */
module IpPacket {

  import opened Bytes
  import opened InternetChecksum

  const TCP := 6
  const UDP := 17
  const ICMP := 1

  /** The result when a sum would be taken over bytes outside the buffer. */
  const UNDEFINED := -100

  ghost predicate IsBuffer(buf: seq<byte>, len: nat) { |buf| == BUFFER_SIZE && len <= BUFFER_SIZE }

  /** The length of the header in bytes, as the packet states it. */
  function HeaderLength(buf: seq<byte>): (r: nat)
    requires |buf| == BUFFER_SIZE
    ensures r % 4 == 0 && r <= 60
  {
    4 * (buf[0] % 16)
  }

  function Sum(buf: seq<byte>, from: nat, upto: nat): nat
    requires |buf| == BUFFER_SIZE && from <= upto <= |buf|
  {
    WordSum(buf[from..upto])
  }

  /** The check of the header. */
  function CheckHeader(buf: seq<byte>, len: nat): int
    requires IsBuffer(buf, len)
  {
    if buf[0] / 16 != 4 then -1
    else if Word(buf[2], buf[3]) > len then -2
    else if Word(buf[2], buf[3]) < len then -3
    else if !Passes(Sum(buf, 0, HeaderLength(buf))) then -4
    else 0
  }

  /** The check of what the header is followed by. */
  function CheckPayload(buf: seq<byte>, len: nat): int
    requires IsBuffer(buf, len)
  {
    var hl := HeaderLength(buf);
    if buf[9] == TCP || buf[9] == UDP then
      if hl > len then UNDEFINED
      else if Passes(buf[9] + len - hl + Sum(buf, 12, 20) + Sum(buf, hl, len)) then 0
      else if buf[9] == TCP then -5
      else if Word(buf[26], buf[27]) != 0 then -6
      else 0
    else if buf[9] == ICMP then
      if hl > len then UNDEFINED
      else if Passes(Sum(buf, hl, len)) then 0
      else -7
    else 0
  }

  function CheckIp(buf: seq<byte>, len: nat): int
    requires IsBuffer(buf, len)
  {
    if CheckHeader(buf, len) != 0 then CheckHeader(buf, len) else CheckPayload(buf, len)
  }

  method Check(buf: seq<byte>, len: nat) returns (code: int)
    requires IsBuffer(buf, len)
    ensures code == CheckIp(buf, len)
  {
    hide Folded, WordSum, Passes;
    if buf[0] / 16 != 4 {
      return -1;
    }
    if Word(buf[2], buf[3]) > len {
      return -2;
    }
    if Word(buf[2], buf[3]) < len {
      return -3;
    }
    var hl := HeaderLength(buf);
    FoldedZero();
    var sum := Ip4Sum(0, buf[0..hl], 0);
    FoldedPasses(Sum(buf, 0, hl));
    if sum != 0xFFFF && sum != 0 {
      return -4;
    }
    if buf[9] == TCP || buf[9] == UDP {
      if hl > len {
        return UNDEFINED;
      }
      var start := buf[9] + len - hl;
      FoldedSmall(start);
      sum := Ip4Sum(start, buf[12..20], start);
      sum := Ip4Sum(sum, buf[hl..len], start + Sum(buf, 12, 20));
      FoldedPasses(start + Sum(buf, 12, 20) + Sum(buf, hl, len));
      if sum != 0xFFFF && sum != 0 {
        if buf[9] == TCP {
          return -5;
        } else if Word(buf[26], buf[27]) != 0 {
          return -6;
        }
      }
    } else if buf[9] == ICMP {
      if hl > len {
        return UNDEFINED;
      }
      sum := Ip4Sum(0, buf[hl..len], 0);
      FoldedPasses(Sum(buf, hl, len));
      if sum != 0xFFFF && sum != 0 {
        return -7;
      }
    }
    code := 0;
  }

  /** What a transport sum covers besides the segment (section 3.1 of RFC 793 and the introduction of RFC 768):
      source and destination address, a zero byte, the protocol, and the length of the segment. */
  function PseudoHeader(buf: seq<byte>, length: nat): (r: seq<byte>)
    requires |buf| == BUFFER_SIZE && length < 0x1_0000
    ensures |r| == 12
  {
    buf[12..20] + [0, buf[9], length / 0x100, length % 0x100]
  }

  lemma PseudoHeaderSum(buf: seq<byte>, length: nat)
    requires |buf| == BUFFER_SIZE && length < 0x1_0000
    ensures WordSum(PseudoHeader(buf, length)) == buf[9] + length + Sum(buf, 12, 20)
  {
    var tail: seq<byte> := [0, buf[9], length / 0x100, length % 0x100];
    SumTogether(buf[12..20], tail);
    assert tail[2..] == [length / 0x100, length % 0x100] && tail[2..][2..] == [];
    assert WordSum(tail[2..]) == Word(length / 0x100, length % 0x100);
    assert WordSum(tail) == Word(0, buf[9]) + WordSum(tail[2..]);
  }

  /** The checks of a packet: version 4, its length as stated, and sums of words that are multiples of
      65535: of the header, of a TCP or UDP segment behind its pseudo header, unless the sum of a datagram is
      left out, and of an ICMP message. */
  lemma CheckMeans(buf: seq<byte>, len: nat)
    requires IsBuffer(buf, len)
    ensures var code, hl := CheckIp(buf, len), 4 * (buf[0] % 16) as nat;
      var total := buf[2] as int * 0x100 + buf[3] as int;
      if buf[0] / 16 != 4 then code == -1
      else if total > len then code == -2
      else if total < len then code == -3
      else if WordSum(buf[..hl]) % 0xFFFF != 0 then code == -4
      else if buf[9] != 6 && buf[9] != 17 && buf[9] != 1 then code == 0
      else if hl > len then code == UNDEFINED
      else
        var segment := buf[hl..len];
        var whole := if buf[9] == 1 then segment else PseudoHeader(buf, len - hl) + segment;
        if WordSum(whole) % 0xFFFF == 0 || (buf[9] == 17 && buf[26] == 0 == buf[27]) then code == 0
        else code == (if buf[9] == 6 then -5 else if buf[9] == 17 then -6 else -7)
  {
    hide WordSum;
    var hl := HeaderLength(buf);
    if hl <= len {
      PseudoHeaderSum(buf, len - hl);
      SumTogether(PseudoHeader(buf, len - hl), buf[hl..len]);
    }
    assert buf[0..hl] == buf[..hl];
  }

  /** A packet that passes: a datagram of one byte from 10.0.0.1 to 10.0.0.2. */
  lemma PacketThatPasses(buf: seq<byte>)
    requires |buf| == BUFFER_SIZE
    requires buf[..20] == [0x45, 0, 0, 29, 0, 0, 0x40, 0, 0x40, 17, 0x26, 0xCE, 10, 0, 0, 1, 10, 0, 0, 2]
    requires buf[20..29] == [0x12, 0x34, 0x56, 0x78, 0, 9, 0xD8, 0x2C, 0xAB]
    ensures CheckIp(buf, 29) == 0
  {
    hide WordSum;
    var head, segment := buf[..20], buf[20..29];
    assert buf[0] == head[0] && buf[2] == head[2] && buf[3] == head[3] && buf[9] == head[9];
    assert buf[12..20] == head[12..20] == [10, 0, 0, 1, 10, 0, 0, 2];
    assert PseudoHeader(buf, 9) == [10, 0, 0, 1, 10, 0, 0, 2, 0, 17, 0, 9];
    HeadSum(head);
    SegmentSum(PseudoHeader(buf, 9), segment);
    CheckMeans(buf, 29);
  }

  lemma HeadSum(head: seq<byte>)
    requires head == [0x45, 0, 0, 29, 0, 0, 0x40, 0, 0x40, 17, 0x26, 0xCE, 10, 0, 0, 1, 10, 0, 0, 2]
    ensures WordSum(head) == 0xFFFF
  {
    var a: seq<byte>, b: seq<byte> := [0x45, 0, 0, 29, 0, 0, 0x40, 0], [0x40, 17, 0x26, 0xCE, 10, 0, 0, 1];
    var c: seq<byte> := [10, 0, 0, 2];
    assert head == a + (b + c);
    SumTogether(a, b + c);
    SumTogether(b, c);
    FourWords(0x45, 0, 0, 29, 0, 0, 0x40, 0);
    FourWords(0x40, 17, 0x26, 0xCE, 10, 0, 0, 1);
    TwoWords(10, 0, 0, 2);
  }

  lemma SegmentSum(pseudo: seq<byte>, segment: seq<byte>)
    requires pseudo == [10, 0, 0, 1, 10, 0, 0, 2, 0, 17, 0, 9]
    requires segment == [0x12, 0x34, 0x56, 0x78, 0, 9, 0xD8, 0x2C, 0xAB]
    ensures WordSum(pseudo + segment) == 2 * 0xFFFF
  {
    var a: seq<byte>, b: seq<byte> := [10, 0, 0, 1, 10, 0, 0, 2], [0, 17, 0, 9];
    var c: seq<byte>, d: seq<byte> := [0x12, 0x34, 0x56, 0x78, 0, 9, 0xD8, 0x2C], [0xAB];
    assert pseudo + segment == a + (b + (c + d));
    SumTogether(a, b + (c + d));
    SumTogether(b, c + d);
    SumTogether(c, d);
    FourWords(10, 0, 0, 1, 10, 0, 0, 2);
    TwoWords(0, 17, 0, 9);
    FourWords(0x12, 0x34, 0x56, 0x78, 0, 9, 0xD8, 0x2C);
  }

  lemma TwoWords(a: byte, b: byte, c: byte, d: byte)
    ensures WordSum([a, b, c, d]) == Word(a, b) + Word(c, d)
  {
    assert [a, b, c, d][2..] == [c, d] && [c, d][2..] == [];
    assert WordSum([c, d]) == Word(c, d);
  }

  lemma FoldedZero()
    ensures Folded(0) == 0
  {
  }

  lemma FoldedSmall(w: word)
    ensures Folded(w) == w
  {
  }

  // ----- Giving a packet an identification

  function SetWord(buf: seq<byte>, i: nat, w: word): (r: seq<byte>)
    requires i + 1 < |buf|
    ensures |r| == |buf|
  {
    buf[i := w / 0x100][i + 1 := w % 0x100]
  }

  /** The packet with the identification `nid`, whose complement has been added to the checksum. */
  function Rewritten(buf: seq<byte>, nid: word): (r: seq<byte>)
    requires |buf| == BUFFER_SIZE
    ensures |r| == BUFFER_SIZE
  {
    SetWord(SetWord(buf, 4, nid), 10, Add(Word(buf[10], buf[11]), 0xFFFF - nid))
  }

  /** A word in memory as a host of either byte order sees it. */
  function Load(big: bool, b0: byte, b1: byte): word { if big then Word(b0, b1) else Word(b1, b0) }

  /** Rewrites a packet with the arithmetic of the host. */
  method RewriteId(buf: array<byte>, id: word, big: bool)
    requires buf.Length == BUFFER_SIZE
    modifies buf
    ensures buf[..] == Rewritten(old(buf[..]), id)
    // The identification, high byte first, and a checksum that is less by it; nothing else is changed.
    ensures buf[4] == id / 0x100 && buf[5] == id % 0x100
    ensures (Word(buf[10], buf[11]) + id - Word(old(buf[10]), old(buf[11]))) % 0xFFFF == 0
    ensures forall i | 0 <= i < BUFFER_SIZE && i != 4 && i != 5 && i != 10 && i != 11 :: buf[i] == old(buf[i])
  {
    hide Add, Swap;
    RewrittenBytes(buf[..], id);
    HostOrder(buf[10], buf[11], id, big);
    var nid := if big then id else Swap(id);
    Store(buf, 4, nid, big);
    var complement := 0xFFFF - nid;
    var sum := EndAround(Load(big, buf[10], buf[11]), complement);
    Store(buf, 10, sum, big);
  }

  lemma RewrittenBytes(buf: seq<byte>, nid: word)
    requires |buf| == BUFFER_SIZE
    ensures var r := Rewritten(buf, nid);
      && r[4] == nid / 0x100 && r[5] == nid % 0x100
      && (Word(r[10], r[11]) + nid - Word(buf[10], buf[11])) % 0xFFFF == 0
      && forall i | 0 <= i < BUFFER_SIZE && i != 4 && i != 5 && i != 10 && i != 11 :: r[i] == buf[i]
  {
    var sum := Word(buf[10], buf[11]);
    Negates(sum, nid);
    Digits(Add(sum, 0xFFFF - nid) / 0x100, Add(sum, 0xFFFF - nid) % 0x100);
  }

  method Store(buf: array<byte>, i: nat, w: word, big: bool)
    requires i + 1 < buf.Length
    modifies buf
    ensures buf[..] == SetWord(old(buf[..]), i, if big then w else Swap(w))
  {
    if big {
      buf[i], buf[i + 1] := w / 0x100, w % 0x100;
    } else {
      buf[i], buf[i + 1] := w % 0x100, w / 0x100;
    }
  }

  lemma SwapOf(hi: byte, lo: byte)
    ensures Swap(Word(hi, lo)) == Word(lo, hi)
  {
    Digits(hi, lo);
  }

  lemma Digits(h: nat, l: nat)
    requires l < 0x100
    ensures (h * 0x100 + l) / 0x100 == h && (h * 0x100 + l) % 0x100 == l
  {
  }

  lemma Complement(w: word)
    ensures 0xFFFF - Swap(w) == Swap(0xFFFF - w) && Swap(Swap(w)) == w
  {
    hide Swap;
    var h, l := w / 0x100, w % 0x100;
    assert w == Word(h, l) && 0xFFFF - w == Word(255 - h, 255 - l);
    SwapOf(h, l);
    SwapOf(l, h);
    SwapOf(255 - h, 255 - l);
  }

  lemma HostOrder(b0: byte, b1: byte, id: word, big: bool)
    ensures Swap(Swap(id)) == id
    ensures !big ==> Swap(Add(Load(big, b0, b1), 0xFFFF - Swap(id))) == Add(Word(b0, b1), 0xFFFF - id)
  {
    hide Swap, Add, Word;
    Complement(id);
    if !big {
      var sum := Word(b0, b1);
      SwapOf(b0, b1);
      SwapAdds(sum, 0xFFFF - id);
      Complement(Add(sum, 0xFFFF - id));
    }
  }

  // ----- The checks of a rewritten packet

  lemma {:induction false} SumOfSet(s: seq<byte>, i: nat, w: word)
    requires i % 2 == 0 && i + 1 < |s|
    ensures WordSum(SetWord(s, i, w)) + Word(s[i], s[i + 1]) == WordSum(s) + w
    decreases i
  {
    if i > 0 {
      SumOfSet(s[2..], i - 2, w);
      assert SetWord(s, i, w)[2..] == SetWord(s[2..], i - 2, w);
    } else {
      assert SetWord(s, i, w)[2..] == s[2..];
    }
  }

  /** A sum over part of the buffer after a word has been set. */
  lemma SumAfterSet(buf: seq<byte>, i: nat, w: word, from: nat, upto: nat)
    requires |buf| == BUFFER_SIZE && i + 1 < |buf| && i % 2 == 0 && from % 2 == 0 && from <= upto <= |buf|
    requires upto != i + 1
    ensures Sum(SetWord(buf, i, w), from, upto) + (if from <= i < upto then Word(buf[i], buf[i + 1]) else 0) ==
      Sum(buf, from, upto) + (if from <= i < upto then w else 0)
  {
    if from <= i < upto {
      SumOfSet(buf[from..upto], i - from, w);
      assert SetWord(buf, i, w)[from..upto] == SetWord(buf[from..upto], i - from, w);
    } else {
      assert SetWord(buf, i, w)[from..upto] == buf[from..upto];
    }
  }

  /** How the two words that are rewritten change a sum over part of the buffer. */
  lemma SumAfterRewrite(buf: seq<byte>, nid: word, from: nat, upto: nat)
    requires |buf| == BUFFER_SIZE && buf[4] == 0 == buf[5]
    requires from % 2 == 0 && from <= upto <= |buf| && upto != 5 && upto != 11
    ensures var was, now := Word(buf[10], buf[11]), Add(Word(buf[10], buf[11]), 0xFFFF - nid);
      Sum(Rewritten(buf, nid), from, upto) + (if from <= 10 < upto then was else 0) ==
      Sum(buf, from, upto) + (if from <= 4 < upto then nid else 0) + (if from <= 10 < upto then now else 0)
  {
    hide Sum, Add;
    SumAfterSet(buf, 4, nid, from, upto);
    var named := SetWord(buf, 4, nid);
    SumAfterSet(named, 10, Add(Word(buf[10], buf[11]), 0xFFFF - nid), from, upto);
  }

  lemma Negates(sum: word, nid: word)
    ensures exists c: nat :: c <= 1 && Add(sum, 0xFFFF - nid) + nid == sum + 0xFFFF * c
  {
    var c := if sum + (0xFFFF - nid) >= 0x1_0000 then 0 else 1;
    assert Add(sum, 0xFFFF - nid) + nid == sum + 0xFFFF * c;
  }

  /** The sum of the rewritten header passes if and only if it covers the checksum as well as the
      identification, or neither, or the identification counts as zero. */
  lemma HeaderAfterRewrite(buf: seq<byte>, nid: word, hl: nat)
    requires |buf| == BUFFER_SIZE && buf[4] == 0 == buf[5] && hl % 4 == 0 && hl <= 60 && Passes(Sum(buf, 0, hl))
    ensures Passes(Sum(Rewritten(buf, nid), 0, hl)) <==> hl != 8 || nid % 0xFFFF == 0
  {
    hide Sum, Add, Word, Rewritten, Passes;
    SumAfterRewrite(buf, nid, 0, hl);
    PassesAgain(Sum(buf, 0, hl), Word(buf[10], buf[11]), nid);
  }

  lemma PassesAgain(total: nat, sum: word, nid: word)
    requires Passes(total)
    ensures Passes(total + nid) <==> nid % 0xFFFF == 0
    ensures forall t: nat | t + sum == total + nid + Add(sum, 0xFFFF - nid) :: Passes(t)
  {
    Negates(sum, nid);
  }

  /** A sum over what follows the header passes as before. */
  lemma PayloadAfterRewrite(buf: seq<byte>, nid: word, hl: nat, len: nat, more: nat)
    requires |buf| == BUFFER_SIZE && buf[4] == 0 == buf[5] && hl % 4 == 0 && hl <= len && 12 <= len <= BUFFER_SIZE
    requires hl != 8 || nid % 0xFFFF == 0
    ensures Passes(more + Sum(Rewritten(buf, nid), hl, len)) <==> Passes(more + Sum(buf, hl, len))
  {
    hide Sum, Add, Word;
    SumAfterRewrite(buf, nid, hl, len);
    Negates(Word(buf[10], buf[11]), nid);
  }

  /** A packet that has passed the check passes it again with its identification, unless its header is
      stated to end between the identification and the checksum; then only if the identification counts
      as zero. */
  lemma RewriteKeepsChecks(buf: seq<byte>, len: nat, nid: word)
    requires IsBuffer(buf, len) && 12 <= len && buf[4] == 0 == buf[5] && CheckIp(buf, len) == 0
    ensures CheckIp(Rewritten(buf, nid), len) == 0 <==> buf[0] % 16 != 2 || nid % 0xFFFF == 0
  {
    hide Sum, Add, Passes;
    var hl := HeaderLength(buf);
    HeaderAfterRewrite(buf, nid, hl);
    if hl != 8 || nid % 0xFFFF == 0 {
      SumAfterRewrite(buf, nid, 12, 20);
      if hl <= len {
        PayloadAfterRewrite(buf, nid, hl, len, 0);
        PayloadAfterRewrite(buf, nid, hl, len, buf[9] + len - hl + Sum(buf, 12, 20));
      }
    }
  }
}
