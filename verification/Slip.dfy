/** SLIP framing: packets written to a stream of bytes, and read back from it however the stream is
    cut between the calls of the reader. */
module Slip {

  import opened Bytes

  const SLIP_END: byte := 0xC0
  const SLIP_ESC: byte := 0xDB
  const SLIP_ESC_END: byte := 0xDC
  const SLIP_ESC_ESC: byte := 0xDD

  const BUFFER_SIZE := 2000

  // ----- Encoding

  function EncodeByte(b: byte): seq<byte> {
    if b == SLIP_END then [SLIP_ESC, SLIP_ESC_END]
    else if b == SLIP_ESC then [SLIP_ESC, SLIP_ESC_ESC]
    else [b]
  }

  function EncodeBytes(p: seq<byte>): seq<byte> {
    if p == [] then [] else EncodeBytes(p[..|p| - 1]) + EncodeByte(p[|p| - 1])
  }

  function Encode(p: seq<byte>): seq<byte> { EncodeBytes(p) + [SLIP_END] }

  function EncodeAll(ps: seq<seq<byte>>): seq<byte> {
    if ps == [] then [] else EncodeAll(ps[..|ps| - 1]) + Encode(ps[|ps| - 1])
  }

  // ----- Decoding

  /** What a reader has: the packets that are complete, the bytes of the next one, and whether an
      escape has been put back. */
  datatype Reading = Reading(packets: seq<seq<byte>>, buf: seq<byte>, escaped: bool)

  /** A packet that fills the buffer is given up. */
  function Put(buf: seq<byte>, b: byte): seq<byte> {
    if |buf| + 1 >= BUFFER_SIZE then [] else buf + [b]
  }

  function Unescape(b: byte): byte {
    if b == SLIP_ESC_END then SLIP_END else if b == SLIP_ESC_ESC then SLIP_ESC else b
  }

  /** One more byte of the stream. */
  function Feed(r: Reading, b: byte): Reading {
    if r.escaped then r.(buf := Put(r.buf, Unescape(b)), escaped := false)
    else if b == SLIP_ESC then r.(escaped := true)
    else if b == SLIP_END then
      if |r.buf| > 0 then Reading(r.packets + [r.buf], [], false) else r
    else r.(buf := Put(r.buf, b))
  }

  function FeedAll(r: Reading, s: seq<byte>): Reading {
    if s == [] then r else Feed(FeedAll(r, s[..|s| - 1]), s[|s| - 1])
  }

  /** The stream may be cut anywhere. */
  lemma {:induction false} FeedTogether(r: Reading, a: seq<byte>, b: seq<byte>)
    ensures FeedAll(r, a + b) == FeedAll(FeedAll(r, a), b)
    decreases |b|
  {
    if b == [] {
      assert a + b == a;
    } else {
      assert (a + b)[..|a + b| - 1] == a + b[..|b| - 1];
      FeedTogether(r, a, b[..|b| - 1]);
    }
  }

  function FeedCuts(r: Reading, cuts: seq<seq<byte>>): Reading {
    if cuts == [] then r else FeedAll(FeedCuts(r, cuts[..|cuts| - 1]), cuts[|cuts| - 1])
  }

  function Flatten(cuts: seq<seq<byte>>): seq<byte> {
    if cuts == [] then [] else Flatten(cuts[..|cuts| - 1]) + cuts[|cuts| - 1]
  }

  lemma {:induction false} CutsTogether(r: Reading, cuts: seq<seq<byte>>)
    ensures FeedCuts(r, cuts) == FeedAll(r, Flatten(cuts))
    decreases |cuts|
  {
    if cuts != [] {
      CutsTogether(r, cuts[..|cuts| - 1]);
      FeedTogether(r, Flatten(cuts[..|cuts| - 1]), cuts[|cuts| - 1]);
    }
  }

  lemma FeedEncodedByte(r: Reading, b: byte)
    requires !r.escaped && |r.buf| + 1 < BUFFER_SIZE
    ensures FeedAll(r, EncodeByte(b)) == r.(buf := r.buf + [b])
  {
    var s := EncodeByte(b);
    if |s| == 2 {
      assert s[..1] == [s[0]] && s[..1][..0] == [];
      assert FeedAll(r, s[..1]) == Feed(r, s[0]);
    } else {
      assert s[..0] == [];
    }
  }

  lemma {:induction false} FeedEncodedBytes(r: Reading, p: seq<byte>)
    requires !r.escaped && r.buf == [] && |p| < BUFFER_SIZE
    ensures FeedAll(r, EncodeBytes(p)) == r.(buf := p)
    decreases |p|
  {
    hide EncodeByte, Feed;
    if p != [] {
      var init := p[..|p| - 1];
      FeedEncodedBytes(r, init);
      FeedTogether(r, EncodeBytes(init), EncodeByte(p[|p| - 1]));
      FeedEncodedByte(r.(buf := init), p[|p| - 1]);
      assert init + [p[|p| - 1]] == p;
    }
  }

  lemma {:induction false} FeedEncoded(r: Reading, ps: seq<seq<byte>>)
    requires !r.escaped && r.buf == [] && forall k | 0 <= k < |ps| :: 0 < |ps[k]| < BUFFER_SIZE
    ensures FeedAll(r, EncodeAll(ps)) == r.(packets := r.packets + ps)
    decreases |ps|
  {
    hide EncodeBytes;
    if ps != [] {
      var init, p := ps[..|ps| - 1], ps[|ps| - 1];
      FeedEncoded(r, init);
      var before := r.(packets := r.packets + init);
      FeedTogether(r, EncodeAll(init), Encode(p));
      FeedTogether(before, EncodeBytes(p), [SLIP_END]);
      FeedEncodedBytes(before, p);
      assert [SLIP_END][..0] == [];
      assert FeedAll(before.(buf := p), [SLIP_END]) == Feed(before.(buf := p), SLIP_END);
      assert init + [p] == ps;
    }
  }

  /** Packets that are not empty and shorter than the buffer are read back exactly, however the bytes
      are cut between the calls of the reader. */
  lemma StreamRoundTrip(ps: seq<seq<byte>>, cuts: seq<seq<byte>>)
    requires forall k | 0 <= k < |ps| :: 0 < |ps[k]| < BUFFER_SIZE
    requires Flatten(cuts) == EncodeAll(ps)
    ensures FeedCuts(Reading([], [], false), cuts) == Reading(ps, [], false)
  {
    CutsTogether(Reading([], [], false), cuts);
    FeedEncoded(Reading([], [], false), ps);
    assert [] + ps == ps;
  }

  // ----- The bytes themselves

  /** How RFC 1055 has them on the line. */
  lemma OnTheLine(b: byte)
    ensures Encode([b]) == if b == 0xC0 then [0xDB, 0xDC, 0xC0] else if b == 0xDB then [0xDB, 0xDD, 0xC0] else [b, 0xC0]
  {
    assert [b][..0] == [];
    assert EncodeBytes([b]) == EncodeBytes([]) + EncodeByte(b);
  }

  lemma EncodedOneByOne(p: seq<byte>, b: byte)
    ensures EncodeBytes([]) == [] && EncodeBytes(p + [b]) == EncodeBytes(p) + EncodeByte(b)
  {
    assert (p + [b])[..|p|] == p;
  }

  /** An escape before any other byte is passed over. */
  lemma UselessEscape(r: Reading, b: byte)
    requires !r.escaped && b != 0xDC && b != 0xDD && |r.buf| < 1999
    ensures FeedAll(r, [0xDB, b]) == r.(buf := r.buf + [b])
  {
    assert [0xDB, b][..1] == [0xDB] && [0xDB][..0] == [];
    assert FeedAll(r, [0xDB]) == Feed(r, 0xDB);
  }

  /** A packet that is too long loses all its bytes up to the 2000th each time: of plain bytes those are left
      that are behind the last multiple of 2000. */
  lemma {:induction false} TooLong(packets: seq<seq<byte>>, p: seq<byte>)
    requires forall i | 0 <= i < |p| :: p[i] != 0xC0 && p[i] != 0xDB
    ensures FeedAll(Reading(packets, [], false), p) == Reading(packets, p[|p| - |p| % 2000..], false)
    decreases |p|
  {
    hide Unescape, EncodeByte;
    if p != [] {
      var init, last := p[..|p| - 1], p[|p| - 1];
      TooLong(packets, init);
      OneMore(|init|);
      var kept := init[|init| - |init| % 2000..];
      PlainByte(packets, kept, last);
      if |kept| < 1999 {
        assert kept + [last] == p[|p| - |p| % 2000..];
      }
    }
  }

  lemma OneMore(n: nat)
    ensures (n + 1) % 2000 == if n % 2000 == 1999 then 0 else n % 2000 + 1
  {
  }

  lemma PlainByte(packets: seq<seq<byte>>, buf: seq<byte>, b: byte)
    requires b != 0xC0 && b != 0xDB
    ensures Feed(Reading(packets, buf, false), b) == Reading(packets, if |buf| >= 1999 then [] else buf + [b], false)
  {
  }

  // ----- The reader

  class Reader {
    const inbuf: array<byte>
    var inbufptr: nat
    // An escape that has been put back into the stream.
    var putBack: bool
    // The packets that have been handed on.
    var packets: seq<seq<byte>>

    constructor ()
      ensures Valid() && fresh(inbuf) && State() == Reading([], [], false)
    {
      inbuf := new byte[BUFFER_SIZE];
      inbufptr, putBack, packets := 0, false, [];
    }

    ghost predicate Valid()
      reads this
    {
      inbuf.Length == BUFFER_SIZE && inbufptr < BUFFER_SIZE
    }

    ghost function State(): Reading
      requires Valid()
      reads this, inbuf
    {
      Reading(packets, inbuf[..inbufptr], putBack)
    }

    method Store(c: byte)
      requires Valid() && !putBack
      modifies this`inbufptr, inbuf
      ensures Valid() && State() == old(State()).(buf := Put(old(State()).buf, c))
    {
      inbuf[inbufptr] := c;
      inbufptr := inbufptr + 1;
      if inbufptr >= BUFFER_SIZE {
        inbufptr := 0;
      }
    }

    /** Reads what is available. An escape at the end of it is put back. */
    method SerialToTun(available: seq<byte>)
      requires Valid()
      modifies this, inbuf
      ensures Valid() && State() == FeedAll(old(State()), available)
    {
      hide Feed, FeedAll, Put;
      var i: nat := 0;
      ghost var was := State();
      NothingFed(was);
      while i < |available|
        invariant Valid() && i <= |available| && State() == FeedAll(was, available[..i])
        decreases |available| - i
      {
        FedOn(was, available, i);
        var c := SLIP_ESC;
        if putBack {
          putBack := false;
        } else {
          c := available[i];
          i := i + 1;
        }
        if c == SLIP_END {
          if inbufptr > 0 {
            packets := packets + [inbuf[..inbufptr]];
            inbufptr := 0;
          }
        } else if c == SLIP_ESC {
          if i >= |available| {
            putBack := true;
            break;
          }
          FedOn(was, available, i);
          Store(Unescape(available[i]));
          i := i + 1;
        } else {
          Store(c);
        }
      }
      assert available[..|available|] == available;
    }
  }

  lemma NothingFed(r: Reading)
    ensures FeedAll(r, []) == r
  {
  }

  lemma FedOn(r: Reading, s: seq<byte>, i: nat)
    requires i < |s|
    ensures FeedAll(r, s[..i + 1]) == Feed(FeedAll(r, s[..i]), s[i])
    ensures var was := FeedAll(r, s[..i]);
      && (was.escaped ==> Feed(was, s[i]) == was.(buf := Put(was.buf, Unescape(s[i])), escaped := false))
      && (!was.escaped && s[i] == SLIP_ESC ==> Feed(was, s[i]) == was.(escaped := true))
      && (!was.escaped && s[i] == SLIP_END ==>
            Feed(was, s[i]) == if |was.buf| > 0 then Reading(was.packets + [was.buf], [], false) else was)
      && (!was.escaped && s[i] != SLIP_ESC && s[i] != SLIP_END ==> Feed(was, s[i]) == was.(buf := Put(was.buf, s[i])))
  {
    assert s[..i + 1][..i] == s[..i];
  }
}
