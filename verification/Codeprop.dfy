/** Code propagation over a lossy broadcast: a source sends an image in packets, receivers store the
    packets in order and ask with NACKs for the first byte they miss. */
module Codeprop {

  import opened Bytes

  const UDPDATASIZE := 32
  const IMAGE_LIMIT := 0x1_0000

  datatype Packet = Data(id: nat, addr: nat, len: nat, data: seq<byte>) | Nack(addr: nat)

  /** The image of every version: there is one for each id. */
  type Images = m: map<nat, seq<byte>> | forall id | id in m :: |m[id]| < IMAGE_LIMIT

  /** What a source sends: the bytes at the stated address of the image with the stated id. */
  predicate Authentic(images: Images, p: Packet) {
    p.Data? ==>
      && p.id in images && p.len == |images[p.id]| && p.addr + |p.data| <= p.len
      && p.data == images[p.id][p.addr..p.addr + |p.data|]
  }

  // ----- A source

  /** What a source knows, and the bytes it sends from. */
  datatype Sender = Sender(sending: bool, id: nat, addr: nat, len: nat, storage: seq<byte>)

  ghost predicate IsSender(images: Images, s: Sender) {
    && |s.storage| == IMAGE_LIMIT && s.addr <= s.len < IMAGE_LIMIT
    && (s.sending ==> s.id in images && s.storage[..s.len] == images[s.id])
  }

  function PacketLength(s: Sender): nat
    requires s.addr <= s.len
  {
    if s.len - s.addr > UDPDATASIZE then UDPDATASIZE else s.len - s.addr
  }

  class Source {
    const storage: array<byte>
    var sending: bool
    var id: nat
    var addr: nat
    var len: nat

    constructor ()
      ensures fresh(storage) && storage.Length == IMAGE_LIMIT
      ensures State() == Sender(false, 0, 0, 0, storage[..])
    {
      storage := new byte[IMAGE_LIMIT];
      sending, id, addr, len := false, 0, 0, 0;
    }

    ghost function State(): Sender
      reads this, storage
    {
      Sender(sending, id, addr, len, storage[..])
    }

    /** Broadcasts the image of the next version, which has been put into the storage. */
    method StartBroadcast(image: seq<byte>)
      requires |image| <= storage.Length
      modifies this`sending, this`id, this`addr, this`len, storage
      ensures State() == Sender(true, old(id) + 1, 0, |image|, Overwrite(old(storage[..]), 0, image))
    {
      addr, len, id, sending := 0, |image|, id + 1, true;
      Copy(storage, 0, image);
    }

    /** Sends the packet at the current address and goes on behind it. */
    method SendData() returns (p: Packet)
      requires addr < len <= storage.Length
      modifies this`addr
      ensures State() == old(State()).(addr := old(addr) + PacketLength(old(State())))
      ensures p == Data(id, old(addr), len, storage[old(addr)..addr])
      ensures addr == if len - old(addr) > 32 then old(addr) + 32 else len
    {
      var n := if len - addr > UDPDATASIZE then UDPDATASIZE else len - addr;
      p := Data(id, addr, len, storage[addr..addr + n]);
      addr := addr + n;
    }

    /** Goes back to the address of a NACK, but never forward. */
    method HearNack(a: nat)
      modifies this`addr
      ensures State() == old(State()).(addr := if a <= old(addr) then a else old(addr))
    {
      if a <= addr {
        addr := a;
      }
    }

    /** Ends the broadcast behind the last packet. */
    method Finish()
      modifies this`sending
      ensures State() == old(State()).(sending := old(sending) && addr < len)
    {
      if addr >= len {
        sending := false;
      }
    }
  }

  /** A broadcast begins with the image in the storage. */
  lemma BroadcastIsSender(images: Images, s: Sender, image: seq<byte>)
    requires IsSender(images, s) && s.id + 1 in images && images[s.id + 1] == image
    ensures IsSender(images, Sender(true, s.id + 1, 0, |image|, Overwrite(s.storage, 0, image)))
  {
    OverwriteReads(s.storage, 0, image);
    assert Overwrite(s.storage, 0, image)[..|image|] == Overwrite(s.storage, 0, image)[0..0 + |image|];
  }

  /** What a source sends is authentic. */
  lemma SentIsAuthentic(images: Images, s: Sender)
    requires IsSender(images, s) && s.sending && s.addr < s.len
    ensures Authentic(images, Data(s.id, s.addr, s.len, s.storage[s.addr..s.addr + PacketLength(s)]))
  {
    var n := PacketLength(s);
    SliceOfPrefix(s.storage, s.addr, s.addr + n, s.len);
  }

  lemma SliceOfPrefix(s: seq<byte>, from: nat, upto: nat, n: nat)
    requires from <= upto <= n <= |s|
    ensures s[..n][from..upto] == s[from..upto]
  {
  }

  // ----- A receiver

  /** What a receiver knows, the bytes it has stored, how often it has started the program, and the
      address and length of the first packet of the current version. */
  datatype Hearer = Hearer(receiving: bool, id: nat, addr: nat, len: nat, starts: nat, storage: seq<byte>,
                           firstAddr: nat, firstLen: nat)

  /** What a receiver holds of an image when the first packet it accepted, of `k` bytes, was the one at
      address `f`: that packet lies at the beginning, what follows is in its place. */
  ghost predicate Holds(image: seq<byte>, f: nat, k: nat, addr: nat, storage: seq<byte>) {
    && f + k <= |image| && k <= addr <= |image| && addr <= |storage|
    && storage[..addr] == image[f..f + k] + image[k..addr]
  }

  ghost predicate IsHearer(images: Images, r: Hearer) {
    && |r.storage| == IMAGE_LIMIT && r.addr <= r.len && (r.receiving <==> r.addr < r.len)
    && (r.id == 0 ==> !r.receiving && r.starts == 0)
    && (r.id > 0 ==>
          r.id in images && r.len == |images[r.id]| && Holds(images[r.id], r.firstAddr, r.firstLen, r.addr, r.storage))
  }

  /** The bytes of a packet lie inside its image. */
  predicate InImage(p: Packet) {
    p.Data? ==> p.addr + |p.data| <= p.len < IMAGE_LIMIT
  }

  /** Bytes have been stored: when they are all there, the program is started. */
  function Ended(r: Hearer): Hearer {
    if r.addr >= r.len then r.(receiving := false, starts := r.starts + 1) else r
  }

  /** The receiver after a packet, and the addresses of the NACKs it sends. A first packet is accepted
      whatever its address is: it is taken for the one at address 0. */
  function Heard(r: Hearer, p: Packet): (h: (Hearer, seq<nat>))
    requires |r.storage| == IMAGE_LIMIT && InImage(p)
    ensures |h.0.storage| == IMAGE_LIMIT
  {
    if !p.Data? then (r, [])
    else if !r.receiving then
      if p.id <= r.id then (r, [])
      else
        (Ended(Hearer(true, p.id, |p.data|, p.len, r.starts, Overwrite(r.storage, 0, p.data), p.addr, |p.data|)),
         if p.addr != 0 then [0] else [])
    else if p.id != r.id then (r, [])
    else if p.addr == r.addr then
      (Ended(r.(addr := r.addr + |p.data|, storage := Overwrite(r.storage, r.addr, p.data))), [])
    else (r, if p.addr > r.addr then [r.addr] else [])
  }

  /** The first packet begins the image. */
  lemma FirstPacket(image: seq<byte>, f: nat, k: nat, storage: seq<byte>)
    requires f + k <= |image| && k <= |storage|
    ensures Holds(image, f, k, k, Overwrite(storage, 0, image[f..f + k]))
  {
  }

  /** A packet for the current address continues it. */
  lemma NextPacket(image: seq<byte>, f: nat, k: nat, addr: nat, storage: seq<byte>, n: nat)
    requires Holds(image, f, k, addr, storage) && addr + n <= |image| && addr + n <= |storage|
    ensures Holds(image, f, k, addr + n, Overwrite(storage, addr, image[addr..addr + n]))
  {
    assert image[k..addr + n] == image[k..addr] + image[addr..addr + n];
  }

  lemma AuthenticInImage(images: Images, p: Packet)
    requires Authentic(images, p)
    ensures InImage(p)
  {
  }

  /** Whatever authentic packet comes, the receiver holds the image behind its first packet; versions
      only grow, and so does the address within a version. */
  lemma HeardIsHearer(images: Images, r: Hearer, p: Packet)
    requires IsHearer(images, r) && Authentic(images, p) && InImage(p)
    ensures var h := Heard(r, p).0;
      && IsHearer(images, h) && h.id >= r.id && (h.id == r.id ==> h.addr >= r.addr && h.firstAddr == r.firstAddr)
      && r.starts <= h.starts <= r.starts + 1 && (h.starts > r.starts ==> h.id > 0 && h.addr == h.len)
  {
    hide Holds, Overwrite;
    if p.Data? && !r.receiving && p.id > r.id {
      FirstPacket(images[p.id], p.addr, |p.data|, r.storage);
    } else if p.Data? && r.receiving && p.id == r.id && p.addr == r.addr {
      NextPacket(images[r.id], r.firstAddr, r.firstLen, r.addr, r.storage, |p.data|);
    }
  }

  /** What the storage holds of a packet that is accepted. */
  lemma HeardStores(r: Hearer, p: Packet)
    requires |r.storage| == IMAGE_LIMIT && InImage(p) && p.Data? && (r.receiving ==> r.addr < r.len)
    ensures r.receiving && p.id == r.id && p.addr == r.addr ==>
      && Heard(r, p).0.storage[..r.addr] == r.storage[..r.addr]
      && Heard(r, p).0.storage[r.addr..r.addr + |p.data|] == p.data
    ensures !r.receiving && p.id > r.id ==> Heard(r, p).0.storage[..|p.data|] == p.data
  {
  }

  class Receiver {
    const storage: array<byte>
    var receiving: bool
    var id: nat
    var addr: nat
    var len: nat
    var starts: nat
    ghost var firstAddr: nat
    ghost var firstLen: nat

    constructor ()
      ensures fresh(storage) && storage.Length == IMAGE_LIMIT
      ensures State() == Hearer(false, 0, 0, 0, 0, storage[..], 0, 0)
    {
      storage := new byte[IMAGE_LIMIT];
      receiving, id, addr, len, starts, firstAddr, firstLen := false, 0, 0, 0, 0, 0, 0;
    }

    ghost function State(): Hearer
      reads this, storage
    {
      Hearer(receiving, id, addr, len, starts, storage[..], firstAddr, firstLen)
    }

    /** A packet has arrived. A NACK is written over the packet, address included. */
    method Hear(p: Packet) returns (nacks: seq<nat>)
      requires storage.Length == IMAGE_LIMIT && (receiving ==> addr < len)
      requires InImage(p)
      modifies this, storage
      ensures (State(), nacks) == Heard(old(State()), p)
      // A packet that is of no use changes nothing, and one behind a gap asks for the first missing byte.
      ensures !p.Data? || (if old(receiving) then p.id != old(id) || p.addr < old(addr) else p.id <= old(id)) ==>
        State() == old(State()) && nacks == []
      ensures p.Data? && old(receiving) && p.id == old(id) && p.addr > old(addr) ==>
        State() == old(State()) && nacks == [old(addr)]
      // The next packet is appended, and a first one put to the beginning, where the rest is asked for.
      ensures p.Data? && old(receiving) && p.id == old(id) && p.addr == old(addr) ==>
        && nacks == [] && id == old(id) && len == old(len) && addr == old(addr) + |p.data| <= IMAGE_LIMIT
        && storage[..old(addr)] == old(storage[..addr]) && storage[old(addr)..addr] == p.data
      ensures p.Data? && !old(receiving) && p.id > old(id) ==>
        && nacks == (if p.addr != 0 then [0] else []) && id == p.id && len == p.len && addr == |p.data|
        && storage[..addr] == p.data
      ensures State() != old(State()) ==>
        && (receiving <==> addr < len) && starts == old(starts) + (if addr >= len then 1 else 0)
    {
      hide Overwrite;
      if p.Data? {
        HeardStores(State(), p);
      }
      nacks := [];
      if !p.Data? {
        return;
      }
      var uh := p;
      if !receiving {
        if uh.id <= id {
          return;
        }
        if uh.addr != 0 {
          nacks := [0];
          uh := uh.(addr := 0);
        }
        addr, id, len := 0, uh.id, uh.len;
        receiving := true;
        firstAddr, firstLen := p.addr, |p.data|;
      } else if uh.id != id {
        return;
      }
      if uh.addr == addr {
        Write(uh.data);
      } else if uh.addr > addr {
        nacks := [addr];
      }
      if addr >= len {
        receiving := false;
        starts := starts + 1;
      }
    }

    /** Stores bytes at the current address. */
    method Write(data: seq<byte>)
      requires addr + |data| <= storage.Length
      modifies this`addr, storage
      ensures addr == old(addr) + |data| && storage[..] == Overwrite(old(storage[..]), old(addr), data)
    {
      Copy(storage, addr, data);
      addr := addr + |data|;
    }

    /** The timer for the next packet has expired. */
    method Timeout() returns (nacks: seq<nat>)
      ensures nacks == if receiving then [addr] else []
    {
      nacks := if receiving then [addr] else [];
    }
  }

  /** The whole image is in place if and only if what the first packet brought belongs there. */
  lemma WholeImage(image: seq<byte>, f: nat, k: nat, storage: seq<byte>)
    requires Holds(image, f, k, |image|, storage)
    ensures storage[..|image|] == image <==> image[f..f + k] == image[..k]
  {
    assert image == image[..k] + image[k..];
    assert (image[f..f + k] + image[k..])[..k] == image[f..f + k];
  }

  /** A wrong image: when the second half of an image is the first packet that arrives, and arrives
      again, it is stored twice and the program is started, though a NACK has asked for address 0. */
  lemma SecondHalfTwice(images: Images, r: Hearer, id: nat, k: nat)
    requires IsHearer(images, r) && !r.receiving && r.id < id && id in images && 0 < k && |images[id]| == 2 * k
    ensures var image := images[id];
      var p := Data(id, k, 2 * k, image[k..]);
      && Authentic(images, p)
      && Heard(r, p).1 == [0] && Heard(r, p).0.addr == k && Heard(r, p).0.starts == r.starts
      && var h := Heard(Heard(r, p).0, p).0;
      && h.starts == r.starts + 1 && h.id == id && h.len == 2 * k && h.storage[..h.len] == image[k..] + image[k..]
      && (h.storage[..h.len] == image <==> image[..k] == image[k..])
  {
    hide Overwrite;
    var image := images[id];
    var p := Data(id, k, 2 * k, image[k..]);
    var once := Heard(r, p).0;
    OverwriteReads(r.storage, 0, p.data);
    OverwriteReads(once.storage, k, p.data);
    var h := Heard(once, p).0;
    assert once.storage[..k] == once.storage[0..0 + k] == image[k..];
    assert h.storage[..2 * k] == h.storage[..k] + h.storage[k..k + k];
    assert image == image[..k] + image[k..];
    assert (image[k..] + image[k..])[..k] == image[k..];
  }

  // ----- Runs over a network that loses, repeats and reorders packets

  /** What can happen next. Any packet that has ever been sent can arrive, any number of times; other
      nodes send what sources send, and NACKs. */
  datatype Step =
    | Broadcast(image: seq<byte>)
    | Send
    | SourceHears(p: Packet)
    | ReceiverHears(p: Packet)
    | ReceiverTimeout
    | Elsewhere(p: Packet)

  /** A start of the program: its version, the storage at that time, and the first packet. */
  datatype Launch = Launch(id: nat, content: seq<byte>, firstAddr: nat, firstLen: nat)

  /** Both nodes, the packets that have been sent, and the starts of the program. */
  datatype World = World(source: Sender, receiver: Hearer, bag: set<Packet>, launches: seq<Launch>) {
    predicate Allows(images: Images, s: Step) { Possible(images, source.id, source.sending, bag, s) }
  }

  ghost predicate RightLaunch(images: Images, l: Launch) {
    && l.id in images && l.firstAddr + l.firstLen <= |images[l.id]|
    && (l.content == images[l.id] <==>
        images[l.id][l.firstAddr..l.firstAddr + l.firstLen] == images[l.id][..l.firstLen])
    && (l.firstAddr == 0 ==> l.content == images[l.id])
  }

  ghost predicate AllAuthentic(images: Images, bag: set<Packet>) {
    forall p | p in bag :: Authentic(images, p)
  }

  ghost predicate AllRight(images: Images, launches: seq<Launch>) {
    forall l | l in launches :: RightLaunch(images, l)
  }

  ghost predicate IsWorld(images: Images, w: World) {
    && IsSender(images, w.source) && IsHearer(images, w.receiver)
    && AllAuthentic(images, w.bag) && AllRight(images, w.launches)
  }

  /** A step can happen: packets that arrive have been sent, other nodes send authentic packets, and the
      next version is the one that is broadcast. */
  predicate Possible(images: Images, id: nat, sending: bool, bag: set<Packet>, s: Step) {
    match s
    case Broadcast(image) => id + 1 in images && images[id + 1] == image
    case Send => sending
    case SourceHears(p) => p in bag && p.Nack?
    case ReceiverHears(p) => p in bag
    case ReceiverTimeout => true
    case Elsewhere(p) => Authentic(images, p)
  }

  function Nacks(addresses: seq<nat>): (r: set<Packet>)
    ensures forall p | p in r :: p.Nack?
  {
    if addresses == [] then {} else {Nack(addresses[0])} + Nacks(addresses[1..])
  }

  /** What the start of a program adds to the launches. */
  function Launches(before: Hearer, after: Hearer): seq<Launch>
    requires |after.storage| == IMAGE_LIMIT
  {
    if after.starts > before.starts && after.len <= IMAGE_LIMIT
    then [Launch(after.id, after.storage[..after.len], after.firstAddr, after.firstLen)] else []
  }

  /** The world after a step. */
  ghost function Next(images: Images, w: World, s: Step): World
    requires IsWorld(images, w) && w.Allows(images, s)
  {
    match s
    case Broadcast(image) =>
      w.(source := Sender(true, w.source.id + 1, 0, |image|, Overwrite(w.source.storage, 0, image)))
    case Send =>
      if w.source.addr < w.source.len then
        var to := w.source.addr + PacketLength(w.source);
        w.(source := w.source.(addr := to, sending := to < w.source.len),
           bag := w.bag + {Data(w.source.id, w.source.addr, w.source.len, w.source.storage[w.source.addr..to])})
      else w.(source := w.source.(sending := false))
    case SourceHears(p) =>
      w.(source := w.source.(addr := if p.addr <= w.source.addr then p.addr else w.source.addr))
    case ReceiverHears(p) =>
      AuthenticInImage(images, p);
      var (r, nacks) := Heard(w.receiver, p);
      w.(receiver := r, bag := w.bag + Nacks(nacks), launches := w.launches + Launches(w.receiver, r))
    case ReceiverTimeout =>
      w.(bag := w.bag + Nacks(if w.receiver.receiving then [w.receiver.addr] else []))
    case Elsewhere(p) =>
      w.(bag := w.bag + {p})
  }

  /** Every step keeps the world sound: what is under way is authentic, the receiver holds an image
      behind its first packet, and the program is started with the whole image exactly when the first
      packet brought what belongs to the beginning. Launches and starts go together. */
  lemma NextIsWorld(images: Images, w: World, s: Step)
    requires IsWorld(images, w) && w.Allows(images, s)
    ensures var n := Next(images, w, s);
      && IsWorld(images, n) && w.bag <= n.bag && w.launches <= n.launches
      && |n.launches| - |w.launches| == n.receiver.starts - w.receiver.starts
  {
    hide Authentic, RightLaunch, IsSender, Heard, Overwrite, Launches, Holds;
    match s {
      case Broadcast(image) => BroadcastIsSender(images, w.source, image);
      case Send => SendIsSender(images, w.source);
      case SourceHears(p) => GoBackIsSender(images, w.source, p.addr);
      case ReceiverHears(p) =>
        AuthenticInImage(images, p);
        HeardIsHearer(images, w.receiver, p);
        LaunchesAreRight(images, w.receiver, p);
        NacksAreAuthentic(images, Nacks(Heard(w.receiver, p).1));
      case ReceiverTimeout =>
        NacksAreAuthentic(images, Nacks(if w.receiver.receiving then [w.receiver.addr] else []));
      case Elsewhere(_) =>
    }
  }

  lemma SendIsSender(images: Images, s: Sender)
    requires IsSender(images, s) && s.sending
    ensures s.addr >= s.len ==> IsSender(images, s.(sending := false))
    ensures s.addr < s.len ==>
      var to := s.addr + PacketLength(s);
      && IsSender(images, s.(addr := to, sending := to < s.len))
      && Authentic(images, Data(s.id, s.addr, s.len, s.storage[s.addr..to]))
  {
    if s.addr < s.len {
      SentIsAuthentic(images, s);
    }
  }

  lemma GoBackIsSender(images: Images, s: Sender, a: nat)
    requires IsSender(images, s)
    ensures IsSender(images, s.(addr := if a <= s.addr then a else s.addr))
  {
  }

  lemma NacksAreAuthentic(images: Images, sent: set<Packet>)
    requires forall p | p in sent :: p.Nack?
    ensures AllAuthentic(images, sent)
  {
  }

  lemma LaunchesAreRight(images: Images, r: Hearer, p: Packet)
    requires IsHearer(images, r) && Authentic(images, p) && InImage(p)
    ensures var h := Heard(r, p).0;
      && AllRight(images, Launches(r, h)) && |Launches(r, h)| == h.starts - r.starts
  {
    hide Authentic, Heard;
    HeardIsHearer(images, r, p);
    var h := Heard(r, p).0;
    if h.starts > r.starts {
      WholeImage(images[h.id], h.firstAddr, h.firstLen, h.storage);
    }
  }

  // ----- Whole runs

  /** The steps that can happen are taken, the others are passed over. */
  ghost function RunOf(images: Images, w: World, steps: seq<Step>): (r: World)
    requires IsWorld(images, w)
    ensures IsWorld(images, r)
  {
    if steps == [] then w
    else
      var last := |steps| - 1;
      var before := RunOf(images, w, steps[..last]);
      if before.Allows(images, steps[last]) then
        NextIsWorld(images, before, steps[last]);
        Next(images, before, steps[last])
      else before
  }

  /** In every run, the program is started as often as there are launches, each of them with the whole
      image exactly when its first packet brought what belongs to the beginning; in particular whenever
      that was the packet for address 0. */
  lemma {:induction false} LaunchesOfRun(images: Images, w: World, steps: seq<Step>)
    requires IsWorld(images, w)
    ensures var r := RunOf(images, w, steps);
      && w.launches <= r.launches && |r.launches| - |w.launches| == r.receiver.starts - w.receiver.starts
      && AllRight(images, r.launches) && AllAuthentic(images, r.bag)
    decreases |steps|
  {
    hide IsWorld, World.Allows, Next, AllRight, AllAuthentic;
    if steps != [] {
      var last := |steps| - 1;
      LaunchesOfRun(images, w, steps[..last]);
      var before := RunOf(images, w, steps[..last]);
      if before.Allows(images, steps[last]) {
        NextIsWorld(images, before, steps[last]);
      }
    }
    AllSound(images, RunOf(images, w, steps));
  }

  lemma AllSound(images: Images, w: World)
    requires IsWorld(images, w)
    ensures AllRight(images, w.launches) && AllAuthentic(images, w.bag)
  {
  }

  lemma RunMore(images: Images, w: World, steps: seq<Step>, s: Step)
    requires IsWorld(images, w) && RunOf(images, w, steps).Allows(images, s)
    ensures RunOf(images, w, steps + [s]) == Next(images, RunOf(images, w, steps), s)
  {
    hide IsWorld, Next, World.Allows;
    assert (steps + [s])[..|steps|] == steps;
  }

  /** A run with a wrong image: another node sends the second half, and it arrives twice. The program is
      started with that half in both places. */
  lemma WrongLaunch(images: Images, w: World, id: nat, k: nat)
    requires IsWorld(images, w) && !w.receiver.receiving && w.receiver.id < id
    requires id in images && 0 < k && |images[id]| == 2 * k && images[id][..k] != images[id][k..]
    ensures var p := Data(id, k, 2 * k, images[id][k..]);
      var r := RunOf(images, w, [Elsewhere(p), ReceiverHears(p), ReceiverHears(p)]);
      && |r.launches| == |w.launches| + 1
      && r.launches[|w.launches|].id == id && r.launches[|w.launches|].content != images[id]
  {
    hide Heard, IsSender, Holds, AllAuthentic, AllRight, RunOf;
    var p := Data(id, k, 2 * k, images[id][k..]);
    AuthenticInImage(images, p);
    SecondHalfTwice(images, w.receiver, id, k);
    RunNothing(images, w);
    RunMore(images, w, [], Elsewhere(p));
    assert [] + [Elsewhere(p)] == [Elsewhere(p)];
    assert RunOf(images, w, [Elsewhere(p)]) == w.(bag := w.bag + {p});
    RunMore(images, w, [Elsewhere(p)], ReceiverHears(p));
    assert [Elsewhere(p)] + [ReceiverHears(p)] == [Elsewhere(p), ReceiverHears(p)];
    var once := RunOf(images, w, [Elsewhere(p), ReceiverHears(p)]);
    assert once.receiver == Heard(w.receiver, p).0 && once.launches == w.launches + [] && p in once.bag;
    RunMore(images, w, [Elsewhere(p), ReceiverHears(p)], ReceiverHears(p));
    assert [Elsewhere(p), ReceiverHears(p)] + [ReceiverHears(p)] == [Elsewhere(p), ReceiverHears(p), ReceiverHears(p)];
  }

  lemma RunNothing(images: Images, w: World)
    requires IsWorld(images, w)
    ensures RunOf(images, w, []) == w
  {
  }

  // ----- A wrong launch without any other node

  /** Where the source goes on behind the packet for address `a`, and that packet. */
  function Behind(image: seq<byte>, a: nat): nat { if a + UDPDATASIZE <= |image| then a + UDPDATASIZE else |image| }

  function Part(image: seq<byte>, id: nat, a: nat): Packet
    requires a <= |image|
  {
    Data(id, a, |image|, image[a..Behind(image, a)])
  }

  /** What is still to be sent is sent and arrives. */
  function Remaining(image: seq<byte>, id: nat, a: nat): seq<Step>
    requires a <= |image|
    decreases |image| - a
  {
    if a == |image| then []
    else [Send, ReceiverHears(Part(image, id, a))] + Remaining(image, id, Behind(image, a))
  }

  /** The first packet is lost, and the second arrives twice. */
  function FirstLost(image: seq<byte>, id: nat): seq<Step>
    requires |image| >= 2 * UDPDATASIZE
  {
    var p := Part(image, id, UDPDATASIZE);
    [Broadcast(image), Send, Send, ReceiverHears(p), ReceiverHears(p)]
  }

  /** The source sends the part at `a` next, and the receiver, which took the second packet for the first,
      waits for it; or the program has been started. */
  ghost predicate Deceived(w: World, v: World, image: seq<byte>, id: nat, a: nat) {
    && v.source.id == id && v.source.addr == a && v.source.len == |image| && (v.source.sending <==> a < |image|)
    && if a < |image| then
         && v.receiver.receiving && v.receiver.id == id && v.receiver.addr == a && v.receiver.len == |image|
         && v.receiver.firstAddr == v.receiver.firstLen == UDPDATASIZE && v.launches == w.launches
       else
         && |v.launches| == |w.launches| + 1
         && var l := v.launches[|w.launches|]; l.id == id && l.firstAddr == l.firstLen == UDPDATASIZE
  }

  /** The source sends its next part. */
  lemma PartIsSent(images: Images, v: World, image: seq<byte>, id: nat, a: nat)
    requires IsWorld(images, v) && id in images && images[id] == image && a < |image|
    requires v.source.sending && v.source.id == id && v.source.addr == a && v.source.len == |image|
    ensures v.Allows(images, Send)
    ensures var n := Next(images, v, Send);
      && n.receiver == v.receiver && n.launches == v.launches && Part(image, id, a) in n.bag
      && n.source == v.source.(addr := Behind(image, a), sending := Behind(image, a) < |image|)
  {
    hide AllAuthentic, AllRight, IsHearer;
    var to := Behind(image, a);
    SliceOfPrefix(v.source.storage, a, to, |image|);
  }

  lemma PartArrives(images: Images, w: World, v: World, image: seq<byte>, id: nat, a: nat)
    requires IsWorld(images, v) && id in images && images[id] == image && a < |image|
    requires Part(image, id, a) in v.bag && v.launches == w.launches
    requires v.receiver.receiving && v.receiver.id == id && v.receiver.addr == a && v.receiver.len == |image|
    requires v.receiver.firstAddr == v.receiver.firstLen == UDPDATASIZE
    requires v.source.id == id && v.source.len == |image| && v.source.addr == Behind(image, a)
    requires v.source.sending <==> Behind(image, a) < |image|
    ensures v.Allows(images, ReceiverHears(Part(image, id, a)))
    ensures Deceived(w, Next(images, v, ReceiverHears(Part(image, id, a))), image, id, Behind(image, a))
  {
    hide AllRight, IsSender, Overwrite, Holds, Authentic;
    AuthenticInImage(images, Part(image, id, a));
  }

  lemma {:induction false} Continues(images: Images, w: World, steps: seq<Step>, image: seq<byte>, id: nat, a: nat)
    requires IsWorld(images, w) && id in images && images[id] == image && a <= |image|
    requires Deceived(w, RunOf(images, w, steps), image, id, a)
    ensures Deceived(w, RunOf(images, w, steps + Remaining(image, id, a)), image, id, |image|)
    decreases |image| - a
  {
    hide IsWorld, World.Allows, Next, Part, RunOf, Remaining;
    RemainingNext(steps, image, id, a);
    if a < |image| {
      var p := Part(image, id, a);
      PartIsSent(images, RunOf(images, w, steps), image, id, a);
      RunMore(images, w, steps, Send);
      PartArrives(images, w, RunOf(images, w, steps + [Send]), image, id, a);
      RunMore(images, w, steps + [Send], ReceiverHears(p));
      Continues(images, w, steps + [Send] + [ReceiverHears(p)], image, id, Behind(image, a));
    }
  }

  lemma RemainingNext(steps: seq<Step>, image: seq<byte>, id: nat, a: nat)
    requires a <= |image|
    ensures steps + Remaining(image, id, a) ==
      if a == |image| then steps
      else steps + [Send] + [ReceiverHears(Part(image, id, a))] + Remaining(image, id, Behind(image, a))
  {
    hide Part;
  }

  /** The same with packets that the source itself sends, for every image of at least two full packets:
      the first packet is lost, the second arrives twice, and all others arrive. The program is started,
      with a wrong image if and only if the first two packets differ. */
  lemma WrongLaunchOfSource(images: Images, w: World, image: seq<byte>)
    requires IsWorld(images, w) && !w.receiver.receiving && w.receiver.id <= w.source.id
    requires w.source.id + 1 in images && images[w.source.id + 1] == image && |image| >= 2 * UDPDATASIZE
    ensures var r := RunOf(images, w, FirstLost(image, w.source.id + 1)
                                      + Remaining(image, w.source.id + 1, 2 * UDPDATASIZE));
      && |r.launches| == |w.launches| + 1
      && var l := r.launches[|w.launches|];
      && l.id == w.source.id + 1
      && (l.content != image <==> image[..UDPDATASIZE] != image[UDPDATASIZE..2 * UDPDATASIZE])
  {
    hide IsWorld, World.Allows, Next, Part;
    var id, steps := w.source.id + 1, FirstLost(image, w.source.id + 1);
    IsDeceived(images, w, image);
    Continues(images, w, steps, image, id, 2 * UDPDATASIZE);
    LaunchesOfRun(images, w, steps + Remaining(image, id, 2 * UDPDATASIZE));
    var r := RunOf(images, w, steps + Remaining(image, id, 2 * UDPDATASIZE));
    assert r.launches[|w.launches|] in r.launches;
  }

  lemma IsDeceived(images: Images, w: World, image: seq<byte>)
    requires IsWorld(images, w) && !w.receiver.receiving && w.receiver.id <= w.source.id
    requires w.source.id + 1 in images && images[w.source.id + 1] == image && |image| >= 2 * UDPDATASIZE
    ensures Deceived(w, RunOf(images, w, FirstLost(image, w.source.id + 1)), image, w.source.id + 1, 2 * UDPDATASIZE)
  {
    hide IsWorld, World.Allows, Next, Part;
    var id := w.source.id + 1;
    var p := Part(image, id, UDPDATASIZE);
    RunNothing(images, w);
    BroadcastStarts(images, w, image);
    RunMore(images, w, [], Broadcast(image));
    var s1 := [] + [Broadcast(image)];
    PartIsSent(images, RunOf(images, w, s1), image, id, 0);
    RunMore(images, w, s1, Send);
    var s2 := s1 + [Send];
    PartIsSent(images, RunOf(images, w, s2), image, id, UDPDATASIZE);
    RunMore(images, w, s2, Send);
    var s3 := s2 + [Send];
    SecondIsFirst(images, RunOf(images, w, s3), image, id);
    RunMore(images, w, s3, ReceiverHears(p));
    var s4 := s3 + [ReceiverHears(p)];
    PartArrives(images, w, RunOf(images, w, s4), image, id, UDPDATASIZE);
    RunMore(images, w, s4, ReceiverHears(p));
    assert s4 + [ReceiverHears(p)] == FirstLost(image, id);
  }

  lemma BroadcastStarts(images: Images, w: World, image: seq<byte>)
    requires IsWorld(images, w) && w.source.id + 1 in images && images[w.source.id + 1] == image
    ensures w.Allows(images, Broadcast(image))
    ensures var n := Next(images, w, Broadcast(image));
      && n.receiver == w.receiver && n.launches == w.launches && n.source.sending
      && n.source.id == w.source.id + 1 && n.source.addr == 0 && n.source.len == |image|
  {
  }

  /** An idle receiver takes the second packet for the first. */
  lemma SecondIsFirst(images: Images, v: World, image: seq<byte>, id: nat)
    requires IsWorld(images, v) && id in images && images[id] == image && |image| >= 2 * UDPDATASIZE
    requires !v.receiver.receiving && v.receiver.id < id && Part(image, id, UDPDATASIZE) in v.bag
    ensures v.Allows(images, ReceiverHears(Part(image, id, UDPDATASIZE)))
    ensures var n := Next(images, v, ReceiverHears(Part(image, id, UDPDATASIZE)));
      && n.source == v.source && n.launches == v.launches && v.bag <= n.bag
      && n.receiver.receiving && n.receiver.id == id && n.receiver.addr == UDPDATASIZE && n.receiver.len == |image|
      && n.receiver.firstAddr == n.receiver.firstLen == UDPDATASIZE
  {
    hide AllRight, IsSender, Overwrite, Holds, Authentic;
    AuthenticInImage(images, Part(image, id, UDPDATASIZE));
  }

  ghost function WorldOf(source: Source, receiver: Receiver, bag: set<Packet>, launches: seq<Launch>): World
    reads source, source.storage, receiver, receiver.storage
  {
    World(source.State(), receiver.State(), bag, launches)
  }

  /** Takes one step with both nodes. */
  method TakeStep(ghost images: Images, source: Source, receiver: Receiver, bag: set<Packet>,
                  ghost launches: seq<Launch>, step: Step)
    returns (bag': set<Packet>, ghost launches': seq<Launch>)
    requires source.storage != receiver.storage
    requires IsWorld(images, WorldOf(source, receiver, bag, launches))
    requires WorldOf(source, receiver, bag, launches).Allows(images, step)
    modifies source, source.storage, receiver, receiver.storage
    ensures WorldOf(source, receiver, bag', launches')
            == Next(images, old(WorldOf(source, receiver, bag, launches)), step)
  {
    hide Holds, Overwrite, Authentic, AllAuthentic, AllRight;
    ghost var before := receiver.State();
    bag', launches' := bag, launches;
    match step {
      case Broadcast(image) =>
        source.StartBroadcast(image);
      case Send =>
        if source.addr < source.len {
          var p := source.SendData();
          bag' := bag + {p};
        }
        source.Finish();
      case SourceHears(p) =>
        source.HearNack(p.addr);
      case ReceiverHears(p) =>
        BagInImage(images, bag, p);
        var nacks := receiver.Hear(p);
        bag' := bag + Nacks(nacks);
        launches' := launches + Launches(before, receiver.State());
      case ReceiverTimeout =>
        var nacks := receiver.Timeout();
        bag' := bag + Nacks(nacks);
      case Elsewhere(p) =>
        bag' := bag + {p};
    }
  }

  lemma BagInImage(images: Images, bag: set<Packet>, p: Packet)
    requires AllAuthentic(images, bag) && p in bag
    ensures Authentic(images, p) && InImage(p)
  {
  }

  /** Takes the steps that can happen, one after another, with a source and a receiver. What the nodes
      do is the specified run: the program is started as often as there are launches in it. */
  method Run(images: Images, source: Source, receiver: Receiver, underWay: set<Packet>, steps: seq<Step>)
    returns (bag: set<Packet>, ghost launches: seq<Launch>)
    requires source.storage != receiver.storage
    requires IsWorld(images, WorldOf(source, receiver, underWay, []))
    modifies source, source.storage, receiver, receiver.storage
    ensures WorldOf(source, receiver, bag, launches)
            == RunOf(images, old(WorldOf(source, receiver, underWay, [])), steps)
    ensures |launches| == receiver.starts - old(receiver.starts) && AllRight(images, launches)
  {
    hide IsWorld, Next, Possible, AllRight;
    ghost var start := WorldOf(source, receiver, underWay, []);
    bag, launches := underWay, [];
    assert steps[..0] == [];
    for k := 0 to |steps|
      invariant WorldOf(source, receiver, bag, launches) == RunOf(images, start, steps[..k])
    {
      assert steps[..k + 1][..k] == steps[..k];
      if Possible(images, source.id, source.sending, bag, steps[k]) {
        bag, launches := TakeStep(images, source, receiver, bag, launches, steps[k]);
      }
    }
    assert steps[..|steps|] == steps;
    LaunchesOfRun(images, start, steps);
  }

  /** A new source and a new receiver that have sent nothing are a sound world. */
  method NewWorld(images: Images) returns (source: Source, receiver: Receiver)
    ensures fresh(source) && fresh(source.storage) && fresh(receiver) && fresh(receiver.storage)
    ensures source.storage != receiver.storage && IsWorld(images, WorldOf(source, receiver, {}, []))
    ensures receiver.starts == 0 && receiver.id == 0
  {
    source := new Source();
    receiver := new Receiver();
  }
}
