/** The buckets of the max-heap index: every node of the tree has a bucket that is only appended
    to; a pair goes to the deepest bucket on the path of its key's hash. */
module MaxHeap {

  import opened Arithmetic
  import opened HeapTree

  const BUCKET_SIZE := 128

  datatype Pair = Pair(key: Key, value: Key) {
    predicate Empty() { key == 0 && value == 0 }
  }

  // ----- The bucket file

  /** The bucket file and the number of pairs that each bucket has. */
  datatype Store = Store(pairs: seq<Pair>, free: seq<nat>)

  function Offset(b: nat, s: nat): nat { BUCKET_SIZE * b + s }

  /** The pairs in bucket `b`. */
  function Bucket(st: Store, b: nat): (r: seq<Pair>)
    requires IsStore(st) && b < NODE_LIMIT
    ensures |r| == st.free[b]
  {
    Sized(st, b);
    st.pairs[Offset(b, 0)..Offset(b, st.free[b])]
  }

  /** No bucket is over-full, and what is behind its pairs is unwritten. */
  ghost predicate IsStore(st: Store) {
    && |st.pairs| == BUCKET_SIZE * NODE_LIMIT && |st.free| == NODE_LIMIT
    && forall b | 0 <= b < NODE_LIMIT :: BucketFits(st, b)
  }

  ghost predicate BucketFits(st: Store, b: nat)
    requires |st.pairs| == BUCKET_SIZE * NODE_LIMIT && |st.free| == NODE_LIMIT && b < NODE_LIMIT
  {
    st.free[b] <= BUCKET_SIZE && forall s | st.free[b] <= s < BUCKET_SIZE :: st.pairs[Offset(b, s)].Empty()
  }

  lemma Sized(st: Store, b: nat)
    requires IsStore(st) && b < NODE_LIMIT
    ensures st.free[b] <= BUCKET_SIZE && Offset(b, BUCKET_SIZE) <= |st.pairs|
  {
    assert BucketFits(st, b);
  }

  function Append(st: Store, b: nat, pair: Pair): Store
    requires IsStore(st) && b < NODE_LIMIT && st.free[b] < BUCKET_SIZE
  {
    Sized(st, b);
    Store(st.pairs[Offset(b, st.free[b]) := pair], st.free[b := st.free[b] + 1])
  }

  /** An append adds the pair to its bucket and leaves every other bucket alone. */
  lemma AppendToBucket(st: Store, b: nat, pair: Pair, a: nat)
    requires IsStore(st) && b < NODE_LIMIT && st.free[b] < BUCKET_SIZE && a < NODE_LIMIT
    ensures IsStore(Append(st, b, pair))
    ensures Bucket(Append(st, b, pair), a) == Bucket(st, a) + (if a == b then [pair] else [])
  {
    var t := Append(st, b, pair);
    forall c | 0 <= c < NODE_LIMIT
      ensures BucketFits(t, c)
    {
      assert BucketFits(st, c);
    }
    Sized(st, a);
    Sized(st, b);
    var added := if a == b then [pair] else [];
    forall s | 0 <= s < |Bucket(t, a)|
      ensures Bucket(t, a)[s] == (Bucket(st, a) + added)[s]
    {
      assert Bucket(t, a)[s] == t.pairs[Offset(a, s)];
    }
  }

  /** The number of pairs in the first `n` buckets. */
  function Total(free: seq<nat>, n: nat): nat
    requires n <= |free|
  {
    if n == 0 then 0 else Total(free, n - 1) + free[n - 1]
  }

  lemma {:induction false} TotalOfAppend(free: seq<nat>, b: nat, n: nat)
    requires b < |free| && n <= |free|
    ensures Total(free[b := free[b] + 1], n) == Total(free, n) + (if b < n then 1 else 0)
  {
    if n > 0 {
      TotalOfAppend(free, b, n - 1);
    }
  }

  // ----- What has been inserted, and where it is

  datatype Slot = Slot(bucket: nat, index: nat)

  /** The pairs inserted so far in their order, the slot of each, and for every slot in use the
      number of the insertion it comes from. */
  datatype Log = Log(pairs: seq<Pair>, slots: seq<Slot>, origins: seq<seq<nat>>) {
    function Add(pair: Pair, b: nat): Log
      requires b < |origins|
    {
      Log(pairs + [pair], slots + [Slot(b, |origins[b]|)], origins[b := origins[b] + [|pairs|]])
    }
  }

  function Hash(hashes: seq<Key>, key: Key): Key
    requires |hashes| == KEY_MAX + 1
  {
    hashes[key]
  }

  /** Insertion `i` is where the log says, in a bucket on the path of its key. */
  ghost predicate InPlace(hashes: seq<Key>, nodes: seq<Node>, st: Store, log: Log, i: nat)
    requires |hashes| == KEY_MAX + 1 && |nodes| == NODE_LIMIT && IsStore(st)
    requires |log.slots| == |log.pairs| && |log.origins| == NODE_LIMIT && i < |log.pairs|
  {
    var slot := log.slots[i];
    && slot.bucket < NODE_LIMIT && Depth(slot.bucket) < NODE_DEPTH - 1 && !nodes[slot.bucket].Empty()
    && Range(slot.bucket).Contains(Hash(hashes, log.pairs[i].key))
    && slot.index < |Bucket(st, slot.bucket)| && Bucket(st, slot.bucket)[slot.index] == log.pairs[i]
    && slot.index < |log.origins[slot.bucket]| && log.origins[slot.bucket][slot.index] == i
  }

  /** Every slot in use in bucket `b` is the slot of one insertion. */
  ghost predicate Accounted(st: Store, log: Log, b: nat)
    requires IsStore(st) && |log.slots| == |log.pairs| && |log.origins| == NODE_LIMIT && b < NODE_LIMIT
  {
    && |log.origins[b]| == st.free[b]
    && forall s | 0 <= s < st.free[b] :: log.origins[b][s] < |log.pairs| && log.slots[log.origins[b][s]] == Slot(b, s)
  }

  /** The slots in use and the insertions that returned 1 correspond one to one. */
  ghost predicate Recorded(hashes: seq<Key>, nodes: seq<Node>, st: Store, log: Log) {
    && |hashes| == KEY_MAX + 1 && |nodes| == NODE_LIMIT && IsStore(st)
    && |log.slots| == |log.pairs| && |log.origins| == NODE_LIMIT
    && (forall i | 0 <= i < |log.pairs| :: InPlace(hashes, nodes, st, log, i))
    && (forall b | 0 <= b < NODE_LIMIT :: Accounted(st, log, b))
    && Total(st.free, NODE_LIMIT) == |log.pairs|
  }

  lemma AppendIsRecorded(hashes: seq<Key>, nodes: seq<Node>, st: Store, log: Log, b: nat, pair: Pair)
    requires Recorded(hashes, nodes, st, log)
    requires b < NODE_LIMIT && Depth(b) < NODE_DEPTH - 1 && !nodes[b].Empty() && st.free[b] < BUCKET_SIZE
    requires Range(b).Contains(Hash(hashes, pair.key))
    ensures Recorded(hashes, nodes, Append(st, b, pair), log.Add(pair, b))
  {
    hide Range, Depth, Bucket, Append, Total, Log.Add, IsStore, InPlace, Accounted;
    AppendToBucket(st, b, pair, b);
    AppendTotal(st, b, pair);
    LogAdd(log, pair, b);
    forall i | 0 <= i < |log.pairs| + 1
      ensures InPlace(hashes, nodes, Append(st, b, pair), log.Add(pair, b), i)
    {
      InPlaceAfterAppend(hashes, nodes, st, log, b, pair, i);
    }
    forall a | 0 <= a < NODE_LIMIT
      ensures Accounted(Append(st, b, pair), log.Add(pair, b), a)
    {
      AccountedAfterAppend(st, log, b, pair, a);
    }
  }

  lemma LogAdd(log: Log, pair: Pair, b: nat)
    requires b < |log.origins|
    ensures var l := log.Add(pair, b);
      l.pairs == log.pairs + [pair] && |l.slots| == |log.slots| + 1 && |l.origins| == |log.origins|
  {
  }

  lemma AppendTotal(st: Store, b: nat, pair: Pair)
    requires IsStore(st) && b < NODE_LIMIT && st.free[b] < BUCKET_SIZE
    ensures Total(Append(st, b, pair).free, NODE_LIMIT) == Total(st.free, NODE_LIMIT) + 1
  {
    hide Total, BucketFits;
    TotalOfAppend(st.free, b, NODE_LIMIT);
  }

  lemma InPlaceAfterAppend(hashes: seq<Key>, nodes: seq<Node>, st: Store, log: Log, b: nat, pair: Pair, i: nat)
    requires Recorded(hashes, nodes, st, log)
    requires b < NODE_LIMIT && Depth(b) < NODE_DEPTH - 1 && !nodes[b].Empty() && st.free[b] < BUCKET_SIZE
    requires Range(b).Contains(Hash(hashes, pair.key)) && i <= |log.pairs|
    ensures IsStore(Append(st, b, pair)) && InPlace(hashes, nodes, Append(st, b, pair), log.Add(pair, b), i)
  {
    hide Range, Depth, Append, Total, IsStore, Bucket, InPlace, Accounted;
    AppendToBucket(st, b, pair, b);
    if i < |log.pairs| {
      KeptInPlace(hashes, nodes, st, log, b, pair, i);
    } else {
      AddedInPlace(hashes, nodes, st, log, b, pair);
    }
  }

  lemma KeptInPlace(hashes: seq<Key>, nodes: seq<Node>, st: Store, log: Log, b: nat, pair: Pair, i: nat)
    requires Recorded(hashes, nodes, st, log)
    requires b < NODE_LIMIT && st.free[b] < BUCKET_SIZE && i < |log.pairs|
    ensures IsStore(Append(st, b, pair)) && InPlace(hashes, nodes, Append(st, b, pair), log.Add(pair, b), i)
  {
    hide Range, Depth, Append, Total, IsStore, Bucket, Accounted;
    assert InPlace(hashes, nodes, st, log, i);
    AppendToBucket(st, b, pair, log.slots[i].bucket);
  }

  lemma AddedInPlace(hashes: seq<Key>, nodes: seq<Node>, st: Store, log: Log, b: nat, pair: Pair)
    requires Recorded(hashes, nodes, st, log)
    requires b < NODE_LIMIT && Depth(b) < NODE_DEPTH - 1 && !nodes[b].Empty() && st.free[b] < BUCKET_SIZE
    requires Range(b).Contains(Hash(hashes, pair.key))
    ensures IsStore(Append(st, b, pair)) && InPlace(hashes, nodes, Append(st, b, pair), log.Add(pair, b), |log.pairs|)
  {
    hide Range, Depth, Append, Total, IsStore, Bucket;
    assert Accounted(st, log, b);
    AppendToBucket(st, b, pair, b);
  }

  lemma AccountedAfterAppend(st: Store, log: Log, b: nat, pair: Pair, a: nat)
    requires IsStore(st) && |log.slots| == |log.pairs| && |log.origins| == NODE_LIMIT
    requires b < NODE_LIMIT && a < NODE_LIMIT && st.free[b] < BUCKET_SIZE
    requires Accounted(st, log, a) && Accounted(st, log, b)
    ensures IsStore(Append(st, b, pair)) && Accounted(Append(st, b, pair), log.Add(pair, b), a)
  {
    hide Append, IsStore, Bucket;
    AppendToBucket(st, b, pair, a);
  }

  lemma SplitIsRecorded(hashes: seq<Key>, nodes: seq<Node>, st: Store, log: Log, b: nat)
    requires Recorded(hashes, nodes, st, log) && 2 * b + 2 < NODE_LIMIT
    ensures Recorded(hashes, Split(nodes, b), st, log)
  {
    hide Range, Depth, Total, IsStore, Bucket, Accounted, InPlace, Split;
    assert |Split(nodes, b)| == NODE_LIMIT by {
      SplitAt(nodes, b, 0);
    }
    forall i | 0 <= i < |log.pairs|
      ensures InPlace(hashes, Split(nodes, b), st, log, i)
    {
      InPlaceAfterSplit(hashes, nodes, st, log, b, i);
    }
  }

  lemma InPlaceAfterSplit(hashes: seq<Key>, nodes: seq<Node>, st: Store, log: Log, b: nat, i: nat)
    requires Recorded(hashes, nodes, st, log) && 2 * b + 2 < NODE_LIMIT && i < |log.pairs|
    ensures InPlace(hashes, Split(nodes, b), st, log, i)
  {
    hide Range, Depth, Total, IsStore, Bucket, Accounted, Split, Pow2;
    assert InPlace(hashes, nodes, st, log, i);
    SplitAt(nodes, b, log.slots[i].bucket);
    Width(log.slots[i].bucket);
  }

  /** Only used nodes above the last level have pairs in their buckets. */
  lemma OnlyUsedHavePairs(hashes: seq<Key>, nodes: seq<Node>, st: Store, log: Log, b: nat)
    requires Recorded(hashes, nodes, st, log) && b < NODE_LIMIT && st.free[b] > 0
    ensures !nodes[b].Empty() && Depth(b) < NODE_DEPTH - 1
  {
    hide Range, Depth, Total, Bucket;
    assert Accounted(st, log, b);
    assert InPlace(hashes, nodes, st, log, log.origins[b][0]);
  }

  function Filled<T>(n: nat, x: T): (s: seq<T>)
    ensures |s| == n && forall i | 0 <= i < n :: s[i] == x
  {
    seq(n, _ => x)
  }

  lemma {:induction false} NoneInUse(free: seq<nat>, n: nat)
    requires n <= |free| && forall i | 0 <= i < n :: free[i] == 0
    ensures Total(free, n) == 0
  {
    if n > 0 {
      NoneInUse(free, n - 1);
    }
  }

  lemma NewIndex(hashes: seq<Key>, nodes: seq<Node>, st: Store, log: Log)
    requires |hashes| == KEY_MAX + 1 && nodes == Filled(NODE_LIMIT, Node(0, 0))[0 := Range(0)]
    requires st == Store(Filled(BUCKET_SIZE * NODE_LIMIT, Pair(0, 0)), Filled(NODE_LIMIT, 0))
    requires log == Log([], [], Filled(NODE_LIMIT, []))
    ensures IsTree(nodes) && Recorded(hashes, nodes, st, log)
  {
    hide Filled, Range, Total;
    assert !Range(0).Empty() by {
      RootRange();
    }
    NoneInUse(st.free, NODE_LIMIT);
    forall b | 0 <= b < NODE_LIMIT
      ensures BucketFits(st, b)
    {
    }
  }

  lemma RootRange()
    ensures Range(0) == Node(KEY_MIN, KEY_MAX)
  {
  }

  // ----- The index

  class Heap {
    // What `transform_key` makes of every key.
    const hashes: seq<Key>
    var nodes: seq<Node>
    var store: Store
    ghost var log: Log

    constructor (hashes: seq<Key>)
      requires |hashes| == KEY_MAX + 1
      ensures Valid() && this.hashes == hashes && log.pairs == []
      ensures nodes[1].Empty() && store.free[0] == 0
    {
      this.hashes := hashes;
      nodes := Filled(NODE_LIMIT, Node(0, 0));
      store := Store(Filled(BUCKET_SIZE * NODE_LIMIT, Pair(0, 0)), Filled(NODE_LIMIT, 0));
      log := Log([], [], Filled(NODE_LIMIT, []));
      new;
      hide Filled, IsTree, IsTreeBut, Recorded, Range;
      var root := HeapInsert(KEY_MIN, KEY_MAX, 0, 0);
      RootRange();
      NewIndex(hashes, nodes, store, log);
    }

    ghost predicate Valid()
      reads this
    {
      IsTree(nodes) && Recorded(hashes, nodes, store, log)
    }

    /** The bucket to try after `iterator`, and the position from which to go on; `d` is the depth
        that the walk has reached. */
    method HeapFind(key: Key, start: nat, ghost d: nat) returns (bucket: int, next: nat)
      requires |hashes| == KEY_MAX + 1 && IsTree(nodes)
      requires d < NODE_DEPTH && start == First(Hash(hashes, key), d)
      ensures var p := OnPath(Hash(hashes, key), d);
        if d < NODE_DEPTH - 1 && !nodes[p].Empty() then
          bucket == p && next == First(Hash(hashes, key), d + 1)
        else
          bucket == -1 && next == start
    {
      hide IsTree, First, OnPath, Range, Depth, Hash, Node.Empty, Node.Contains, Pow2;
      var hash := Hash(hashes, key);
      ghost var p := OnPath(hash, d);
      FindStep(nodes, hash, d);
      var i := start;
      bucket, next := -1, start;
      while i < NODE_LIMIT
        invariant i == start || (i == start + 1 == p && !nodes[p].Empty() && nodes[p].Contains(hash))
        decreases NODE_LIMIT - i
      {
        if nodes[i].Empty() {
          break;
        } else if nodes[i].Contains(hash) {
          var firstChild := 2 * i + 1;
          if firstChild < NODE_LIMIT {
            bucket, next := i, firstChild;
          }
          break;
        } else {
          i := i + 1;
        }
      }
    }

    /** Puts the range of the child `t` of node `b` into the node file. */
    method HeapInsert(min: Key, max: Key, ghost b: nat, ghost t: nat) returns (r: int)
      requires |nodes| == NODE_LIMIT
      modifies this`nodes
      ensures old(nodes)[0].Empty() && min <= max ==> r == 0 && nodes == old(nodes)[0 := Node(min, max)]
      ensures t < NODE_LIMIT && Node(min, max) == Range(t) && Walking(old(nodes), b, t, 0, 0) ==>
        if old(nodes)[t].Empty() then r == t && nodes == old(nodes)[t := Range(t)]
        else Depth(t) == NODE_DEPTH - 1 ==> r == -1 && nodes == old(nodes)
    {
      hide Walking, First, OnPath, Range, Depth, Node.Empty, Node.Encloses, Pow2;
      if min > max {
        return -1;
      }
      var i := 0;
      ghost var d := 0;
      ghost var guided := t < NODE_LIMIT && Node(min, max) == Range(t) && Walking(nodes, b, t, 0, 0);
      if guided {
        DepthBelowLimit(t);
      }
      while i < NODE_LIMIT
        invariant nodes == old(nodes)
        invariant i == 0 || !nodes[0].Empty()
        invariant guided ==> (Walking(nodes, b, t, d, i) && i < NODE_LIMIT) || (i > 2 * t && !nodes[t].Empty())
        decreases NODE_LIMIT - i
      {
        if guided && Walking(nodes, b, t, d, i) {
          WalkStep(nodes, b, t, d, i);
        }
        if nodes[i].Empty() {
          nodes := nodes[i := Node(min, max)];
          return i;
        } else if nodes[i].Encloses(min, max) {
          d, i := d + 1, 2 * i + 1;
        } else {
          i := i + 1;
        }
      }
      return -1;
    }

    /** Gives bucket `b` its two children, unless these are of the last level and exist already. */
    method BucketSplit(b: nat) returns (ok: bool)
      requires IsTree(nodes) && b < NODE_LIMIT && !nodes[b].Empty() && Depth(b) < NODE_DEPTH - 1
      requires Depth(b) < NODE_DEPTH - 2 && 2 * b + 1 < NODE_LIMIT ==> nodes[2 * b + 1].Empty()
      modifies this`nodes
      ensures 2 * b + 2 < NODE_LIMIT && ok == old(nodes)[2 * b + 1].Empty()
      ensures nodes == if ok then Split(old(nodes), b) else old(nodes)
    {
      hide Fits, ChildrenAlike, Walking, Range, Depth, Split, Node.Empty;
      BeforeSplit(nodes, b);
      var node := nodes[b];
      var mean := node.Mean();
      var small := HeapInsert(node.min, mean, b, 2 * b + 1);
      if small < 0 {
        return false;
      }
      HalfSplit(old(nodes), b);
      var large := HeapInsert(mean + 1, node.max, b, 2 * b + 2);
      ok := large >= 0;
    }

    method BucketAppend(b: nat, pair: Pair) returns (ok: bool)
      requires IsStore(store) && b < NODE_LIMIT
      modifies this`store
      ensures ok == (old(store).free[b] < BUCKET_SIZE)
      ensures store == if ok then Append(old(store), b, pair) else old(store)
    {
      hide BucketFits;
      if store.free[b] >= BUCKET_SIZE {
        return false;
      }
      store := Append(store, b, pair);
      ok := true;
    }

    /** The deepest bucket on the path of a key. */
    ghost function Target(key: Key): (b: nat)
      requires |hashes| == KEY_MAX + 1 && |nodes| == NODE_LIMIT
      ensures 2 * b + 2 < NODE_LIMIT && Depth(b) < NODE_DEPTH - 1
      reads this
    {
      var d := Deepest(nodes, Hash(hashes, key), 0);
      NextOnPath(Hash(hashes, key), d);
      OnPath(Hash(hashes, key), d)
    }

    method FindTarget(key: Key) returns (bucket: nat, next: nat)
      requires Valid()
      ensures bucket == Target(key) && !nodes[bucket].Empty() && Depth(bucket) < NODE_DEPTH - 1
      ensures next == First(Hash(hashes, key), Depth(bucket) + 1)
      ensures Depth(bucket) < NODE_DEPTH - 2 ==> 2 * bucket + 1 < NODE_LIMIT && nodes[2 * bucket + 1].Empty()
    {
      hide Fits, ChildrenAlike, InPlace, Accounted, IsStore, Total, OnPath, Range, Depth, First, Deepest, Hash,
           Node.Empty;
      ghost var hash, d := Hash(hashes, key), 0;
      var last := -1;
      next := 0;
      FirstAtRoot(hash);
      while true
        invariant d < NODE_DEPTH && next == First(hash, d)
        invariant d == 0 ==> last == -1
        invariant d > 0 ==> last == OnPath(hash, d - 1) && !nodes[last].Empty()
        invariant d > 0 ==> Deepest(nodes, hash, 0) == Deepest(nodes, hash, d - 1)
        decreases NODE_DEPTH - d
      {
        TargetStep(nodes, hash, d);
        var b, n := HeapFind(key, next, d);
        if b < 0 {
          break;
        }
        last, next, d := b, n, d + 1;
      }
      bucket := last;
    }

    /** The pair has been added to bucket `b`. */
    ghost predicate AddedTo(st: Store, l: Log, b: nat, pair: Pair)
      reads this
    {
      && IsStore(st) && b < NODE_LIMIT && st.free[b] < BUCKET_SIZE && b < |l.origins|
      && store == Append(st, b, pair) && log == l.Add(pair, b)
    }

    /** Inserts a pair into the deepest bucket on the path of its key. This fails if and only if that
        bucket is full and no deeper one is allowed; no pair that was inserted before moves. A full bucket
        is split if it has no children yet, even when the insertion then fails. */
    method InsertItem(key: Key, value: Key) returns (r: int)
      requires Valid()
      modifies this`nodes, this`store, this`log
      ensures Valid()
      ensures r == if old(store.free[Target(key)]) == BUCKET_SIZE && Depth(old(Target(key))) == NODE_DEPTH - 2 then 0 else 1
      ensures r == 0 ==> store == old(store) && log == old(log)
      ensures var b, full := old(Target(key)), old(store.free[Target(key)]) == BUCKET_SIZE;
        && nodes == (if full && old(nodes)[2 * b + 1].Empty() then Split(old(nodes), b) else old(nodes))
        && (r == 1 && full ==> Depth(b) + 1 < NODE_DEPTH - 1)
        && (r == 1 ==> AddedTo(old(store), old(log), if full then OnPath(Hash(hashes, key), Depth(b) + 1) else b,
                               Pair(key, value)))
      ensures r == 1 ==> log.pairs == old(log.pairs) + [Pair(key, value)] && old(log.slots) <= log.slots
      ensures r == 1 ==>
        && |log.slots| == |log.pairs| && log.slots[|log.slots| - 1].bucket < NODE_LIMIT
        && Range(log.slots[|log.slots| - 1].bucket).Contains(hashes[key])
    {
      hide Fits, ChildrenAlike, InPlace, Accounted, IsStore, Total, OnPath, Range, Depth, First, Deepest, Hash, Split,
           Append, Node.Empty;
      var bucket, next := FindTarget(key);
      ghost var hash := Hash(hashes, key);
      RecordedStore(hashes, nodes, store, log, bucket);
      if store.free[bucket] == BUCKET_SIZE {
        SplitForInsert(hashes, nodes, store, log, hash, bucket);
        var split := BucketSplit(bucket);
        if !split {
          return 0;
        }
        var b, _ := HeapFind(key, next, Depth(bucket) + 1);
        if b < 0 {
          return 0;
        }
        bucket := b;
      }
      AppendIsRecorded(hashes, nodes, store, log, bucket, Pair(key, value));
      var ok := BucketAppend(bucket, Pair(key, value));
      if !ok {
        return 0;
      }
      log := log.Add(Pair(key, value), bucket);
      r := 1;
      LastIsHome(hashes, nodes, store, log);
    }
  }

  /** The bucket of the newest pair is one whose range has the hash of its key. */
  lemma LastIsHome(hashes: seq<Key>, nodes: seq<Node>, st: Store, log: Log)
    requires Recorded(hashes, nodes, st, log) && log.pairs != []
    ensures var n := |log.pairs| - 1;
      log.slots[n].bucket < NODE_LIMIT && Range(log.slots[n].bucket).Contains(hashes[log.pairs[n].key])
  {
    hide Fits, ChildrenAlike, Accounted, IsStore, Total, OnPath, Range, Depth, Node.Empty;
    assert InPlace(hashes, nodes, st, log, |log.pairs| - 1);
  }

  lemma SplitForInsert(hashes: seq<Key>, nodes: seq<Node>, st: Store, log: Log, hash: Key, b: nat)
    requires IsTree(nodes) && Recorded(hashes, nodes, st, log)
    requires b < NODE_LIMIT && !nodes[b].Empty() && Depth(b) < NODE_DEPTH - 1 && b == OnPath(hash, Depth(b))
    ensures 2 * b + 2 < NODE_LIMIT
    ensures nodes[2 * b + 1].Empty() ==> IsTree(Split(nodes, b)) && Recorded(hashes, Split(nodes, b), st, log)
    ensures nodes[2 * b + 1].Empty() ==>
      var c := OnPath(hash, Depth(b) + 1); !Split(nodes, b)[c].Empty() && st.free[c] == 0 && Range(c).Contains(hash)
  {
    hide Fits, ChildrenAlike, InPlace, Accounted, IsStore, Total, OnPath, Range, Depth, Split, Node.Empty, Pow2;
    DepthBelowLimit(b);
    if nodes[2 * b + 1].Empty() {
      SplitKeepsTree(nodes, b);
      SplitIsRecorded(hashes, nodes, st, log, b);
      NextOnPath(hash, Depth(b));
      var c := OnPath(hash, Depth(b) + 1);
      AlikeEmpty(nodes, b);
      SplitAt(nodes, b, c);
      Width(c);
      RecordedStore(hashes, nodes, st, log, c);
    }
  }

  ghost function NextDeepest(nodes: seq<Node>, hash: Key, d: nat): nat
    requires |nodes| == NODE_LIMIT && 0 < d < NODE_DEPTH
  {
    if d < NODE_DEPTH - 1 && !nodes[OnPath(hash, d)].Empty() then Deepest(nodes, hash, d) else d - 1
  }

  /** One step further down the path of a hash. */
  lemma TargetStep(nodes: seq<Node>, hash: Key, d: nat)
    requires IsTree(nodes) && d < NODE_DEPTH
    ensures |nodes| == NODE_LIMIT
    ensures d == 0 ==> !nodes[OnPath(hash, d)].Empty()
    ensures d > 0 ==> Deepest(nodes, hash, d - 1) == NextDeepest(nodes, hash, d)
    ensures 0 < d && nodes[OnPath(hash, d)].Empty() ==>
      First(hash, d) == 2 * OnPath(hash, d - 1) + 1 && nodes[2 * OnPath(hash, d - 1) + 1].Empty()
  {
    hide OnPath, Range, Depth, Node.Empty, Pow2, Fits, ChildrenAlike, Parent;
    FirstAtRoot(hash);
    if d > 0 {
      NextOnPath(hash, d - 1);
      assert ChildrenAlike(nodes, OnPath(hash, d - 1));
      AlikeEmpty(nodes, OnPath(hash, d - 1));
    }
  }

  /** A bucket can be split when its node is above the last level. */
  lemma BeforeSplit(nodes: seq<Node>, b: nat)
    requires IsTree(nodes) && b < NODE_LIMIT && !nodes[b].Empty() && Depth(b) < NODE_DEPTH - 1
    ensures 2 * b + 2 < NODE_LIMIT && nodes[b] == Range(b)
    ensures Walking(nodes, b, 2 * b + 1, 0, 0)
    ensures Depth(2 * b + 1) == Depth(b) + 1
    ensures Range(b).min <= Range(b).Mean() < Range(b).max
    ensures Range(2 * b + 1) == Node(Range(b).min, Range(b).Mean())
    ensures Range(2 * b + 2) == Node(Range(b).Mean() + 1, Range(b).max)
  {
    hide OnPath, Range, Depth, Node.Empty, Node.Mean, Pow2, Fits, ChildrenAlike, Walking;
    DepthBelowLimit(b);
    FitsRange(nodes, b);
    ChildrenOf(b);
    Halves(b, 0);
    MeanBelow(Range(b));
    WalkStarts(nodes, b, 2 * b + 1);
  }

  lemma MeanBelow(node: Node)
    requires node.min <= node.max
    ensures node.min <= node.Mean() <= node.max
  {
  }

  /** The state between the two insertions of a split. */
  lemma HalfSplit(nodes: seq<Node>, b: nat)
    requires IsTree(nodes) && 2 * b + 2 < NODE_LIMIT && !nodes[b].Empty() && nodes[2 * b + 1].Empty()
    ensures Walking(nodes[2 * b + 1 := Range(2 * b + 1)], b, 2 * b + 2, 0, 0)
    ensures nodes[2 * b + 1 := Range(2 * b + 1)][2 * b + 2].Empty()
    ensures Split(nodes, b) == nodes[2 * b + 1 := Range(2 * b + 1)][2 * b + 2 := Range(2 * b + 2)]
  {
    hide OnPath, Range, Depth, Node.Empty, Node.Mean, Pow2, Fits, ChildrenAlike, Walking, Parent;
    var half := nodes[2 * b + 1 := Range(2 * b + 1)];
    AlikeEmpty(nodes, b);
    Width(2 * b + 1);
    forall i | 0 <= i < NODE_LIMIT
      ensures Fits(half, i)
    {
      HalfFits(nodes, b, i);
    }
    forall a | 0 <= a < 255 && a != b
      ensures ChildrenAlike(half, a)
    {
      HalfAlike(nodes, b, a);
    }
    WalkStarts(half, b, 2 * b + 2);
  }

  lemma HalfFits(nodes: seq<Node>, b: nat, i: nat)
    requires |nodes| == NODE_LIMIT && 2 * b + 2 < NODE_LIMIT && !nodes[b].Empty() && i < NODE_LIMIT && Fits(nodes, i)
    ensures Fits(nodes[2 * b + 1 := Range(2 * b + 1)], i)
  {
    hide Range, Depth, Pow2;
    Width(2 * b + 1);
    ChildrenOf(b);
  }

  lemma HalfAlike(nodes: seq<Node>, b: nat, a: nat)
    requires |nodes| == NODE_LIMIT && 2 * b + 2 < NODE_LIMIT && 2 * a + 2 < NODE_LIMIT && a != b
    requires ChildrenAlike(nodes, a)
    ensures ChildrenAlike(nodes[2 * b + 1 := Range(2 * b + 1)], a)
  {
    hide Range;
  }

  lemma RecordedStore(hashes: seq<Key>, nodes: seq<Node>, st: Store, log: Log, b: nat)
    requires Recorded(hashes, nodes, st, log) && b < NODE_LIMIT
    ensures IsStore(st) && |st.free| == NODE_LIMIT && |nodes| == NODE_LIMIT && |hashes| == KEY_MAX + 1
    ensures |log.origins| == NODE_LIMIT
    ensures st.free[b] <= BUCKET_SIZE && (nodes[b].Empty() || Depth(b) == NODE_DEPTH - 1 ==> st.free[b] == 0)
  {
    hide Range, Depth, Total, Bucket, InPlace, Accounted, BucketFits;
    Sized(st, b);
    if st.free[b] > 0 {
      OnlyUsedHavePairs(hashes, nodes, st, log, b);
    }
  }

  lemma FindStep(nodes: seq<Node>, hash: Key, d: nat)
    requires IsTree(nodes) && d < NODE_DEPTH
    ensures |nodes| == NODE_LIMIT && First(hash, d) <= OnPath(hash, d) <= First(hash, d) + 1
    ensures var f, p := First(hash, d), OnPath(hash, d);
      && (nodes[f].Empty() ==> nodes[p].Empty())
      && (!nodes[f].Empty() ==> !nodes[p].Empty() && (nodes[f].Contains(hash) <==> f == p))
      && (!nodes[p].Empty() ==> nodes[p].Contains(hash))
      && (2 * p + 1 < NODE_LIMIT <==> d < NODE_DEPTH - 1)
      && (d < NODE_DEPTH - 1 ==> First(hash, d + 1) == 2 * p + 1)
  {
    hide First, OnPath, Range, Depth, Node.Empty, Node.Contains, Pow2, Fits, ChildrenAlike, Parent;
    DepthBelowLimit(OnPath(hash, d));
    if d < NODE_DEPTH - 1 {
      FirstBelow(hash, d);
    }
    if d > 0 {
      NextOnPath(hash, d - 1);
      FirstBelow(hash, d - 1);
      assert ChildrenAlike(nodes, OnPath(hash, d - 1));
      AlikeEmpty(nodes, OnPath(hash, d - 1));
    }
    FirstAtRoot(hash);
    FirstOrNext(nodes, AnotherNode(hash, d), hash, d);
  }

  /** A node other than the parent of those at depth `d` for the hash. */
  ghost function AnotherNode(hash: Key, d: nat): (b: nat)
    requires d < NODE_DEPTH
    ensures b < 255 && (d > 0 ==> OnPath(hash, d - 1) != b)
  {
    if d > 0 && OnPath(hash, d - 1) == 0 then 1 else 0
  }
}
