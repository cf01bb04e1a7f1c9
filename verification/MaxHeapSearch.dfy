/** Searching the max-heap index: the buckets on the path of a key's hash are searched from the
    bottom up through a cache of one bucket, and a range query asks for one key after another. */
module MaxHeapSearch {

  import opened HeapTree
  import opened MaxHeap

  // ----- What a search finds

  /** The first slot from `start` on that has the key, or the length of the bucket. */
  function FirstMatch(bucket: seq<Pair>, key: Key, start: nat): (r: nat)
    ensures r <= |bucket|
    ensures r < |bucket| ==> start <= r && bucket[r].key == key
    ensures forall i | start <= i < r :: bucket[i].key != key
    decreases |bucket| - start
  {
    if start >= |bucket| then |bucket|
    else if bucket[start].key == key then start
    else FirstMatch(bucket, key, start + 1)
  }

  predicate IsMatch(bs: seq<seq<Pair>>, key: Key, f: (nat, nat)) {
    f.0 < |bs| && f.1 < |bs[f.0]| && bs[f.0][f.1].key == key
  }

  predicate AreMatches(bs: seq<seq<Pair>>, key: Key, fs: seq<(nat, nat)>) {
    forall i | 0 <= i < |fs| :: IsMatch(bs, key, fs[i])
  }

  /** The slots found in buckets `level` and above it, given as (level, index). The slot at which the
      search of one bucket begins is the one behind the last find, even if that was in another bucket. */
  function Finds(bs: seq<seq<Pair>>, key: Key, level: int, start: nat): (r: seq<(nat, nat)>)
    requires level < |bs|
    ensures AreMatches(bs, key, r)
    decreases level + 1, if level >= 0 then |bs[level]| - start else 0
  {
    if level < 0 then []
    else
      var i := FirstMatch(bs[level], key, start);
      if i < |bs[level]| then [(level, i)] + Finds(bs, key, level, i + 1)
      else Finds(bs, key, level - 1, start)
  }

  function ValuesAt(bs: seq<seq<Pair>>, key: Key, fs: seq<(nat, nat)>): (r: seq<Key>)
    requires AreMatches(bs, key, fs)
    ensures |r| == |fs| && forall i | 0 <= i < |fs| :: IsMatch(bs, key, fs[i]) && r[i] == bs[fs[i].0][fs[i].1].value
  {
    if fs == [] then []
    else
      assert IsMatch(bs, key, fs[0]);
      [bs[fs[0].0][fs[0].1].value] + ValuesAt(bs, key, fs[1..])
  }

  /** The buckets on the path of a hash down to depth `e`. */
  ghost function Buckets(st: Store, hash: Key, e: nat): (r: seq<seq<Pair>>)
    requires IsStore(st) && e < NODE_DEPTH
    ensures |r| == e + 1 && forall d | 0 <= d <= e :: r[d] == Bucket(st, OnPath(hash, d))
  {
    if e == 0 then [Bucket(st, OnPath(hash, 0))] else Buckets(st, hash, e - 1) + [Bucket(st, OnPath(hash, e))]
  }

  /** A snapshot of the index. */
  datatype Index = Index(hashes: seq<Key>, nodes: seq<Node>, store: Store, log: Log) {
    ghost predicate Valid() { IsTree(nodes) && Recorded(hashes, nodes, store, log) }

    /** The buckets that are searched for a key. */
    ghost function Path(key: Key): (r: seq<seq<Pair>>)
      requires Valid()
      ensures 0 < |r| < NODE_DEPTH
    {
      Buckets(store, Hash(hashes, key), Deepest(nodes, Hash(hashes, key), 0))
    }

    ghost function Search(key: Key, level: int, start: nat): seq<Key>
      requires Valid() && level < |Path(key)|
    {
      ValuesAt(Path(key), key, Finds(Path(key), key, level, start))
    }

    /** What a new search for one key returns. */
    ghost function Lookup(key: Key): seq<Key>
      requires Valid()
    {
      Search(key, |Path(key)| - 1, 0)
    }

    /** What a range query returns. */
    ghost function LookupRange(low: int, high: int): seq<Key>
      requires Valid()
      decreases high - low
    {
      if low > high then [] else Lookup(KeyOf(low)) + LookupRange(low + 1, high)
    }
  }

  /** A 16-bit number as a key. */
  function KeyOf(v: int): Key { v % 0x1_0000 }

  // ----- The bucket cache

  /** The cache holds what bucket `id` has in the file. */
  ghost predicate Coherent(st: Store, id: int, bucket: seq<Pair>)
    requires IsStore(st)
  {
    |bucket| == BUCKET_SIZE && (0 <= id ==> id < NODE_LIMIT && InCache(st, id, bucket))
  }

  ghost predicate InCache(st: Store, id: nat, bucket: seq<Pair>)
    requires IsStore(st) && id < NODE_LIMIT && |bucket| == BUCKET_SIZE
  {
    |Bucket(st, id)| <= BUCKET_SIZE && bucket[..|Bucket(st, id)|] == Bucket(st, id)
  }

  /** The cache is not written to by an append, so it becomes stale when the bucket it holds is
      appended to. */
  lemma AppendKeepsCoherent(st: Store, id: int, bucket: seq<Pair>, b: nat, pair: Pair)
    requires IsStore(st) && b < NODE_LIMIT && st.free[b] < BUCKET_SIZE && Coherent(st, id, bucket)
    ensures IsStore(Append(st, b, pair))
    ensures Coherent(Append(st, b, pair), id, bucket) <==> id != b || bucket[st.free[b]] == pair
  {
    hide Append, Bucket, IsStore;
    AppendToBucket(st, b, pair, b);
    if 0 <= id {
      AppendToBucket(st, b, pair, id);
    }
    FreeBelow(st, b);
  }

  lemma FreeBelow(st: Store, b: nat)
    requires IsStore(st) && b < NODE_LIMIT
    ensures |st.free| == NODE_LIMIT && |Bucket(st, b)| == st.free[b] <= BUCKET_SIZE
  {
    Sized(st, b);
  }

  class Cache {
    // The bucket in the cache, or -1 when there is none of this index.
    var id: int
    var bucket: seq<Pair>

    constructor ()
      ensures id == -1 && |bucket| == BUCKET_SIZE
    {
      id, bucket := -1, Filled(BUCKET_SIZE, Pair(0, 0));
    }

    /** Loads a bucket, unless it is the one in the cache already. */
    method BucketLoad(heap: Heap, b: nat)
      requires IsStore(heap.store) && b < NODE_LIMIT && |bucket| == BUCKET_SIZE
      modifies this, heap`store
      ensures heap.store == old(heap.store) && id == b && |bucket| == BUCKET_SIZE
      ensures old(id) == b ==> bucket == old(bucket)
      ensures old(id) != b ==> InCache(heap.store, b, bucket)
    {
      hide IsStore, Bucket;
      FreeBelow(heap.store, b);
      if id == b {
        return;
      }
      var size := if heap.store.free[b] == 0 then BUCKET_SIZE else heap.store.free[b];
      var read := BucketRead(heap.store, b, size);
      bucket := read + bucket[size..];
      id := b;
      if heap.store.free[b] == 0 {
        assert bucket[0] == read[0];
        var i := FirstEmpty(bucket);
        heap.store := heap.store.(free := heap.store.free[b := i]);
      }
    }
  }

  method FirstEmpty(bucket: seq<Pair>) returns (i: nat)
    ensures i <= |bucket| && (i < |bucket| ==> bucket[i].Empty()) && forall j | 0 <= j < i :: !bucket[j].Empty()
  {
    i := 0;
    while i < |bucket| && !bucket[i].Empty()
      invariant i <= |bucket| && forall j | 0 <= j < i :: !bucket[j].Empty()
    {
      i := i + 1;
    }
  }

  /** The first `size` pairs of bucket `b` in the file; what has not been written yet is empty. */
  method BucketRead(st: Store, b: nat, size: nat) returns (r: seq<Pair>)
    requires IsStore(st) && b < NODE_LIMIT && |Bucket(st, b)| <= size <= BUCKET_SIZE
    ensures |r| == size && r[..|Bucket(st, b)|] == Bucket(st, b)
    ensures forall i | |Bucket(st, b)| <= i < size :: r[i].Empty()
  {
    Sized(st, b);
    assert BucketFits(st, b);
    r := st.pairs[Offset(b, 0)..Offset(b, size)];
    forall i | |Bucket(st, b)| <= i < size
      ensures r[i].Empty()
    {
      assert r[i] == st.pairs[Offset(b, i)];
    }
  }

  // ----- The iterator

  ghost function SnapshotOf(heap: Heap): Index
    reads heap
  {
    Index(heap.hashes, heap.nodes, heap.store, heap.log)
  }

  /** An iterator over the keys from `min` to `max`, together with the search that it has cached. */
  class Iterator {
    const heap: Heap
    const cache: Cache
    var min: int
    const max: int
    var nextItemNo: nat
    // The nodes on the path of the key `min`, and the place in it that the search has reached.
    var visited: seq<nat>
    var level: int
    var start: nat
    var foundItems: nat

    constructor (heap: Heap, cache: Cache, min: int, max: int)
      requires heap.Valid() && Coherent(heap.store, cache.id, cache.bucket) && min <= max
      ensures this.heap == heap && this.cache == cache && this.min == min && this.max == max
      ensures Valid() && nextItemNo == 0 && Pending() == SnapshotOf(heap).LookupRange(min, max)
      // An iterator for one key searches for that key.
      ensures 0 <= min == max <= KEY_MAX ==> Pending() == SnapshotOf(heap).Lookup(min)
    {
      hide IsTree, Recorded, IsStore, OnPath, Hash, Index.Path, Index.Search, Index.LookupRange, Index.Lookup, Coherent;
      this.heap, this.cache, this.min, this.max := heap, cache, min, max;
      nextItemNo, visited, level, start, foundItems := 0, [], -1, 0, 0;
      new;
      OneKeyRange(SnapshotOf(heap), min);
    }

    /** The cached search is one on the path of the current key. */
    ghost predicate Searching()
      requires heap.Valid()
      reads this, heap
    {
      && |visited| == |SnapshotOf(heap).Path(KeyOf(min))| && -1 <= level < |visited|
      && (forall d | 0 <= d < |visited| :: d < NODE_DEPTH && visited[d] == OnPath(Hash(heap.hashes, KeyOf(min)), d))
      && foundItems == nextItemNo
    }

    ghost predicate Valid()
      reads this, heap, cache
    {
      && heap.Valid() && Coherent(heap.store, cache.id, cache.bucket) && min <= max
      && (nextItemNo > 0 ==> Searching())
    }

    /** The values that are still to come. */
    ghost function Pending(): seq<Key>
      requires Valid()
      reads this, heap, cache
    {
      if nextItemNo == 0 then SnapshotOf(heap).LookupRange(min, max)
      else SnapshotOf(heap).Search(KeyOf(min), level, start) + SnapshotOf(heap).LookupRange(min + 1, max)
    }

    /** Walks down the path of a key; at most `NODE_DEPTH` buckets are found. */
    method FindPath(key: Key) returns (path: seq<nat>)
      requires heap.Valid()
      ensures |path| == |SnapshotOf(heap).Path(key)|
      ensures forall d | 0 <= d < |path| :: d < NODE_DEPTH && path[d] == OnPath(Hash(heap.hashes, key), d)
    {
      hide Fits, ChildrenAlike, InPlace, Accounted, IsStore, Total, OnPath, Range, Depth, First, Deepest, Hash,
           Node.Empty;
      ghost var hash := Hash(heap.hashes, key);
      var next := 0;
      path := [];
      FirstAtRoot(hash);
      while |path| < NODE_DEPTH
        invariant |path| < NODE_DEPTH && next == First(hash, |path|)
        invariant forall d | 0 <= d < |path| :: path[d] == OnPath(hash, d)
        invariant |path| > 0 ==> Deepest(heap.nodes, hash, 0) == Deepest(heap.nodes, hash, |path| - 1)
        decreases NODE_DEPTH - |path|
      {
        TargetStep(heap.nodes, hash, |path|);
        var b, n := heap.HeapFind(key, next, |path|);
        if b < 0 {
          break;
        }
        path, next := path + [b], n;
      }
    }

    /** Goes through the first `free` pairs of the bucket in the cache. */
    method Scan(key: Key, free: nat) returns (i: nat)
      requires free <= |cache.bucket| && foundItems == nextItemNo
      modifies this`foundItems
      ensures var r := FirstMatch(cache.bucket[..free], key, start);
        if r < free then i == r && foundItems == nextItemNo + 1 else i >= free && foundItems == nextItemNo
    {
      i := start;
      while i < free
        invariant foundItems == nextItemNo && start <= i
        invariant forall j | start <= j < i && j < free :: cache.bucket[j].key != key
      {
        if cache.bucket[i].key == key {
          foundItems := foundItems + 1;
          if foundItems - 1 == nextItemNo {
            return;
          }
        }
        i := i + 1;
      }
    }

    /** Searches the rest of the path. */
    method SearchOn() returns (r: int)
      requires Valid() && Searching()
      modifies this`level, this`start, this`foundItems, this`nextItemNo, cache, heap`store
      ensures Valid() && Searching() && heap.store == old(heap.store)
      ensures Pops(old(SnapshotOf(heap).Search(KeyOf(min), level, start)), r, SnapshotOf(heap).Search(KeyOf(min), level, start))
      ensures nextItemNo == old(nextItemNo) + (if r >= 0 then 1 else 0)
    {
      hide Fits, ChildrenAlike, InPlace, Accounted, IsStore, Total, OnPath, Range, Depth, Deepest, Hash, Bucket,
           Index.Path, Index.Search;
      ghost var index := SnapshotOf(heap);
      ghost var rest := index.Search(KeyOf(min), level, start);
      var key := KeyOf(min);
      while level >= 0
        invariant Valid() && Searching() && heap.store == old(heap.store) && nextItemNo == old(nextItemNo)
        invariant index.Search(KeyOf(min), level, start) == rest
        decreases level
      {
        SearchStep(index, key, level, start);
        cache.BucketLoad(heap, visited[level]);
        FreeBelow(heap.store, visited[level]);
        var i := Scan(key, heap.store.free[visited[level]]);
        if i < heap.store.free[visited[level]] {
          nextItemNo := nextItemNo + 1;
          start := i + 1;
          return cache.bucket[i].value;
        }
        level := level - 1;
      }
      SearchEnd(index, key, level, start);
      r := -1;
    }

    /** Returns the next value, or -1 at the end. */
    method GetNext() returns (r: int)
      requires Valid()
      modifies this, cache, heap`store
      ensures Valid() && heap.store == old(heap.store)
      ensures Pops(old(Pending()), r, Pending())
      decreases max - min
    {
      hide IsTree, Recorded, IsStore, OnPath, Hash, Index.Path, Index.Search, Index.LookupRange, Coherent, Pops;
      ghost var index := SnapshotOf(heap);
      RangeNext(index, min, max);
      RangeNext(index, min + 1, max);
      if nextItemNo == 0 {
        visited := FindPath(KeyOf(min));
        level, start, foundItems := |visited| - 1, 0, 0;
      }
      ghost var current, later := index.Search(KeyOf(min), level, start), index.LookupRange(min + 1, max);
      r := SearchOn();
      PopsFrom(current, r, index.Search(KeyOf(min), level, start), later);
      if r >= 0 {
        return;
      }
      if min == max {
        return;
      }
      nextItemNo := 0;
      min := min + 1;
      r := GetNext();
    }
  }

  /** `r` is the first of the values `before`, and `after` are the others; or there is none. */
  ghost predicate Pops(before: seq<Key>, r: int, after: seq<Key>) {
    if before == [] then r == -1 && after == [] else r == before[0] && after == before[1..]
  }

  lemma PopsFrom(before: seq<Key>, r: int, after: seq<Key>, more: seq<Key>)
    requires Pops(before, r, after)
    ensures r >= 0 ==> Pops(before + more, r, after + more)
    ensures r < 0 ==> r == -1 && before == after == [] && before + more == more && Pops([], r, [])
  {
  }

  lemma OneKeyRange(index: Index, key: int)
    requires index.Valid()
    ensures 0 <= key <= KEY_MAX ==> index.LookupRange(key, key) == index.Lookup(key)
  {
    hide IsTree, Recorded, Index.Path, Index.Search;
    assert index.LookupRange(key + 1, key) == [];
  }

  lemma RangeNext(index: Index, low: int, high: int)
    requires index.Valid()
    ensures low <= high ==>
      index.LookupRange(low, high) ==
      index.Search(KeyOf(low), |index.Path(KeyOf(low))| - 1, 0) + index.LookupRange(low + 1, high)
    ensures low > high ==> index.LookupRange(low, high) == []
  {
    hide IsTree, Recorded, Index.Path, Index.Search;
  }

  /** A search goes on behind a match, or from the same slot number in the bucket above. */
  lemma SearchStep(index: Index, key: Key, level: nat, start: nat)
    requires index.Valid() && level < |index.Path(key)|
    ensures var b := Bucket(index.store, OnPath(Hash(index.hashes, key), level));
      var i := FirstMatch(b, key, start);
      if i < |b| then index.Search(key, level, start) == [b[i].value] + index.Search(key, level, i + 1)
      else index.Search(key, level, start) == index.Search(key, level - 1, start)
  {
    hide IsTree, Recorded, OnPath, Hash, Bucket, FirstMatch, Finds, ValuesAt, Index.Path;
    PathAt(index, key, level);
    FindsStep(index.Path(key), key, level, start);
  }

  lemma PathAt(index: Index, key: Key, level: nat)
    requires index.Valid() && level < |index.Path(key)|
    ensures level < NODE_DEPTH && index.Path(key)[level] == Bucket(index.store, OnPath(Hash(index.hashes, key), level))
  {
    hide Fits, ChildrenAlike, InPlace, Accounted, IsStore, Total, OnPath, Depth, Deepest, Hash, Bucket;
  }

  lemma FindsStep(bs: seq<seq<Pair>>, key: Key, level: nat, start: nat)
    requires level < |bs|
    ensures var i := FirstMatch(bs[level], key, start);
      ValuesAt(bs, key, Finds(bs, key, level, start)) ==
      if i < |bs[level]| then [bs[level][i].value] + ValuesAt(bs, key, Finds(bs, key, level, i + 1))
      else ValuesAt(bs, key, Finds(bs, key, level - 1, start))
  {
    hide FirstMatch, ValuesAt, AreMatches, IsMatch, Finds;
    var i := FirstMatch(bs[level], key, start);
    FindsNext(bs, key, level, start);
    if i < |bs[level]| {
      FirstValue(bs, key, (level, i), Finds(bs, key, level, i + 1));
    }
  }

  lemma FindsNext(bs: seq<seq<Pair>>, key: Key, level: nat, start: nat)
    requires level < |bs|
    ensures var i := FirstMatch(bs[level], key, start);
      Finds(bs, key, level, start) ==
      if i < |bs[level]| then [(level, i)] + Finds(bs, key, level, i + 1) else Finds(bs, key, level - 1, start)
  {
    hide FirstMatch, AreMatches;
  }

  lemma FirstValue(bs: seq<seq<Pair>>, key: Key, f: (nat, nat), fs: seq<(nat, nat)>)
    requires AreMatches(bs, key, fs) && AreMatches(bs, key, [f] + fs)
    ensures f.0 < |bs| && f.1 < |bs[f.0]|
    ensures ValuesAt(bs, key, [f] + fs) == [bs[f.0][f.1].value] + ValuesAt(bs, key, fs)
  {
    hide AreMatches;
    assert IsMatch(bs, key, ([f] + fs)[0]) by {
      FirstOf(bs, key, [f] + fs);
    }
    assert ([f] + fs)[1..] == fs;
  }

  lemma FirstOf(bs: seq<seq<Pair>>, key: Key, fs: seq<(nat, nat)>)
    requires AreMatches(bs, key, fs) && fs != []
    ensures IsMatch(bs, key, fs[0])
  {
  }

  lemma SearchEnd(index: Index, key: Key, level: int, start: nat)
    requires index.Valid() && level < 0
    ensures index.Search(key, level, start) == []
  {
  }
}
