/** What searches of the max-heap index find, compared with what has been inserted. */
module MaxHeapLookup {

  import opened HeapTree
  import opened MaxHeap
  import opened MaxHeapSearch

  // ----- Which of the matching slots a search finds

  /** From each bucket to those above it the slot numbers of the matches increase. */
  ghost predicate Ascending(bs: seq<seq<Pair>>, key: Key) {
    forall f, g | IsMatch(bs, key, f) && IsMatch(bs, key, g) && f.0 > g.0 :: f.1 < g.1
  }

  ghost predicate Within(r: seq<(nat, nat)>, level: int, start: nat) {
    forall i | 0 <= i < |r| :: r[i].0 <= level && start <= r[i].1
  }

  ghost predicate Ordered(r: seq<(nat, nat)>) {
    forall i, j | 0 <= i < j < |r| :: r[i].0 >= r[j].0 && r[i].1 < r[j].1
  }

  lemma OrderedBefore(f: (nat, nat), r: seq<(nat, nat)>, start: nat)
    requires Ordered(r) && Within(r, f.0, f.1 + 1) && start <= f.1
    ensures Ordered([f] + r) && Within([f] + r, f.0, start)
  {
  }

  lemma {:induction false} FindsOrder(bs: seq<seq<Pair>>, key: Key, level: int, start: nat)
    requires level < |bs|
    ensures Ordered(Finds(bs, key, level, start)) && Within(Finds(bs, key, level, start), level, start)
    decreases level + 1, if level >= 0 then |bs[level]| - start else 0
  {
    hide Ordered, Within, Finds, FirstMatch;
    if level < 0 {
      NothingOrdered(level, start);
      NothingFound(bs, key, level, start);
    } else {
      FindsNext(bs, key, level, start);
      FirstBehind(bs[level], key, start);
      var i := FirstMatch(bs[level], key, start);
      if i < |bs[level]| {
        FindsOrder(bs, key, level, i + 1);
        OrderedBefore((level, i), Finds(bs, key, level, i + 1), start);
      } else {
        FindsOrder(bs, key, level - 1, start);
        WithinMore(Finds(bs, key, level - 1, start), level - 1, start);
      }
    }
  }

  lemma NothingFound(bs: seq<seq<Pair>>, key: Key, level: int, start: nat)
    requires level < 0
    ensures Finds(bs, key, level, start) == []
  {
  }

  lemma FirstBehind(bucket: seq<Pair>, key: Key, start: nat)
    ensures FirstMatch(bucket, key, start) < |bucket| ==> start <= FirstMatch(bucket, key, start)
  {
  }

  lemma NothingOrdered(level: int, start: nat)
    ensures Ordered([]) && Within([], level, start)
  {
  }

  lemma WithinMore(r: seq<(nat, nat)>, level: int, start: nat)
    requires Within(r, level, start)
    ensures Within(r, level + 1, start)
  {
  }

  /** The matches above `level` are not before slot `start`. */
  ghost predicate NotBefore(bs: seq<seq<Pair>>, key: Key, level: int, start: nat) {
    forall g: (nat, nat) | IsMatch(bs, key, g) && g.0 < level :: start <= g.1
  }

  lemma NotBeforeNext(bs: seq<seq<Pair>>, key: Key, level: int, start: nat)
    ensures NotBefore(bs, key, level, start) ==> NotBefore(bs, key, level - 1, start)
  {
  }

  lemma NotBeforeMatch(bs: seq<seq<Pair>>, key: Key, level: nat, i: nat)
    requires Ascending(bs, key) && IsMatch(bs, key, (level, i))
    ensures NotBefore(bs, key, level, i + 1)
  {
  }

  lemma {:induction false} FindsAll(bs: seq<seq<Pair>>, key: Key, level: int, start: nat, f: (nat, nat))
    requires level < |bs| && Ascending(bs, key) && NotBefore(bs, key, level, start)
    requires IsMatch(bs, key, f) && f.0 <= level && start <= f.1
    ensures f in Finds(bs, key, level, start)
    decreases level + 1, if level >= 0 then |bs[level]| - start else 0
  {
    hide Ascending, NotBefore, Finds;
    if level >= 0 {
      FindsNext(bs, key, level, start);
      NotBeforeNext(bs, key, level, start);
      var i := FirstMatch(bs[level], key, start);
      if i < |bs[level]| {
        var first: (nat, nat) := (level as nat, i);
        assert IsMatch(bs, key, first);
        NotBeforeMatch(bs, key, level, i);
        if f != first {
          FindsAll(bs, key, level, i + 1, f);
        }
      } else {
        FindsAll(bs, key, level - 1, start, f);
      }
    }
  }

  /** A search finds every match if and only if the slot numbers of the matches increase from each
      bucket to those above it, as the place to begin at is not reset between buckets. */
  lemma FindsEveryMatch(bs: seq<seq<Pair>>, key: Key)
    requires bs != []
    ensures (forall f | IsMatch(bs, key, f) :: f in Finds(bs, key, |bs| - 1, 0)) <==> Ascending(bs, key)
  {
    hide Finds, IsMatch, Ordered, Within;
    var r := Finds(bs, key, |bs| - 1, 0);
    FindsOrder(bs, key, |bs| - 1, 0);
    if Ascending(bs, key) {
      forall f: (nat, nat) | IsMatch(bs, key, f)
        ensures f in r
      {
        MatchInside(bs, key, f);
        AllNotBefore(bs, key);
        FindsAll(bs, key, |bs| - 1, 0, f);
      }
    } else {
      var f: (nat, nat), g: (nat, nat) :| IsMatch(bs, key, f) && IsMatch(bs, key, g) && f.0 > g.0 && !(f.1 < g.1);
      NotBoth(r, f, g);
    }
  }

  lemma AllNotBefore(bs: seq<seq<Pair>>, key: Key)
    ensures NotBefore(bs, key, |bs| - 1, 0)
  {
  }

  lemma MatchInside(bs: seq<seq<Pair>>, key: Key, f: (nat, nat))
    requires IsMatch(bs, key, f)
    ensures f.0 < |bs| && f.1 < |bs[f.0]|
  {
  }

  lemma NotBoth(r: seq<(nat, nat)>, f: (nat, nat), g: (nat, nat))
    requires Ordered(r) && f.0 > g.0 && f.1 >= g.1
    ensures !(f in r && g in r)
  {
  }

  /** As long as nothing has been found the search misses nothing. */
  lemma {:induction false} FindsNone(bs: seq<seq<Pair>>, key: Key, level: int, f: (nat, nat))
    requires level < |bs| && IsMatch(bs, key, f) && f.0 <= level
    ensures Finds(bs, key, level, 0) != []
    decreases level
  {
    if FirstMatch(bs[level], key, 0) >= |bs[level]| {
      FindsNone(bs, key, level - 1, f);
    }
  }

  // ----- Matching slots and insertions

  lemma {:induction false} ReachesUsed(nodes: seq<Node>, hash: Key, d: nat, e: nat)
    requires IsTree(nodes) && d <= e < NODE_DEPTH - 1 && !nodes[OnPath(hash, e)].Empty()
    ensures e <= Deepest(nodes, hash, d)
    decreases e - d
  {
    hide OnPath, Range, Depth, Fits, ChildrenAlike, Node.Empty;
    if d < e {
      UsedAbove(nodes, 0, hash, d + 1, e);
      ReachesUsed(nodes, hash, d + 1, e);
    }
  }

  /** Every pair that was inserted is in one of the buckets that are searched for its key. */
  lemma InsertionIsMatch(index: Index, i: nat) returns (f: (nat, nat))
    requires index.Valid() && i < |index.log.pairs|
    ensures var bs := index.Path(index.log.pairs[i].key);
      IsMatch(bs, index.log.pairs[i].key, f) && bs[f.0][f.1] == index.log.pairs[i]
    ensures index.log.slots[i] == Slot(OnPath(Hash(index.hashes, index.log.pairs[i].key), f.0), f.1)
  {
    hide OnPath, Range, Depth, Fits, ChildrenAlike, Node.Empty, Node.Contains, Deepest, Accounted, IsStore, Total,
         Bucket, Hash;
    assert InPlace(index.hashes, index.nodes, index.store, index.log, i);
    var slot := index.log.slots[i];
    var hash := Hash(index.hashes, index.log.pairs[i].key);
    OnlyOnPath(hash, slot.bucket);
    ReachesUsed(index.nodes, hash, 0, Depth(slot.bucket));
    f := (Depth(slot.bucket), slot.index);
  }

  /** And every matching pair was inserted. */
  lemma MatchIsInsertion(index: Index, key: Key, f: (nat, nat)) returns (i: nat)
    requires index.Valid() && IsMatch(index.Path(key), key, f)
    ensures i < |index.log.pairs| && index.log.pairs[i] == index.Path(key)[f.0][f.1]
    ensures index.log.slots[i] == Slot(OnPath(Hash(index.hashes, key), f.0), f.1)
  {
    hide OnPath, Range, Depth, Fits, ChildrenAlike, Node.Empty, Node.Contains, Deepest, IsStore, Total, Bucket, Hash;
    var b := OnPath(Hash(index.hashes, key), f.0);
    assert Accounted(index.store, index.log, b);
    FreeBelow(index.store, b);
    i := index.log.origins[b][f.1];
    assert InPlace(index.hashes, index.nodes, index.store, index.log, i);
  }

  ghost predicate Inserted(log: Log, key: Key, value: Key) {
    Pair(key, value) in log.pairs
  }

  /** The first value a search returns, if there is one, and every later one has been inserted under
      the key; there is a first one if and only if something has been inserted under the key. */
  lemma LookupFindsInserted(index: Index, key: Key)
    requires index.Valid()
    ensures index.Lookup(key) != [] <==> exists v :: Inserted(index.log, key, v)
    ensures forall v | v in index.Lookup(key) :: Inserted(index.log, key, v)
  {
    hide IsTree, Recorded, Index.Path;
    var bs := index.Path(key);
    var fs := Finds(bs, key, |bs| - 1, 0);
    var r := index.Lookup(key);
    forall k | 0 <= k < |r|
      ensures Inserted(index.log, key, r[k])
    {
      assert fs[k] in fs;
      var i := MatchIsInsertion(index, key, fs[k]);
      assert index.log.pairs[i] == Pair(key, r[k]);
    }
    if v :| Inserted(index.log, key, v) {
      var i :| 0 <= i < |index.log.pairs| && index.log.pairs[i] == Pair(key, v);
      var f := InsertionIsMatch(index, i);
      FindsNone(bs, key, |bs| - 1, f);
    }
    if r != [] {
      assert Inserted(index.log, key, r[0]);
    }
  }

  // ----- One key too often

  lemma RootIsTarget(nodes: seq<Node>, hash: Key)
    requires IsTree(nodes) && nodes[1].Empty()
    ensures Deepest(nodes, hash, 0) == 0 && OnPath(hash, 0) == 0 && nodes[2 * 0 + 1].Empty()
    ensures OnPath(hash, 1) < NODE_LIMIT && nodes[OnPath(hash, 1)].Empty()
  {
    hide Range, Depth, Fits, Node.Empty, Node.Contains;
    FirstAtRoot(hash);
    NextOnPath(hash, 0);
    AlikeEmpty(nodes, 0);
  }

  /** Fills the bucket of the root with pairs of one key. */
  method FillRoot(hashes: seq<Key>, key: Key, values: seq<Key>) returns (heap: Heap)
    requires |hashes| == KEY_MAX + 1 && |values| == BUCKET_SIZE
    ensures fresh(heap) && heap.Valid() && heap.hashes == hashes && heap.nodes[1].Empty()
    ensures heap.store.free[0] == BUCKET_SIZE && heap.Target(key) == 0
    ensures |heap.log.pairs| == BUCKET_SIZE && heap.log.pairs[0].key == key && heap.log.slots[0] == Slot(0, 0)
  {
    hide IsTree, InPlace, Accounted, OnPath, Range, Depth, Deepest, Hash, Split, Bucket, Node.Empty;
    heap := new Heap(hashes);
    RootIsTarget(heap.nodes, Hash(hashes, key));
    for i := 0 to BUCKET_SIZE
      invariant fresh(heap) && heap.Valid() && heap.hashes == hashes && |heap.nodes| == NODE_LIMIT
      invariant heap.nodes[1].Empty() && heap.Target(key) == 0
      invariant heap.store.free[0] == i == |heap.log.pairs| == |heap.log.slots|
      invariant i > 0 ==> heap.log.pairs[0].key == key && heap.log.slots[0] == Slot(0, 0)
    {
      InUse(heap.hashes, heap.nodes, heap.store, heap.log, 0);
      var r := heap.InsertItem(key, values[i]);
      RootIsTarget(heap.nodes, Hash(hashes, key));
    }
  }

  lemma InUse(hashes: seq<Key>, nodes: seq<Node>, st: Store, log: Log, b: nat)
    requires Recorded(hashes, nodes, st, log) && b < NODE_LIMIT
    ensures |log.origins[b]| == st.free[b]
  {
    assert Accounted(st, log, b);
  }

  /** For any hash function and key: when the key has been inserted once more than a bucket has room for,
      the last pair is the first one in the bucket below, and a search misses the first pair of all. */
  method OneKeyTooOften(hashes: seq<Key>, key: Key, values: seq<Key>) returns (heap: Heap)
    requires |hashes| == KEY_MAX + 1 && |values| == BUCKET_SIZE + 1
    ensures heap.Valid() && |heap.log.pairs| == BUCKET_SIZE + 1
    ensures var bs := SnapshotOf(heap).Path(key);
      && !Ascending(bs, key) && IsMatch(bs, key, (0, 0)) && (0, 0) !in Finds(bs, key, |bs| - 1, 0)
  {
    hide IsTree, InPlace, Accounted, OnPath, Range, Depth, Deepest, Split, Bucket, Node.Empty, Index.Path, Hash,
         Ascending, Finds;
    heap := FillRoot(hashes, key, values[..BUCKET_SIZE]);
    ghost var hash := Hash(hashes, key);
    RootIsTarget(heap.nodes, hash);
    RecordedStore(heap.hashes, heap.nodes, heap.store, heap.log, OnPath(hash, 1));
    InUse(heap.hashes, heap.nodes, heap.store, heap.log, OnPath(hash, 1));
    var r := heap.InsertItem(key, values[BUCKET_SIZE]);
    ghost var index := SnapshotOf(heap);
    var first := InsertionIsMatch(index, 0);
    var last := InsertionIsMatch(index, BUCKET_SIZE);
    SameDepth(hash, first.0, 0);
    SameDepth(hash, last.0, 1);
    NotAscending(index.Path(key), key);
    MissesFirst(index.Path(key), key, |index.Path(key)| - 1, (1, 0));
  }

  lemma SameDepth(hash: Key, d: nat, e: nat)
    requires d < NODE_DEPTH && e < NODE_DEPTH && OnPath(hash, d) == OnPath(hash, e)
    ensures d == e
  {
    assert Depth(OnPath(hash, d)) == d && Depth(OnPath(hash, e)) == e;
  }

  lemma NotAscending(bs: seq<seq<Pair>>, key: Key)
    requires IsMatch(bs, key, (0, 0)) && IsMatch(bs, key, (1, 0))
    ensures !Ascending(bs, key)
  {
    var f: (nat, nat), g: (nat, nat) := (1, 0), (0, 0);
    assert IsMatch(bs, key, f) && IsMatch(bs, key, g) && f.0 > g.0 && !(f.1 < g.1);
  }

  /** When anything is found below the root, the first slot of the root is not looked at. */
  lemma {:induction false} MissesFirst(bs: seq<seq<Pair>>, key: Key, level: nat, f: (nat, nat))
    requires level < |bs| && IsMatch(bs, key, f) && 1 <= f.0 <= level
    ensures (0, 0) !in Finds(bs, key, level, 0)
    decreases level
  {
    hide Finds, Ordered;
    FindsNext(bs, key, level, 0);
    var i := FirstMatch(bs[level], key, 0);
    if i < |bs[level]| {
      FindsOrder(bs, key, level, i + 1);
    } else {
      MissesFirst(bs, key, level - 1, f);
    }
  }

  ghost predicate UniqueKeys(pairs: seq<Pair>) {
    forall i, j | 0 <= i < j < |pairs| :: pairs[i].key != pairs[j].key
  }

  /** The values inserted under a key, in the order of their insertion. */
  function InsertedUnder(pairs: seq<Pair>, key: Key): seq<Key> {
    if pairs == [] then []
    else
      var p := pairs[|pairs| - 1];
      InsertedUnder(pairs[..|pairs| - 1], key) + (if p.key == key then [p.value] else [])
  }

  function InsertedBetween(pairs: seq<Pair>, low: int, high: int): seq<Key>
    decreases high - low
  {
    if low > high then [] else InsertedUnder(pairs, KeyOf(low)) + InsertedBetween(pairs, low + 1, high)
  }

  lemma {:induction false} UnderUniqueKey(pairs: seq<Pair>, key: Key)
    requires UniqueKeys(pairs)
    ensures (forall p | p in pairs :: p.key != key) ==> InsertedUnder(pairs, key) == []
    ensures forall p | p in pairs && p.key == key :: InsertedUnder(pairs, key) == [p.value]
  {
    if pairs != [] {
      var init := pairs[..|pairs| - 1];
      UnderUniqueKey(init, key);
      assert forall p | p in pairs :: p in init || p == pairs[|pairs| - 1];
      assert forall p | p in init :: p.key != pairs[|pairs| - 1].key;
    }
  }

  lemma OneMatch(index: Index, key: Key, f: (nat, nat), g: (nat, nat))
    requires index.Valid() && UniqueKeys(index.log.pairs)
    requires IsMatch(index.Path(key), key, f) && IsMatch(index.Path(key), key, g)
    ensures f == g
  {
    hide IsTree, Recorded, Index.Path;
    var i := MatchIsInsertion(index, key, f);
    var j := MatchIsInsertion(index, key, g);
    assert i == j;
  }

  /** With unique keys a search returns exactly what has been inserted under its key. */
  lemma UniqueKeyIsFound(index: Index, key: Key)
    requires index.Valid() && UniqueKeys(index.log.pairs)
    ensures index.Lookup(key) == InsertedUnder(index.log.pairs, key)
  {
    hide IsTree, Recorded, Index.Path, UniqueKeys;
    var bs := index.Path(key);
    var fs := Finds(bs, key, |bs| - 1, 0);
    FindsOrder(bs, key, |bs| - 1, 0);
    UnderUniqueKey(index.log.pairs, key);
    LookupFindsInserted(index, key);
    if |fs| > 0 {
      assert fs[0] in fs;
      var i := MatchIsInsertion(index, key, fs[0]);
      assert index.log.pairs[i] in index.log.pairs;
    } else {
      forall p | p in index.log.pairs
        ensures p.key != key
      {
        assert p.key == key ==> Inserted(index.log, key, p.value);
      }
    }
    if |fs| > 1 {
      assert fs[0] in fs && fs[1] in fs;
      OneMatch(index, key, fs[0], fs[1]);
    }
  }

  /** With unique keys a range query returns what has been inserted under its numbers, one after another. */
  lemma {:induction false} RangeIsFound(index: Index, low: int, high: int)
    requires index.Valid() && UniqueKeys(index.log.pairs)
    ensures index.LookupRange(low, high) == InsertedBetween(index.log.pairs, low, high)
    decreases high - low
  {
    if low <= high {
      UniqueKeyIsFound(index, KeyOf(low));
      RangeIsFound(index, low + 1, high);
    }
  }

  /** The pairs that have been inserted with keys from `low` on up to `high`, in the order of their keys. */
  ghost predicate Between(pairs: seq<Pair>, low: int, high: int, between: seq<Pair>) {
    && (forall p :: p in between <==> p in pairs && low <= p.key <= high)
    && (forall i, j | 0 <= i < j < |between| :: between[i].key < between[j].key)
  }

  /** The pairs have these values, one after another. */
  ghost predicate HaveValues(between: seq<Pair>, values: seq<Key>) {
    |values| == |between| && forall i | 0 <= i < |between| :: values[i] == between[i].value
  }

  lemma {:induction false} PairsBetween(pairs: seq<Pair>, low: int, high: int) returns (between: seq<Pair>)
    requires UniqueKeys(pairs) && 0 <= low && high <= KEY_MAX
    ensures Between(pairs, low, high, between) && HaveValues(between, InsertedBetween(pairs, low, high))
    decreases high - low
  {
    hide Between, HaveValues, UniqueKeys, InsertedUnder;
    if low > high {
      between := [];
      NoneBetween(pairs, low, high);
    } else {
      var rest := PairsBetween(pairs, low + 1, high);
      UnderUniqueKey(pairs, low);
      if p :| p in pairs && p.key == low {
        between := [p] + rest;
        OneBefore(pairs, low, high, p, rest, InsertedBetween(pairs, low + 1, high));
      } else {
        between := rest;
        NoneBefore(pairs, low, high, rest, InsertedBetween(pairs, low + 1, high));
      }
    }
  }

  lemma NoneBetween(pairs: seq<Pair>, low: int, high: int)
    requires low > high
    ensures Between(pairs, low, high, []) && HaveValues([], [])
  {
  }

  lemma NoneBefore(pairs: seq<Pair>, low: int, high: int, rest: seq<Pair>, values: seq<Key>)
    requires low <= high && Between(pairs, low + 1, high, rest) && HaveValues(rest, values)
    requires forall p | p in pairs :: p.key != low
    ensures Between(pairs, low, high, rest) && HaveValues(rest, [] + values)
  {
    assert [] + values == values;
  }

  lemma OneBefore(pairs: seq<Pair>, low: int, high: int, p: Pair, rest: seq<Pair>, values: seq<Key>)
    requires low <= high && Between(pairs, low + 1, high, rest) && HaveValues(rest, values)
    requires UniqueKeys(pairs) && p in pairs && p.key == low
    ensures Between(pairs, low, high, [p] + rest) && HaveValues([p] + rest, [p.value] + values)
  {
    forall i | 0 <= i < |rest|
      ensures low < rest[i].key
    {
      assert rest[i] in rest;
    }
    OnlyPair(pairs, p);
  }

  lemma OnlyPair(pairs: seq<Pair>, p: Pair)
    requires UniqueKeys(pairs) && p in pairs
    ensures forall q | q in pairs && q.key == p.key :: q == p
  {
  }

  /** A range query of an index with unique keys: its values are those of the inserted pairs with a key in
      the range, each once, in the ascending order of the keys. */
  lemma RangeHolds(index: Index, low: int, high: int) returns (between: seq<Pair>)
    requires index.Valid() && UniqueKeys(index.log.pairs) && 0 <= low <= high <= KEY_MAX
    ensures forall p :: p in between <==> p in index.log.pairs && low <= p.key <= high
    ensures forall i, j | 0 <= i < j < |between| :: between[i].key < between[j].key
    ensures |index.LookupRange(low, high)| == |between|
    ensures forall i | 0 <= i < |between| :: index.LookupRange(low, high)[i] == between[i].value
    ensures forall v :: v in index.LookupRange(low, high)
              <==> exists p :: p in index.log.pairs && low <= p.key <= high && p.value == v
  {
    hide IsTree, Recorded, Index.LookupRange, UniqueKeys;
    RangeIsFound(index, low, high);
    between := PairsBetween(index.log.pairs, low, high);
    var r := index.LookupRange(low, high);
    forall v
      ensures v in r <==> exists p :: p in index.log.pairs && low <= p.key <= high && p.value == v
    {
      if v in r {
        var i :| 0 <= i < |r| && r[i] == v;
        assert between[i] in between;
      }
      if p :| p in index.log.pairs && low <= p.key <= high && p.value == v {
        assert p in between;
        var i :| 0 <= i < |between| && between[i] == p;
        assert r[i] == v;
      }
    }
  }

  /** Takes all values of a range from a new iterator. */
  method ValuesOfRange(heap: Heap, cache: Cache, low: int, high: int) returns (values: seq<int>, ghost between: seq<Pair>)
    requires heap.Valid() && Coherent(heap.store, cache.id, cache.bucket) && 0 <= low <= high <= KEY_MAX
    modifies cache, heap`store
    ensures heap.Valid() && heap.store == old(heap.store)
    ensures values == SnapshotOf(heap).LookupRange(low, high)
    ensures UniqueKeys(heap.log.pairs) ==>
      && (forall p :: p in between <==> p in heap.log.pairs && low <= p.key <= high)
      && (forall i, j | 0 <= i < j < |between| :: between[i].key < between[j].key)
      && |values| == |between| && forall i | 0 <= i < |between| :: values[i] == between[i].value
  {
    hide IsTree, Recorded, IsStore, Index.LookupRange, Index.Search, Index.Path, UniqueKeys, Coherent, Hash, OnPath;
    var it := new Iterator(heap, cache, low, high);
    ghost var all := it.Pending();
    values := [];
    while true
      invariant it.Valid() && it.heap == heap && it.cache == cache && heap.store == old(heap.store)
      invariant values + it.Pending() == all
      decreases |it.Pending()|
    {
      ghost var before := it.Pending();
      var r := it.GetNext();
      if r < 0 {
        break;
      }
      assert before == [before[0]] + before[1..];
      values := values + [r];
    }
    between := [];
    if UniqueKeys(heap.log.pairs) {
      between := RangeHolds(SnapshotOf(heap), low, high);
    }
  }
}
