/** The node file of the max-heap index: a binary tree of hash ranges in which a node is split
    into its two halves, and in which the bucket for a hash is found by walking down. */
module HeapTree {

  import opened Arithmetic

  const NODE_LIMIT := 511
  const NODE_DEPTH := 9
  const KEY_MIN: Key := 0
  const KEY_MAX: Key := 65535

  type Key = k: int | 0 <= k < 0x1_0000

  /** A range of hash values; a node with both bounds zero is an unused one. */
  datatype Node = Node(min: Key, max: Key) {
    predicate Empty() { min == 0 && max == 0 }

    predicate Contains(hash: Key) { min <= hash <= max }

    predicate Encloses(low: Key, high: Key) { min <= low && high <= max }

    function Mean(): Key
      requires min <= max
    {
      min + (max - min) / 2
    }

    function Lower(): Node
      requires min <= max
    {
      Node(min, Mean())
    }

    /** A single value, which no node of the tree comes down to, is not split. */
    function Upper(): Node
      requires min <= max
    {
      if min < max then Node(Mean() + 1, max) else this
    }
  }

  // ----- The shape of the tree

  function Parent(i: nat): nat
    requires i > 0
  {
    (i - 1) / 2
  }

  function Depth(i: nat): nat { if i == 0 then 0 else Depth(Parent(i)) + 1 }

  /** The range a node at position `i` has when it is in use. */
  function Range(i: nat): (r: Node)
    requires i < NODE_LIMIT
    ensures r.min <= r.max
  {
    if i == 0 then Node(KEY_MIN, KEY_MAX)
    else
      if i % 2 == 1 then Range(Parent(i)).Lower() else Range(Parent(i)).Upper()
  }

  /** The nodes of depth `d` are those in one interval of positions. */
  lemma {:induction false} Levels(i: nat, d: nat)
    ensures Depth(i) == d <==> Pow2(d) - 1 <= i < Pow2(d + 1) - 1
    decreases i
  {
    if i == 0 {
      if d > 0 {
        assert Pow2(d) == 2 * Pow2(d - 1);
      }
    } else if d == 0 {
    } else {
      Levels(Parent(i), d - 1);
    }
  }

  lemma DepthBelowLimit(i: nat)
    requires i < NODE_LIMIT
    ensures Depth(i) < NODE_DEPTH
    ensures 2 * i + 1 < NODE_LIMIT <==> Depth(i) < NODE_DEPTH - 1
  {
    forall d | 0 <= d < NODE_DEPTH
      ensures Depth(i) == d <==> Pow2(d) - 1 <= i < Pow2(d + 1) - 1
    {
      Levels(i, d);
    }
    PowersUpTo9();
  }

  lemma PowersUpTo9()
    ensures Pow2(0) == 1 && Pow2(1) == 2 && Pow2(2) == 4 && Pow2(3) == 8 && Pow2(4) == 16
    ensures Pow2(5) == 32 && Pow2(6) == 64 && Pow2(7) == 128 && Pow2(8) == 256 && Pow2(9) == 512
  {
    assert Pow2(3) == 8;
    assert Pow2(6) == 64;
  }

  /** A node at depth `d` holds `2^(16 - d)` hash values, so none looks like an unused one. */
  lemma {:induction false} Width(i: nat)
    requires i < NODE_LIMIT
    ensures Depth(i) < NODE_DEPTH
    ensures Range(i).max - Range(i).min + 1 == Pow2(16 - Depth(i)) && !Range(i).Empty()
    decreases i
  {
    DepthBelowLimit(i);
    if i == 0 {
      assert Pow2(16) == 65536 by {
        PowersUpTo9();
        assert Pow2(12) == 8 * Pow2(9);
        assert Pow2(15) == 8 * Pow2(12);
      }
    } else {
      Width(Parent(i));
      assert Pow2(16 - Depth(Parent(i))) == 2 * Pow2(16 - Depth(i));
      PowersUpTo9();
      PowGrows(16 - Depth(i));
    }
  }

  /** The children of a node are the two halves of its range. */
  lemma Halves(b: nat, hash: Key)
    requires 2 * b + 2 < NODE_LIMIT
    ensures Range(2 * b + 1) == Node(Range(b).min, Range(b).Mean())
    ensures Range(b).Mean() + 1 <= Range(b).max && Range(2 * b + 2) == Node(Range(b).Mean() + 1, Range(b).max)
    ensures Range(b).Contains(hash) <==> Range(2 * b + 1).Contains(hash) || Range(2 * b + 2).Contains(hash)
    ensures !(Range(2 * b + 1).Contains(hash) && Range(2 * b + 2).Contains(hash))
  {
    assert Parent(2 * b + 1) == b && Parent(2 * b + 2) == b;
    Width(b);
    PowGrows(16 - Depth(b));
  }

  lemma ChildDepth(i: nat)
    requires i > 0
    ensures Depth(i) == Depth(Parent(i)) + 1 && (i == 2 * Parent(i) + 1 || i == 2 * Parent(i) + 2)
  {
  }

  lemma ChildrenOf(b: nat)
    ensures Parent(2 * b + 1) == b && Parent(2 * b + 2) == b
    ensures Depth(2 * b + 1) == Depth(b) + 1 && Depth(2 * b + 2) == Depth(b) + 1
  {
    ChildDepth(2 * b + 1);
    ChildDepth(2 * b + 2);
  }

  // ----- The nodes for one hash

  /** The child of a node whose range has the hash. */
  function Child(b: nat, hash: Key): nat
    requires 2 * b + 2 < NODE_LIMIT
  {
    if Range(2 * b + 1).Contains(hash) then 2 * b + 1 else 2 * b + 2
  }

  lemma ChildContains(b: nat, d: nat, hash: Key)
    requires b < NODE_LIMIT && Depth(b) == d < NODE_DEPTH - 1 && Range(b).Contains(hash)
    ensures 2 * b + 2 < NODE_LIMIT
    ensures var c := Child(b, hash); c < NODE_LIMIT && Depth(c) == d + 1 && Range(c).Contains(hash)
  {
    hide Range, Depth, Pow2, Parent, Node.Contains;
    DepthBelowLimit(b);
    Halves(b, hash);
    ChildrenOf(b);
  }

  /** The node at depth `d` whose range has the hash. */
  function OnPath(hash: Key, d: nat): (i: nat)
    requires d < NODE_DEPTH
    ensures Depth(i) == d && i < NODE_LIMIT && Range(i).Contains(hash)
  {
    if d == 0 then 0 else
      var p := OnPath(hash, d - 1);
      ChildContains(p, d - 1, hash);
      Child(p, hash)
  }

  lemma Root(hash: Key)
    ensures Depth(0) == 0 && Range(0).Contains(hash) && OnPath(hash, 0) == 0
  {
  }

  lemma NextOnPath(hash: Key, d: nat)
    requires d + 1 < NODE_DEPTH
    ensures 2 * OnPath(hash, d) + 2 < NODE_LIMIT && OnPath(hash, d + 1) == Child(OnPath(hash, d), hash)
  {
    ChildContains(OnPath(hash, d), d, hash);
  }

  /** There is only one at each depth. */
  lemma {:induction false} OnlyOnPath(hash: Key, i: nat)
    requires i < NODE_LIMIT
    ensures Depth(i) < NODE_DEPTH
    ensures Range(i).Contains(hash) <==> i == OnPath(hash, Depth(i))
    decreases i
  {
    hide Range, OnPath, Depth, Parent, Node.Contains, Pow2;
    DepthBelowLimit(i);
    if i == 0 {
      Root(hash);
    } else {
      ChildDepth(i);
      var p := Parent(i);
      OnlyOnPath(hash, p);
      NextOnPath(hash, Depth(p));
      Halves(p, hash);
    }
  }

  // ----- The invariant of the node file

  /** Used nodes have the ranges of their positions; the root is used, a used node has a used
      parent, and both or none of a node's children are used. */
  ghost predicate IsTree(nodes: seq<Node>) {
    && |nodes| == NODE_LIMIT && !nodes[0].Empty()
    && (forall i | 0 <= i < NODE_LIMIT :: Fits(nodes, i))
    && (forall b | 0 <= b < 255 :: ChildrenAlike(nodes, b))
  }

  /** The same while node `b` is being split. */
  ghost predicate IsTreeBut(nodes: seq<Node>, b: nat) {
    && |nodes| == NODE_LIMIT && !nodes[0].Empty()
    && (forall i | 0 <= i < NODE_LIMIT :: Fits(nodes, i))
    && (forall a | 0 <= a < 255 && a != b :: ChildrenAlike(nodes, a))
  }

  ghost predicate Fits(nodes: seq<Node>, i: nat)
    requires |nodes| == NODE_LIMIT && i < NODE_LIMIT
  {
    nodes[i].Empty() || (nodes[i] == Range(i) && (i > 0 ==> !nodes[Parent(i)].Empty()))
  }

  ghost predicate ChildrenAlike(nodes: seq<Node>, b: nat)
    requires |nodes| == NODE_LIMIT && 2 * b + 2 < NODE_LIMIT
  {
    nodes[2 * b + 1].Empty() == nodes[2 * b + 2].Empty()
  }

  /** The node file in which node `b` has been split. */
  function Split(nodes: seq<Node>, b: nat): seq<Node>
    requires |nodes| == NODE_LIMIT && 2 * b + 2 < NODE_LIMIT
  {
    nodes[2 * b + 1 := Range(2 * b + 1)][2 * b + 2 := Range(2 * b + 2)]
  }

  lemma SplitAt(nodes: seq<Node>, b: nat, i: nat)
    requires |nodes| == NODE_LIMIT && 2 * b + 2 < NODE_LIMIT && i < NODE_LIMIT
    ensures |Split(nodes, b)| == NODE_LIMIT
    ensures Split(nodes, b)[i] == if i == 2 * b + 1 || i == 2 * b + 2 then Range(i) else nodes[i]
  {
    hide Range;
  }

  lemma FitsAfterSplit(nodes: seq<Node>, b: nat, i: nat)
    requires |nodes| == NODE_LIMIT && 2 * b + 2 < NODE_LIMIT && !nodes[b].Empty() && i < NODE_LIMIT
    requires Fits(nodes, i)
    ensures Fits(Split(nodes, b), i)
  {
    SplitAt(nodes, b, i);
    if i > 0 {
      SplitAt(nodes, b, Parent(i));
      Width(Parent(i));
      ChildDepth(i);
      assert i == 2 * b + 1 || i == 2 * b + 2 ==> Parent(i) == b;
    }
    hide Split, Range, Depth, Parent, Pow2;
  }

  lemma AlikeAfterSplit(nodes: seq<Node>, b: nat, a: nat)
    requires |nodes| == NODE_LIMIT && 2 * b + 2 < NODE_LIMIT && 2 * a + 2 < NODE_LIMIT && ChildrenAlike(nodes, a)
    ensures ChildrenAlike(Split(nodes, b), a)
  {
    hide Split, Range, Depth, Pow2;
    SplitAt(nodes, b, 2 * a + 1);
    SplitAt(nodes, b, 2 * a + 2);
    Width(2 * a + 1);
    Width(2 * a + 2);
  }

  lemma SplitKeepsTree(nodes: seq<Node>, b: nat)
    requires IsTree(nodes) && 2 * b + 2 < NODE_LIMIT && !nodes[b].Empty()
    ensures IsTree(Split(nodes, b))
  {
    SplitAt(nodes, b, 0);
    hide Split, Range, Parent, Depth, Fits, ChildrenAlike;
    forall i | 0 <= i < NODE_LIMIT
      ensures Fits(Split(nodes, b), i)
    {
      FitsAfterSplit(nodes, b, i);
    }
    forall a | 0 <= a < 255
      ensures ChildrenAlike(Split(nodes, b), a)
    {
      AlikeAfterSplit(nodes, b, a);
    }
  }

  // ----- Walks

  /** Where a search for the node at depth `d` begins. */
  ghost function First(hash: Key, d: nat): (f: nat)
    requires d < NODE_DEPTH
    ensures f <= OnPath(hash, d) <= f + 1
  {
    if d == 0 then 0 else
      NextOnPath(hash, d - 1);
      2 * OnPath(hash, d - 1) + 1
  }

  lemma FirstAtRoot(hash: Key)
    ensures First(hash, 0) == 0 == OnPath(hash, 0)
  {
  }

  lemma FirstBelow(hash: Key, d: nat)
    requires d < NODE_DEPTH - 1
    ensures First(hash, d + 1) == 2 * OnPath(hash, d) + 1 < NODE_LIMIT
  {
    NextOnPath(hash, d);
  }

  lemma PathParent(hash: Key, d: nat)
    requires 0 < d < NODE_DEPTH
    ensures OnPath(hash, d) > 0 && Parent(OnPath(hash, d)) == OnPath(hash, d - 1)
  {
    hide OnPath, Range;
    NextOnPath(hash, d - 1);
    ChildrenOf(OnPath(hash, d - 1));
  }

  /** What is found at the first of the two nodes in which a hash can be at depth `d`. */
  lemma FirstOrNext(nodes: seq<Node>, b: nat, hash: Key, d: nat)
    requires IsTreeBut(nodes, b) && b < 255 && d < NODE_DEPTH
    requires d > 0 ==> OnPath(hash, d - 1) != b || !nodes[2 * b + 1].Empty()
    ensures var f, p := First(hash, d), OnPath(hash, d);
      && (nodes[f].Empty() ==> nodes[p].Empty())
      && (!nodes[f].Empty() ==> (nodes[f].Contains(hash) <==> f == p))
      && (!nodes[p].Empty() ==> nodes[p].Contains(hash))
  {
    hide OnPath, Range, Depth, Parent, Pow2, ChildrenAlike, Node.Contains, Node.Empty, Fits;
    var f, p := First(hash, d), OnPath(hash, d);
    FitsRange(nodes, f);
    FitsRange(nodes, p);
    if d == 0 {
      Root(hash);
    } else {
      var a := OnPath(hash, d - 1);
      NextOnPath(hash, d - 1);
      Halves(a, hash);
      if a != b && nodes[f].Empty() {
        AlikeEmpty(nodes, a);
      }
    }
  }

  lemma FitsRange(nodes: seq<Node>, i: nat)
    requires |nodes| == NODE_LIMIT && i < NODE_LIMIT && Fits(nodes, i)
    ensures nodes[i].Empty() || nodes[i] == Range(i)
    ensures !nodes[i].Empty() && i > 0 ==> !nodes[Parent(i)].Empty()
  {
  }

  lemma AlikeEmpty(nodes: seq<Node>, a: nat)
    requires |nodes| == NODE_LIMIT && a < 255 && ChildrenAlike(nodes, a)
    ensures nodes[2 * a + 1].Empty() == nodes[2 * a + 2].Empty()
  {
  }

  lemma {:induction false} UsedAbove(nodes: seq<Node>, b: nat, hash: Key, d: nat, e: nat)
    requires IsTreeBut(nodes, b) && d <= e < NODE_DEPTH && !nodes[OnPath(hash, e)].Empty()
    ensures !nodes[OnPath(hash, d)].Empty()
    decreases e
  {
    hide OnPath, Range, Depth, Parent, Pow2, ChildrenAlike, Node.Contains, Node.Empty, Fits;
    if d < e {
      FitsRange(nodes, OnPath(hash, e));
      PathParent(hash, e);
      UsedAbove(nodes, b, hash, d, e - 1);
    }
  }

  /** The ranges on the way down to a node enclose its range. */
  lemma {:induction false} EnclosedAbove(t: nat, d: nat)
    requires t < NODE_LIMIT && d <= Depth(t)
    ensures Depth(t) < NODE_DEPTH && OnPath(Range(t).min, Depth(t)) == t
    ensures Range(OnPath(Range(t).min, d)).Encloses(Range(t).min, Range(t).max)
    decreases Depth(t) - d
  {
    hide OnPath, Range, Depth, Parent, Pow2;
    OnlyOnPath(Range(t).min, t);
    if d < Depth(t) {
      EnclosedAbove(t, d + 1);
      NextOnPath(Range(t).min, d);
      Halves(OnPath(Range(t).min, d), Range(t).min);
    }
  }

  /** Position `i` is one at which the walk to the unused child `t` of `b` can be at depth `d`. */
  ghost predicate Walking(nodes: seq<Node>, b: nat, t: nat, d: nat, i: nat) {
    && IsTreeBut(nodes, b) && 2 * b + 2 < NODE_LIMIT && !nodes[b].Empty()
    && (t == 2 * b + 1 || (t == 2 * b + 2 && !nodes[2 * b + 1].Empty()))
    && d <= Depth(t) < NODE_DEPTH
    && (i == First(Range(t).min, d) || (i == OnPath(Range(t).min, d) && i > 0 && !nodes[i - 1].Empty()))
  }

  lemma WalkStarts(nodes: seq<Node>, b: nat, t: nat)
    requires IsTreeBut(nodes, b) && 2 * b + 2 < NODE_LIMIT && !nodes[b].Empty()
    requires t == 2 * b + 1 || (t == 2 * b + 2 && !nodes[2 * b + 1].Empty())
    ensures Walking(nodes, b, t, 0, 0)
  {
    hide IsTreeBut, OnPath, Range, Parent, Pow2, Depth;
    DepthBelowLimit(t);
  }

  /** The walk ends at the unused child, or passes on to the right sibling or to the left child. */
  lemma WalkStep(nodes: seq<Node>, b: nat, t: nat, d: nat, i: nat)
    requires Walking(nodes, b, t, d, i)
    ensures i < NODE_LIMIT && (nodes[i].Empty() ==> i == t)
    ensures !nodes[i].Empty() && nodes[i].Encloses(Range(t).min, Range(t).max) ==>
      if d < Depth(t) then Walking(nodes, b, t, d + 1, 2 * i + 1) && 2 * i + 1 < NODE_LIMIT else i == t
    ensures !nodes[i].Empty() && !nodes[i].Encloses(Range(t).min, Range(t).max) ==>
      Walking(nodes, b, t, d, i + 1) && i + 1 < NODE_LIMIT
  {
    hide IsTreeBut, OnPath, Range, Depth, Parent, Pow2, First, Node.Empty;
    var h := Range(t).min;
    var f, p := First(h, d), OnPath(h, d);
    ChildrenOf(b);
    EnclosedAbove(t, d);
    EnclosedAbove(t, Depth(b));
    PathParent(h, Depth(t));
    UsedOnWalk(nodes, b, t, d);
    FitsBut(nodes, b, f);
    FitsBut(nodes, b, p);
    if d < Depth(t) {
      FirstBelow(h, d);
    }
  }

  lemma FitsBut(nodes: seq<Node>, b: nat, i: nat)
    requires IsTreeBut(nodes, b) && i < NODE_LIMIT
    ensures nodes[i].Empty() || nodes[i] == Range(i)
  {
    assert Fits(nodes, i);
  }

  lemma UsedOnWalk(nodes: seq<Node>, b: nat, t: nat, d: nat)
    requires t < NODE_LIMIT && d < NODE_DEPTH && Walking(nodes, b, t, d, First(Range(t).min, d))
    ensures var f, p := First(Range(t).min, d), OnPath(Range(t).min, d);
      && (d < Depth(t) ==> !nodes[p].Empty())
      && (nodes[f].Empty() ==> nodes[p].Empty() && (d == Depth(t) ==> f == t))
      && (!nodes[f].Empty() ==> (nodes[f].Contains(Range(t).min) <==> f == p))
  {
    hide Fits, ChildrenAlike, OnPath, Range, Depth, Parent, Pow2, First, Node.Empty, Node.Contains;
    var h := Range(t).min;
    ChildrenOf(b);
    EnclosedAbove(t, d);
    PathParent(h, Depth(t));
    if d < Depth(t) {
      UsedAbove(nodes, b, h, d, Depth(b));
      FirstOrNext(nodes, b, h, d);
    } else {
      FirstBelow(h, Depth(b));
      if !nodes[2 * b + 1].Empty() {
        FirstOrNext(nodes, b, h, d);
      }
    }
  }

  /** The depth of the last node in use on the way down from depth `d`; nodes of the last level are
      not gone to. */
  ghost function Deepest(nodes: seq<Node>, hash: Key, d: nat): (r: nat)
    requires |nodes| == NODE_LIMIT && d < NODE_DEPTH - 1
    ensures d <= r < NODE_DEPTH - 1
    decreases NODE_DEPTH - d
  {
    if d + 1 < NODE_DEPTH - 1 && !nodes[OnPath(hash, d + 1)].Empty() then Deepest(nodes, hash, d + 1) else d
  }
}
