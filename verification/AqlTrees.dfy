/** Which compiled expressions and comparisons are encodings of trees, and of which. */
module AqlTrees {
  import opened Bytes
  import opened LvmCode
  import opened AqlSyntax

  // ----- Trees of expressions with one operator on each level

  /** At most one operator on each nesting level. */
  predicate Single(e: Infix)
    decreases e
  {
    SingleArg(e.first) && (e.tail.Stop? || (e.tail.rest.Stop? && SingleArg(e.tail.arg)))
  }

  predicate SingleArg(a: Arg)
    decreases a
  {
    a.Plain? || Single(a.inner)
  }

  function InfixTree(tab: Table, e: Infix): Node
    requires Single(e)
    decreases e
  {
    match e.tail
    case Stop => ArgTree(tab, e.first)
    case More(op, arg, _) => Arith(OpCode(op), ArgTree(tab, e.first), ArgTree(tab, arg))
  }

  function ArgTree(tab: Table, a: Arg): Node
    requires SingleArg(a)
    decreases a
  {
    match a case Plain(atom) => Leaf(AtomOperand(tab, atom)) case Group(e) => InfixTree(tab, e)
  }

  lemma {:induction false} SingleEncodes(tab: Table, e: Infix)
    requires Single(e)
    ensures EmitInfix(tab, e) == EncNode(InfixTree(tab, e)) && WfNode(InfixTree(tab, e))
    decreases e
  {
    ArgEncodes(tab, e.first);
    if e.tail.More? {
      ArgEncodes(tab, e.tail.arg);
      assert EmitTail(tab, Stop) == [];
    }
  }

  lemma {:induction false} ArgEncodes(tab: Table, a: Arg)
    requires SingleArg(a)
    ensures EmitArg(tab, a) == EncNode(ArgTree(tab, a)) && WfNode(ArgTree(tab, a))
    decreases a
  {
    if a.Group? {
      SingleEncodes(tab, a.inner);
    }
  }

  // ----- Which code is the encoding of a tree

  /** Emitted code and a tree behind it are two trees; the code of a tail and a tree behind it are one. */
  lemma {:induction false} InfixThen(tab: Table, e: Infix, m: Node) returns (p: Node, q: Node)
    requires WfNode(m)
    ensures WfNode(p) && WfNode(q) && EmitInfix(tab, e) + EncNode(m) == EncNode(p) + EncNode(q)
    decreases e
  {
    match e.tail {
      case Stop =>
        p, q := ArgThen(tab, e.first, m);
      case More(op, arg, rest) =>
        var t := TailThen(tab, rest, m);
        var u, v := ArgThen(tab, arg, t);
        var l, r := ArgThen(tab, e.first, u);
        p, q := Arith(OpCode(op), l, r), v;
        FivePieces(EncOp(LVM_ARITH_OP, OpCode(op)), EmitArg(tab, e.first), EmitArg(tab, arg), EmitTail(tab, rest),
                   EncNode(m), EncNode(u), EncNode(v), EncNode(l), EncNode(r));
    }
  }

  lemma {:induction false} ArgThen(tab: Table, a: Arg, m: Node) returns (p: Node, q: Node)
    requires WfNode(m)
    ensures WfNode(p) && WfNode(q) && EmitArg(tab, a) + EncNode(m) == EncNode(p) + EncNode(q)
    decreases a
  {
    match a {
      case Plain(atom) =>
        p, q := Leaf(AtomOperand(tab, atom)), m;
      case Group(e) =>
        p, q := InfixThen(tab, e, m);
    }
  }

  lemma {:induction false} TailThen(tab: Table, t: Tail, m: Node) returns (n: Node)
    requires WfNode(m)
    ensures WfNode(n) && EmitTail(tab, t) + EncNode(m) == EncNode(n)
    decreases t
  {
    n := m;
    if t.More? {
      var r := TailThen(tab, t.rest, m);
      var u, v := ArgThen(tab, t.arg, r);
      n := Arith(OpCode(t.op), u, v);
      var h, a := EncOp(LVM_ARITH_OP, OpCode(t.op)), EmitArg(tab, t.arg);
      TwoPieces(h, a, EmitTail(tab, t.rest), EncNode(m), EncNode(u), EncNode(v));
    }
  }

  lemma TwoPieces(h: seq<byte>, a: seq<byte>, t: seq<byte>, m: seq<byte>, u: seq<byte>, v: seq<byte>)
    requires a + (t + m) == u + v
    ensures h + a + t + m == h + u + v
  {
    assert h + a + t + m == h + (a + (t + m));
    assert h + (u + v) == h + u + v;
  }

  lemma FivePieces(h: seq<byte>, a: seq<byte>, b: seq<byte>, t: seq<byte>, m: seq<byte>, u: seq<byte>, v: seq<byte>,
                   l: seq<byte>, r: seq<byte>)
    requires b + (t + m) == u + v && a + u == l + r
    ensures h + a + b + t + m == h + l + r + v
  {
    assert h + a + b + t + m == h + a + (b + (t + m));
    assert h + a + (u + v) == h + (a + u) + v;
    assert h + (l + r) + v == h + l + r + v;
  }

  lemma Pieces(h: seq<byte>, a: seq<byte>, b: seq<byte>, t: seq<byte>, u: seq<byte>, v: seq<byte>, n: seq<byte>)
    requires b + t == u + v && a + u == n
    ensures h + a + b + t == h + n + v
  {
    assert h + a + b + t == h + a + (b + t);
    assert h + a + (u + v) == h + (a + u) + v;
  }

  /** The last operand of the expression, and the last of that one, stand behind at most one operator. */
  predicate TreeLike(e: Infix)
    decreases e
  {
    if e.tail.Stop? then TreeLikeArg(e.first) else e.tail.rest.Stop? && TreeLikeArg(e.tail.arg)
  }

  predicate TreeLikeArg(a: Arg)
    decreases a
  {
    a.Plain? || TreeLike(a.inner)
  }

  /** The code of every expression begins with the encoding of a tree; it is one if and only if the
      expression is tree-like. */
  lemma {:induction false} BeginsWithATree(tab: Table, e: Infix) returns (n: Node, left: seq<byte>)
    ensures WfNode(n) && EmitInfix(tab, e) == EncNode(n) + left && (left == [] <==> TreeLike(e))
    decreases e
  {
    match e.tail {
      case Stop =>
        n, left := ArgBeginsWithATree(tab, e.first);
      case More(op, arg, rest) =>
        var u, more := ArgBeginsWithATree(tab, arg);
        var p, q := ArgThen(tab, e.first, u);
        n, left := Arith(OpCode(op), p, q), more + EmitTail(tab, rest);
        var h, a, b := EncOp(LVM_ARITH_OP, OpCode(op)), EmitArg(tab, e.first), EmitArg(tab, arg);
        assert b + EmitTail(tab, rest) == EncNode(u) + left;
        Pieces(h, a, b, EmitTail(tab, rest), EncNode(u), left, EncNode(p) + EncNode(q));
        assert h + (EncNode(p) + EncNode(q)) == h + EncNode(p) + EncNode(q);
    }
  }

  lemma {:induction false} ArgBeginsWithATree(tab: Table, a: Arg) returns (n: Node, left: seq<byte>)
    ensures WfNode(n) && EmitArg(tab, a) == EncNode(n) + left && (left == [] <==> TreeLikeArg(a))
    decreases a
  {
    match a {
      case Plain(atom) =>
        n, left := Leaf(AtomOperand(tab, atom)), [];
      case Group(e) =>
        n, left := BeginsWithATree(tab, e);
    }
  }

  /** The emitted code is the encoding of a tree, any tree, if and only if the expression is tree-like. */
  lemma EncodesATree(tab: Table, e: Infix)
    ensures (exists n | WfNode(n) :: EncNode(n) == EmitInfix(tab, e)) <==> TreeLike(e)
  {
    var m, left := BeginsWithATree(tab, e);
    if TreeLike(e) {
      assert EncNode(m) + left == EncNode(m);
    }
    forall n | WfNode(n) && EncNode(n) == EmitInfix(tab, e)
      ensures TreeLike(e)
    {
      assert EncNode(n) + [] == EncNode(n);
      PrefixFree(m, n, left, []);
    }
  }

  /** No first operand is in parentheses. */
  predicate PlainFirst(e: Infix)
    decreases e
  {
    e.first.Plain? && PlainTail(e.tail)
  }

  predicate PlainTail(t: Tail)
    decreases t
  {
    t.Stop? || ((t.arg.Plain? || PlainFirst(t.arg.inner)) && PlainTail(t.rest))
  }

  /** Without parentheses before an expression, being tree-like is having one operator on each level. */
  lemma {:induction false} TreeLikeIsSingle(e: Infix)
    requires PlainFirst(e)
    ensures TreeLike(e) <==> Single(e)
    decreases e
  {
    if e.tail.More? && e.tail.arg.Group? {
      TreeLikeIsSingle(e.tail.arg.inner);
    }
  }

  // ----- Which code is the encoding of a reading

  /** A reading of an expression: a tree of its operands and operators that keeps to its parentheses.
      On a level with two operators, any tree that is as long will do. */
  ghost predicate Reads(tab: Table, e: Infix, n: Node)
    decreases e
  {
    && WfNode(n) && |EncNode(n)| == |EmitInfix(tab, e)|
    && match e.tail
       case Stop => ArgReads(tab, e.first, n)
       case More(op, arg, rest) =>
         rest.Stop? ==>
           n.Arith? && n.op == OpCode(op) && ArgReads(tab, e.first, n.left) && ArgReads(tab, arg, n.right)
  }

  ghost predicate ArgReads(tab: Table, a: Arg, n: Node)
    decreases a
  {
    match a case Plain(atom) => n == Leaf(AtomOperand(tab, atom)) case Group(e) => Reads(tab, e, n)
  }

  lemma {:induction false} TreeReads(tab: Table, e: Infix)
    requires Single(e)
    ensures Reads(tab, e, InfixTree(tab, e))
    decreases e
  {
    SingleEncodes(tab, e);
    ArgTreeReads(tab, e.first);
    if e.tail.More? {
      ArgTreeReads(tab, e.tail.arg);
    }
  }

  lemma {:induction false} ArgTreeReads(tab: Table, a: Arg)
    requires SingleArg(a)
    ensures ArgReads(tab, a, ArgTree(tab, a))
    decreases a
  {
    if a.Group? {
      TreeReads(tab, a.inner);
    }
  }

  lemma {:induction false} ReadingIsSingle(tab: Table, e: Infix, n: Node)
    requires Reads(tab, e, n) && EncNode(n) == EmitInfix(tab, e)
    ensures Single(e)
    decreases e
  {
    match e.tail {
      case Stop =>
        ArgReadingIsSingle(tab, e.first, n);
      case More(op, arg, rest) =>
        EncodesATree(tab, e);
        assert EmitTail(tab, Stop) == [];
        ArgReadingLength(tab, e.first, n.left);
        SameCode(EncOp(LVM_ARITH_OP, OpCode(op)), EncNode(n.left), EncNode(n.right), EmitArg(tab, e.first),
                 EmitArg(tab, arg));
        ArgReadingIsSingle(tab, e.first, n.left);
        ArgReadingIsSingle(tab, arg, n.right);
    }
  }

  lemma {:induction false} ArgReadingIsSingle(tab: Table, a: Arg, n: Node)
    requires ArgReads(tab, a, n) && EncNode(n) == EmitArg(tab, a)
    ensures SingleArg(a)
    decreases a
  {
    if a.Group? {
      ReadingIsSingle(tab, a.inner, n);
    }
  }

  lemma ArgReadingLength(tab: Table, a: Arg, n: Node)
    requires ArgReads(tab, a, n)
    ensures |EncNode(n)| == |EmitArg(tab, a)|
  {
  }

  lemma SameParts(l: seq<byte>, r: seq<byte>, a: seq<byte>, b: seq<byte>)
    requires |l| == |a| && l + r == a + b
    ensures l == a && r == b
  {
    assert l == (l + r)[..|l|] && a == (a + b)[..|a|];
    assert r == (l + r)[|l|..] && b == (a + b)[|a|..];
  }

  lemma SameCode(h: seq<byte>, a: seq<byte>, b: seq<byte>, c: seq<byte>, d: seq<byte>)
    requires |a| == |c| && h + a + b == h + c + d
    ensures a == c && b == d
  {
    SameParts(h + a, b, h + c, d);
    assert a == (h + a)[|h|..] && c == (h + c)[|h|..];
  }

  // ----- Comparisons

  predicate SingleComparison(x: Comparison) { Single(x.left) && Single(x.right) }

  function ComparisonTree(tab: Table, x: Comparison): Logic
    requires SingleComparison(x)
  {
    Compare(CmpCode(x.cmp), InfixTree(tab, x.left), InfixTree(tab, x.right))
  }

  lemma SingleComparisonEncodes(tab: Table, x: Comparison)
    requires SingleComparison(x)
    ensures EmitComparison(tab, x) == EncLogic(ComparisonTree(tab, x)) && WfLogic(ComparisonTree(tab, x))
    ensures !ComparisonTree(tab, x).LogicJunk?
  {
    SingleEncodes(tab, x.left);
    SingleEncodes(tab, x.right);
    assert !IsConnective(CmpCode(x.cmp));
  }

  /** A reading of a comparison: the operator, and readings of its two sides. */
  ghost predicate ComparisonReads(tab: Table, x: Comparison, t: Logic) {
    t.Compare? && t.op == CmpCode(x.cmp) && Reads(tab, x.left, t.left) && Reads(tab, x.right, t.right)
  }

  lemma ComparisonLengths(tab: Table, x: Comparison, t: Logic)
    requires ComparisonReads(tab, x, t)
    ensures |EncLogic(t)| == |EmitComparison(tab, x)| && |EncNode(t.left)| == |EmitInfix(tab, x.left)|
  {
    hide EncNode, EmitInfix;
  }

  lemma ComparisonReadingIsSingle(tab: Table, x: Comparison, t: Logic)
    requires ComparisonReads(tab, x, t) && EncLogic(t) == EmitComparison(tab, x)
    ensures SingleComparison(x)
  {
    hide EncNode, EmitInfix, Reads, Single;
    ComparisonLengths(tab, x, t);
    SameCode(EncOp(LVM_CMP_OP, t.op), EncNode(t.left), EncNode(t.right), EmitInfix(tab, x.left),
             EmitInfix(tab, x.right));
    ReadingIsSingle(tab, x.left, t.left);
    ReadingIsSingle(tab, x.right, t.right);
  }

  /** The code of a comparison is the encoding of one of its readings, however operators are
      grouped, if and only if no level on either side has two operators. */
  lemma EncodesAReading(tab: Table, x: Comparison)
    ensures (exists t | ComparisonReads(tab, x, t) :: EncLogic(t) == EmitComparison(tab, x)) <==> SingleComparison(x)
  {
    if SingleComparison(x) {
      SingleComparisonEncodes(tab, x);
      TreeReads(tab, x.left);
      TreeReads(tab, x.right);
      assert ComparisonReads(tab, x, ComparisonTree(tab, x));
    }
    forall t | ComparisonReads(tab, x, t) && EncLogic(t) == EmitComparison(tab, x)
      ensures SingleComparison(x)
    {
      ComparisonReadingIsSingle(tab, x, t);
    }
  }

  /** One wrong reading: `a o1 b o2 c ~ d` is compiled to the code of `(a o1 b) ~ (c o2 d)`. */
  lemma ChainTakesTheOtherSide(tab: Table, a: Arg, o1: OpToken, b: Arg, o2: OpToken, c: Arg, cmp: CmpToken, d: Arg)
    ensures EmitComparison(tab, Comparison(Infix(a, More(o1, b, More(o2, c, Stop))), cmp, Infix(d, Stop)))
      == EmitComparison(tab, Comparison(Infix(a, More(o1, b, Stop)), cmp, Infix(c, More(o2, d, Stop))))
  {
    hide EmitArg, EncOp, OpCode, CmpCode;
    var h, p, q := EncOp(LVM_CMP_OP, CmpCode(cmp)), EncOp(LVM_ARITH_OP, OpCode(o1)), EncOp(LVM_ARITH_OP, OpCode(o2));
    var u, v, w, z := EmitArg(tab, a), EmitArg(tab, b), EmitArg(tab, c), EmitArg(tab, d);
    assert EmitTail(tab, Stop) == [];
    assert EmitTail(tab, More(o2, c, Stop)) == q + w + [];
    hide EmitTail;
    assert p + u + v + (q + w + []) == p + u + v + q + w;
    assert p + u + v + [] == p + u + v && q + w + z + [] == q + w + z;
    assert h + (p + u + v + q + w) + z == h + (p + u + v) + (q + w + z);
  }

  // ----- Conditions with one operator on each level

  /** Nothing in the condition ends badly, and it has at most one operator on each level. */
  predicate SingleWhere(w: Where)
    decreases w
  {
    SingleComparison(w.first) && SingleChain(w.rest)
  }

  predicate SingleChain(t: Chain)
    decreases t
  {
    t.Last? || (SingleItem(t.item) && SingleChain(t.rest))
  }

  predicate SingleItem(item: Item): (b: bool)
    ensures b && Lone(item) ==> SingleComparison(LoneComparison(item))
    decreases item
  {
    match item
    case Compared(x) => SingleComparison(x)
    case Enclosed(w) => SingleWhere(w)
    case _ => false
  }

  /** A comparison, whether in parentheses or not. */
  predicate Lone(item: Item) { item.Compared? || (item.Enclosed? && item.inner.rest.Last?) }

  function LoneComparison(item: Item): Comparison
    requires Lone(item)
  {
    if item.Compared? then item.comparison else item.inner.first
  }
}
