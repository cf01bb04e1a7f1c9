/** What the compiled conditions mean: exactly which ones are encoded as the trees they stand
    for, and what running them returns. */
module AqlMeaning {
  import opened Bytes
  import opened LvmCode
  import opened LvmMeaning
  import opened AqlSyntax
  import opened AqlRun
  import opened AqlParser
  import opened AqlTrees
  import opened AqlSaid
  import Lvm

  // ----- What a condition means, and what it is compiled to

  /** The tree of a condition: `i1 k1 i2 k2 i3` nests to the right, whatever the connectives, and an enclosed
      condition is a unit. */
  function Meant(tab: Table, w: Where): Logic
    requires SingleWhere(w)
    decreases w
  {
    MeantChain(tab, ComparisonTree(tab, w.first), w.rest)
  }

  function MeantChain(tab: Table, head: Logic, t: Chain): Logic
    requires SingleChain(t)
    decreases t
  {
    if t.Last? then head else Connect(ConnCode(t.conn), head, MeantChain(tab, MeantItem(tab, t.item), t.rest))
  }

  function MeantItem(tab: Table, item: Item): Logic
    requires SingleItem(item)
    decreases item
  {
    match item case Compared(x) => ComparisonTree(tab, x) case Enclosed(w) => Meant(tab, w)
  }

  /** No enclosed condition has connectives. */
  predicate Flat(t: Chain)
    decreases t
  {
    t.Last? || (Lone(t.item) && Flat(t.rest))
  }

  /** Only at the end do enclosed conditions have connectives. */
  predicate Nests(t: Chain)
    decreases t
  {
    t.Last? || (if Lone(t.item) then Nests(t.rest) else t.item.Enclosed? && t.rest.Last? && Nests(t.item.inner.rest))
  }

  /** Connectives with their left sides, whose right sides are to come. */
  type Pending = seq<(ConnToken, Logic)>

  function Fill(ps: Pending, t: Logic): Logic {
    if ps == [] then t else Connect(ConnCode(ps[0].0), ps[0].1, Fill(ps[1..], t))
  }

  /** The tree that a condition is compiled to behind what is pending: the first connective of an enclosed
      condition takes all that stands before it as its left side. */
  function Built(tab: Table, ps: Pending, w: Where): Logic
    requires SingleWhere(w) && Nests(w.rest)
    decreases w
  {
    BuiltChain(tab, [], Fill(ps, ComparisonTree(tab, w.first)), w.rest)
  }

  function BuiltChain(tab: Table, ps: Pending, head: Logic, t: Chain): Logic
    requires SingleChain(t) && Nests(t)
    decreases t
  {
    if t.Last? then Fill(ps, head)
    else
      assert SingleItem(t.item);
      if Lone(t.item) then BuiltChain(tab, ps + [(t.conn, head)], ComparisonTree(tab, LoneComparison(t.item)), t.rest)
      else Built(tab, ps + [(t.conn, head)], t.item.inner)
  }

  function EncPending(ps: Pending): seq<byte> {
    if ps == [] then [] else ConnBytes(ps[0].0) + EncLogic(ps[0].1) + EncPending(ps[1..])
  }

  ghost predicate WfPending(ps: Pending) { forall p | p in ps :: WfLogic(p.1) }

  lemma {:induction false} FillEncodes(ps: Pending, t: Logic)
    requires WfPending(ps) && WfLogic(t) && !t.LogicJunk?
    ensures EncLogic(Fill(ps, t)) == EncPending(ps) + EncLogic(t) && WfLogic(Fill(ps, t)) && !Fill(ps, t).LogicJunk?
  {
    if ps == [] {
      assert [] + EncLogic(t) == EncLogic(t);
    } else {
      hide EncLogic, WfLogic;
      FillEncodes(ps[1..], t);
      assert ps[0] in ps;
      FillOnce(ps[0].0, ps[0].1, Fill(ps[1..], t));
      var h, a, b, c := ConnBytes(ps[0].0), EncLogic(ps[0].1), EncPending(ps[1..]), EncLogic(t);
      assert h + a + (b + c) == h + a + b + c;
    }
  }

  lemma FillOnce(k: ConnToken, a: Logic, b: Logic)
    requires WfLogic(a) && WfLogic(b)
    ensures EncLogic(Connect(ConnCode(k), a, b)) == ConnBytes(k) + EncLogic(a) + EncLogic(b)
    ensures WfLogic(Connect(ConnCode(k), a, b))
  {
    assert IsConnective(ConnCode(k)) && ConnCode(k) != LVM_NOT;
  }

  lemma {:induction false} PendingGrows(ps: Pending, k: ConnToken, t: Logic)
    ensures EncPending(ps + [(k, t)]) == EncPending(ps) + ConnBytes(k) + EncLogic(t)
  {
    hide EncLogic, ConnBytes;
    var qs, c, d := ps + [(k, t)], ConnBytes(k), EncLogic(t);
    if ps == [] {
      assert qs[1..] == [] && c + d + [] == [] + c + d;
    } else {
      assert qs[1..] == ps[1..] + [(k, t)];
      PendingGrows(ps[1..], k, t);
      var h, a, b := ConnBytes(ps[0].0), EncLogic(ps[0].1), EncPending(ps[1..]);
      assert h + a + (b + c + d) == h + a + b + c + d;
    }
  }

  lemma {:induction false} FillGrows(ps: Pending, k: ConnToken, t: Logic, u: Logic)
    ensures Fill(ps + [(k, t)], u) == Fill(ps, Connect(ConnCode(k), t, u))
  {
    if ps != [] {
      assert (ps + [(k, t)])[1..] == ps[1..] + [(k, t)];
      FillGrows(ps[1..], k, t, u);
    }
  }

  /** A condition with one operator on each level, whose enclosed conditions have connectives only at the
      end, is compiled to the encoding of the tree that is built. */
  lemma {:induction false} BuiltEncodes(tab: Table, ps: Pending, w: Where)
    requires SingleWhere(w) && Nests(w.rest) && WfPending(ps)
    ensures CodeWhere(tab, EncPending(ps), w) == EncLogic(Built(tab, ps, w))
    ensures WfLogic(Built(tab, ps, w)) && !Built(tab, ps, w).LogicJunk?
    decreases w
  {
    hide SingleComparison, EmitComparison, ComparisonTree, EncLogic, WfLogic, Fill, EncPending;
    SingleComparisonEncodes(tab, w.first);
    FillEncodes(ps, ComparisonTree(tab, w.first));
    var head := Fill(ps, ComparisonTree(tab, w.first));
    EncodesNothing();
    assert EncPending([]) + EncLogic(head) == EncLogic(head);
    ChainEncodes(tab, [], head, w.rest);
  }

  lemma EncodesNothing()
    ensures EncPending([]) == []
  {
  }

  lemma {:induction false} ChainEncodes(tab: Table, ps: Pending, head: Logic, t: Chain)
    requires SingleChain(t) && Nests(t) && WfPending(ps) && WfLogic(head) && !head.LogicJunk?
    ensures CodeChain(tab, EncPending(ps) + EncLogic(head), |EncPending(ps)|, t)
      == EncLogic(BuiltChain(tab, ps, head, t))
    ensures WfLogic(BuiltChain(tab, ps, head, t)) && !BuiltChain(tab, ps, head, t).LogicJunk?
    decreases t
  {
    hide SingleComparison, EmitComparison, ComparisonTree, EncLogic, WfLogic, Fill, EncPending, ConnBytes, CodeWhere,
         Built;
    if t.Last? {
      FillEncodes(ps, head);
    } else {
      var done, h, code, qs := EncPending(ps), ConnBytes(t.conn), EncLogic(head), ps + [(t.conn, head)];
      PendingGrows(ps, t.conn, head);
      InsertedBefore(done, code, h);
      assert SingleItem(t.item);
      if Lone(t.item) {
        var x := LoneComparison(t.item);
        SingleComparisonEncodes(tab, x);
        LoneCode(tab, EncPending(qs), t.item);
        ChainEncodes(tab, qs, ComparisonTree(tab, x), t.rest);
      } else {
        BuiltEncodes(tab, qs, t.item.inner);
      }
    }
  }

  lemma InsertedBefore(done: seq<byte>, code: seq<byte>, h: seq<byte>)
    ensures Inserted(done + code, |done|, h) == done + h + code
  {
    Cut(done, code, done + code);
  }

  /** A comparison in parentheses is compiled like one without. */
  lemma LoneCode(tab: Table, code: seq<byte>, item: Item)
    requires Lone(item)
    ensures CodeItem(tab, code, item) == code + EmitComparison(tab, LoneComparison(item))
  {
    hide EmitComparison;
    if item.Enclosed? {
      assert CodeWhere(tab, code, item.inner) == CodeChain(tab, code + EmitComparison(tab, item.inner.first), 0, Last);
    }
  }

  // ----- Conditions whose enclosed conditions have no connectives

  lemma LoneMeant(tab: Table, item: Item)
    requires Lone(item) && SingleItem(item)
    ensures MeantItem(tab, item) == ComparisonTree(tab, LoneComparison(item))
  {
    hide SingleComparison, ComparisonTree;
    if item.Enclosed? {
      assert SingleWhere(item.inner);
      assert MeantItem(tab, item) == MeantChain(tab, ComparisonTree(tab, item.inner.first), Last);
    }
  }

  /** Then what is built is what is meant. */
  lemma {:induction false} FlatIsMeant(tab: Table, ps: Pending, head: Logic, t: Chain)
    requires SingleChain(t) && Flat(t)
    ensures Nests(t) && BuiltChain(tab, ps, head, t) == Fill(ps, MeantChain(tab, head, t))
    decreases t
  {
    hide SingleComparison, ComparisonTree;
    if t.Link? {
      assert SingleItem(t.item);
      var x := ComparisonTree(tab, LoneComparison(t.item));
      LoneMeant(tab, t.item);
      FlatIsMeant(tab, ps + [(t.conn, head)], x, t.rest);
      FillGrows(ps, t.conn, head, MeantChain(tab, x, t.rest));
    }
  }

  lemma Unfilled(t: Logic)
    ensures Fill([], t) == t
  {
  }

  // ----- Conditions with connectives in parentheses are not compiled as they are meant

  predicate IsConnBytes(s: seq<byte>) { s == ConnBytes(AND) || s == ConnBytes(OR) }

  predicate OneConnective(code: seq<byte>) { |code| >= 8 && IsConnBytes(code[..4]) }

  predicate TwoConnectives(code: seq<byte>) { OneConnective(code) && IsConnBytes(code[4..8]) }

  /** A connective goes to the start of the code or well behind it. */
  lemma InsertedConnective(code: seq<byte>, at: nat, k: ConnToken)
    requires at == 0 || at >= 8
    requires 8 <= |code| && at <= |code|
    ensures var s := Inserted(code, at, ConnBytes(k));
      && (at == 0 || OneConnective(code) ==> OneConnective(s))
      && ((at == 0 && OneConnective(code)) || TwoConnectives(code) ==> TwoConnectives(s))
  {
    var s := Inserted(code, at, ConnBytes(k));
    if at == 0 {
      assert s[..4] == ConnBytes(k) && s[4..8] == code[..4];
    } else {
      assert s[..4] == code[..4] && s[4..8] == code[4..8];
    }
    assert k == AND || k == OR;
  }

  lemma Appended(code: seq<byte>, x: seq<byte>)
    ensures OneConnective(code) ==> OneConnective(code + x)
    ensures TwoConnectives(code) ==> TwoConnectives(code + x)
  {
    if |code| >= 8 {
      assert (code + x)[..4] == code[..4] && (code + x)[4..8] == code[4..8];
    }
  }

  /** Two connectives at the start stay, and an enclosed condition with connectives makes two of one. */
  lemma {:induction false} WhereDoubles(tab: Table, code: seq<byte>, w: Where)
    requires TwoConnectives(code) || (OneConnective(code) && w.rest.Link?)
    ensures TwoConnectives(CodeWhere(tab, code, w))
    decreases w, 1
  {
    hide EmitComparison, TwoConnectives, ConnBytes;
    Appended(code, EmitComparison(tab, w.first));
    ChainDoubles(tab, code + EmitComparison(tab, w.first), 0, w.rest);
  }

  lemma {:induction false} ChainDoubles(tab: Table, code: seq<byte>, at: nat, t: Chain)
    requires 20 <= |code| && (at == 0 || 8 <= at <= |code|)
    requires TwoConnectives(code) || (at == 0 && OneConnective(code) && t.Link?)
    ensures TwoConnectives(CodeChain(tab, code, at, t))
    decreases t
  {
    hide EmitComparison, TwoConnectives, OneConnective, ConnBytes, CodeItem;
    if t.Link? {
      var inserted := Inserted(code, at, ConnBytes(t.conn));
      InsertedConnective(code, at, t.conn);
      ItemKeeps(tab, inserted, t.item);
      ChainDoubles(tab, CodeItem(tab, inserted, t.item), |code| + 4, t.rest);
    }
  }

  lemma {:induction false} ItemKeeps(tab: Table, code: seq<byte>, item: Item)
    requires TwoConnectives(code) || (OneConnective(code) && item.Enclosed? && item.inner.rest.Link?)
    ensures TwoConnectives(CodeItem(tab, code, item))
    decreases item
  {
    hide EmitComparison, TwoConnectives, OneConnective, CodeWhere;
    match item {
      case Compared(x) => Appended(code, EmitComparison(tab, x));
      case Enclosed(w) => WhereDoubles(tab, code, w);
      case Broken(_) =>
      case Unclosed(w) => WhereDoubles(tab, code, w);
    }
  }

  lemma {:induction false} NotFlatDoubles(tab: Table, code: seq<byte>, at: nat, t: Chain)
    requires SingleChain(t) && !Flat(t) && 20 <= |code|
    requires at == 0 || (8 <= at <= |code| && OneConnective(code))
    ensures TwoConnectives(CodeChain(tab, code, at, t))
    decreases t
  {
    hide EmitComparison, TwoConnectives, OneConnective, ConnBytes, CodeItem;
    var inserted := Inserted(code, at, ConnBytes(t.conn));
    InsertedConnective(code, at, t.conn);
    var next := CodeItem(tab, inserted, t.item);
    if Lone(t.item) {
      LoneCode(tab, inserted, t.item);
      Appended(inserted, EmitComparison(tab, LoneComparison(t.item)));
      NotFlatDoubles(tab, next, |code| + 4, t.rest);
    } else {
      ItemKeeps(tab, inserted, t.item);
      ChainDoubles(tab, next, |code| + 4, t.rest);
    }
  }

  lemma OpBytes(op: word, other: word)
    ensures EncOp(LVM_CMP_OP, op) == EncOp(LVM_CMP_OP, other) ==> op == other
  {
    var s, t := EncOp(LVM_CMP_OP, op), EncOp(LVM_CMP_OP, other);
    Dec16Enc16(op);
    Dec16Enc16(other);
    assert s[2] == Enc16(op)[0] && s[3] == Enc16(op)[1] && t[2] == Enc16(other)[0] && t[3] == Enc16(other)[1];
  }

  lemma MeantLink(tab: Table, w: Where)
    requires SingleWhere(w) && w.rest.Link?
    ensures SingleComparison(w.first) && SingleItem(w.rest.item) && SingleChain(w.rest.rest)
    ensures Meant(tab, w) == Connect(ConnCode(w.rest.conn), ComparisonTree(tab, w.first),
                                     MeantChain(tab, MeantItem(tab, w.rest.item), w.rest.rest))
  {
    hide SingleComparison, ComparisonTree, MeantItem;
  }

  /** The second operator of what a condition with connectives means is its first comparison's. */
  lemma MeantHasOne(tab: Table, w: Where)
    requires SingleWhere(w) && w.rest.Link?
    ensures !TwoConnectives(EncLogic(Meant(tab, w)))
  {
    hide SingleComparison, InfixTree, EncNode, EncOp, Meant, MeantChain, MeantItem;
    var k, x := w.rest.conn, ComparisonTree(tab, w.first);
    var rest := MeantChain(tab, MeantItem(tab, w.rest.item), w.rest.rest);
    MeantLink(tab, w);
    var code := EncLogic(Meant(tab, w));
    assert code == EncOp(LVM_CMP_OP, ConnCode(k)) + EncLogic(x) + EncLogic(rest);
    assert code[4..8] == EncLogic(x)[..4] == EncOp(LVM_CMP_OP, CmpCode(w.first.cmp));
    OpBytes(CmpCode(w.first.cmp), LVM_AND);
    OpBytes(CmpCode(w.first.cmp), LVM_OR);
  }

  /** A condition with one operator on each level is compiled to the encoding of what it means if and
      only if no enclosed condition has connectives. */
  lemma CompiledAsMeant(tab: Table, w: Where)
    requires SingleWhere(w)
    ensures CodeWhere(tab, [], w) == EncLogic(Meant(tab, w)) <==> Flat(w.rest)
  {
    hide SingleComparison, ComparisonTree, EncLogic, EmitComparison, CodeChain;
    if Flat(w.rest) {
      var head := ComparisonTree(tab, w.first);
      EncodesNothing();
      Unfilled(head);
      FlatIsMeant(tab, [], head, w.rest);
      Unfilled(Meant(tab, w));
      BuiltEncodes(tab, [], w);
    } else {
      var x := EmitComparison(tab, w.first);
      assert [] + x == x;
      NotFlatDoubles(tab, x, 0, w.rest);
      MeantHasOne(tab, w);
    }
  }

  /** What is compiled nests to the left around the first connective of an enclosed condition. It has the
      value of what is meant unless that makes a difference. */
  lemma Reassociates(k: ConnToken, l: ConnToken, a: Logic, b: Logic, c: Logic, env: seq<long>)
    requires ClosedLogic(a, |env|) && ClosedLogic(b, |env|) && ClosedLogic(c, |env|)
    ensures LogicValue(Connect(ConnCode(l), Connect(ConnCode(k), a, b), c), env)
         == LogicValue(Connect(ConnCode(k), a, Connect(ConnCode(l), b, c)), env)
      <==> var x, y, z := LogicValue(a, env), LogicValue(b, env), LogicValue(c, env);
        || k == l || IsError(x) || IsError(y) || IsError(z)
        || (if k == AND then x == TRUE || z != TRUE else x != TRUE || z == TRUE)
  {
  }

  /** `a k (b l rest)` is compiled like `(a k b) l rest`. */
  lemma EnclosedConnective(tab: Table, a: Comparison, k: ConnToken, b: Comparison, t: Chain)
    requires SingleComparison(a) && SingleComparison(b) && SingleChain(t) && Flat(t) && t.Link?
    ensures var w := Where(a, Link(k, Enclosed(Where(b, t)), Last));
      && SingleWhere(w) && Nests(w.rest)
      && var x, y, z := ComparisonTree(tab, a), ComparisonTree(tab, b),
                        MeantChain(tab, MeantItem(tab, t.item), t.rest);
      && Meant(tab, w) == Connect(ConnCode(k), x, Connect(ConnCode(t.conn), y, z))
      && Built(tab, [], w) == Connect(ConnCode(t.conn), Connect(ConnCode(k), x, y), z)
  {
    hide SingleComparison, ComparisonTree, MeantItem, Meant, Fill;
    var inner := Where(b, t);
    var w := Where(a, Link(k, Enclosed(inner), Last));
    assert SingleWhere(inner) && SingleItem(Enclosed(inner)) && SingleChain(w.rest);
    MeantLink(tab, w);
    MeantLink(tab, inner);
    EnclosedMeant(tab, inner);
    var x, y := ComparisonTree(tab, a), ComparisonTree(tab, b);
    Unfilled(x);
    assert [] + [(k, x)] == [(k, x)];
    FlatIsMeant(tab, [], x, t);
    assert Nests(w.rest);
    assert Built(tab, [], w) == Built(tab, [(k, x)], inner);
    FilledOnce(k, x, y);
    var head := Connect(ConnCode(k), x, y);
    FlatIsMeant(tab, [], head, t);
    Unfilled(MeantChain(tab, head, t));
  }

  /** Its run gives the value of what is meant exactly under the condition of `Reassociates`. */
  lemma EnclosedValue(tab: Table, a: Comparison, k: ConnToken, b: Comparison, t: Chain, env: seq<long>)
    requires SingleComparison(a) && SingleComparison(b) && SingleChain(t) && Flat(t) && t.Link?
    requires ClosedLogic(ComparisonTree(tab, a), |env|) && ClosedLogic(ComparisonTree(tab, b), |env|)
    requires ClosedLogic(MeantChain(tab, MeantItem(tab, t.item), t.rest), |env|)
    ensures var w := Where(a, Link(k, Enclosed(Where(b, t)), Last));
      && SingleWhere(w) && Nests(w.rest)
      && ClosedLogic(Built(tab, [], w), |env|) && ClosedLogic(Meant(tab, w), |env|)
      && var x, y := LogicValue(ComparisonTree(tab, a), env), LogicValue(ComparisonTree(tab, b), env);
      var z := LogicValue(MeantChain(tab, MeantItem(tab, t.item), t.rest), env);
      LogicValue(Built(tab, [], w), env) == LogicValue(Meant(tab, w), env)
      <==>
        || k == t.conn || IsError(x) || IsError(y) || IsError(z)
        || (if k == AND then x == TRUE || z != TRUE else x != TRUE || z == TRUE)
  {
    hide SingleComparison, ComparisonTree, MeantItem, MeantChain, Meant, Built, LogicValue;
    EnclosedConnective(tab, a, k, b, t);
    Reassociates(k, t.conn, ComparisonTree(tab, a), ComparisonTree(tab, b),
                 MeantChain(tab, MeantItem(tab, t.item), t.rest), env);
  }

  lemma EnclosedMeant(tab: Table, w: Where)
    requires SingleWhere(w)
    ensures SingleItem(Enclosed(w)) && MeantChain(tab, MeantItem(tab, Enclosed(w)), Last) == Meant(tab, w)
  {
    hide SingleComparison, ComparisonTree;
  }

  lemma FilledOnce(k: ConnToken, x: Logic, y: Logic)
    ensures Fill([(k, x)], y) == Connect(ConnCode(k), x, y)
  {
    Unfilled(y);
  }

  /** A connective behind such a condition is inserted into the last operand before it:
      `a k (b l c) m d` is compiled to l, k, all of a but four bytes, m, those, b, c, d. */
  lemma ConnectiveInAnOperand(tab: Table, a: Comparison, k: ConnToken, b: Comparison, l: ConnToken, c: Comparison,
                              m: ConnToken, d: Comparison)
    ensures var inner, x := Where(b, Link(l, Compared(c), Last)), EmitComparison(tab, a);
      CodeWhere(tab, [], Where(a, Link(k, Enclosed(inner), Link(m, Compared(d), Last))))
      == Split(l, k, x, m) + EmitComparison(tab, b) + EmitComparison(tab, c) + EmitComparison(tab, d)
  {
    hide EmitComparison, ConnBytes, Inserted, CodeWhere, CodeChain, Split;
    var more := Link(m, Compared(d), Last);
    var x, y, z := EmitComparison(tab, a), EmitComparison(tab, b), EmitComparison(tab, c);
    EnclosedSecond(tab, a, k, Where(b, Link(l, Compared(c), Last)), more);
    EnclosedCode(tab, ConnBytes(k) + x, b, l, c);
    var code := ConnBytes(l) + (ConnBytes(k) + x + y) + z;
    OneLink(tab, code, |x| + 4, m, d);
    InsertedInside(l, k, x, y, z, m);
  }

  /** A comparison's code behind two connectives, with another one in its last operand. */
  function Split(l: ConnToken, k: ConnToken, code: seq<byte>, m: ConnToken): seq<byte>
    requires |code| >= 4
  {
    ConnBytes(l) + ConnBytes(k) + code[..|code| - 4] + ConnBytes(m) + code[|code| - 4..]
  }

  lemma InsertedInside(l: ConnToken, k: ConnToken, x: seq<byte>, y: seq<byte>, z: seq<byte>, m: ConnToken)
    requires |x| >= 4
    ensures Inserted(ConnBytes(l) + (ConnBytes(k) + x + y) + z, |x| + 4, ConnBytes(m)) == Split(l, k, x, m) + y + z
  {
    hide Inserted, ConnBytes;
    var hl, hk, hm, cut := ConnBytes(l), ConnBytes(k), ConnBytes(m), |x| - 4;
    var before, behind := hl + hk + x[..cut], x[cut..] + y + z;
    assert x == x[..cut] + x[cut..];
    assert hl + (hk + x + y) + z == before + behind;
    InsertedBefore(before, behind, hm);
    assert before + hm + behind == before + hm + x[cut..] + y + z;
  }

  lemma EnclosedSecond(tab: Table, a: Comparison, k: ConnToken, inner: Where, more: Chain)
    ensures |EmitComparison(tab, a)| + 4 <= |CodeWhere(tab, ConnBytes(k) + EmitComparison(tab, a), inner)|
    ensures CodeWhere(tab, [], Where(a, Link(k, Enclosed(inner), more)))
      == CodeChain(tab, CodeWhere(tab, ConnBytes(k) + EmitComparison(tab, a), inner), |EmitComparison(tab, a)| + 4, more)
  {
    hide EmitComparison, ConnBytes, Inserted;
    var x := EmitComparison(tab, a);
    assert [] + x == x;
    FirstInserted(x, ConnBytes(k));
    var t := Link(k, Enclosed(inner), more);
    assert CodeWhere(tab, [], Where(a, t)) == CodeChain(tab, x, 0, t);
    assert CodeItem(tab, ConnBytes(k) + x, Enclosed(inner)) == CodeWhere(tab, ConnBytes(k) + x, inner);
  }

  lemma EnclosedCode(tab: Table, code: seq<byte>, b: Comparison, l: ConnToken, c: Comparison)
    ensures CodeWhere(tab, code, Where(b, Link(l, Compared(c), Last)))
      == ConnBytes(l) + (code + EmitComparison(tab, b)) + EmitComparison(tab, c)
  {
    hide EmitComparison, ConnBytes, Inserted;
    FirstInserted(code + EmitComparison(tab, b), ConnBytes(l));
    OneLink(tab, code + EmitComparison(tab, b), 0, l, c);
  }

  lemma FirstInserted(code: seq<byte>, h: seq<byte>)
    ensures Inserted(code, 0, h) == h + code
  {
  }

  lemma OneLink(tab: Table, code: seq<byte>, at: nat, k: ConnToken, x: Comparison)
    requires at <= |code|
    ensures CodeChain(tab, code, at, Link(k, Compared(x), Last))
      == Inserted(code, at, ConnBytes(k)) + EmitComparison(tab, x)
  {
    hide EmitComparison, ConnBytes, Inserted;
    var next := Inserted(code, at, ConnBytes(k)) + EmitComparison(tab, x);
    assert CodeChain(tab, next, |code| + 4, Last) == next;
  }

  // ----- The readings of conditions without connectives in parentheses

  /** A reading of a condition: for each of its comparisons a reading, joined by its connectives from the
      right. */
  ghost predicate WhereReads(tab: Table, x: Comparison, t: Chain, r: Logic)
    requires Flat(t)
    decreases t
  {
    if t.Last? then ComparisonReads(tab, x, r)
    else
      && r.Connect? && r.op == ConnCode(t.conn) && ComparisonReads(tab, x, r.a)
      && WhereReads(tab, LoneComparison(t.item), t.rest, r.b)
  }

  /** The code of a condition is the encoding of one of its readings, however the operators in its
      comparisons are grouped, if and only if no level of any side has two operators. */
  lemma WhereEncodesAReading(tab: Table, w: Where)
    requires Flat(w.rest)
    ensures (exists r | WhereReads(tab, w.first, w.rest, r) :: EncLogic(r) == CodeWhere(tab, [], w)) <==> SingleWhere(w)
  {
    hide EmitComparison, SingleComparison, ComparisonTree, EncLogic, WhereReads, CodeWhere;
    if SingleWhere(w) {
      CompiledAsMeant(tab, w);
      MeantReads(tab, w.first, w.rest);
      assert WhereReads(tab, w.first, w.rest, Meant(tab, w));
    }
    FlatWhereCode(tab, w);
    forall r | WhereReads(tab, w.first, w.rest, r) && EncLogic(r) == CodeWhere(tab, [], w)
      ensures SingleWhere(w)
    {
      WhereReadingIsSingle(tab, w.first, w.rest, r);
    }
  }

  lemma {:induction false} MeantReads(tab: Table, x: Comparison, t: Chain)
    requires Flat(t) && SingleComparison(x) && SingleChain(t)
    ensures WhereReads(tab, x, t, MeantChain(tab, ComparisonTree(tab, x), t))
    decreases t
  {
    TreeReads(tab, x.left);
    TreeReads(tab, x.right);
    if t.Link? {
      assert SingleItem(t.item);
      LoneMeant(tab, t.item);
      MeantReads(tab, LoneComparison(t.item), t.rest);
    }
  }

  function EmitFlat(tab: Table, x: Comparison, t: Chain): seq<byte>
    requires Flat(t)
    decreases t
  {
    if t.Last? then EmitComparison(tab, x)
    else ConnBytes(t.conn) + EmitComparison(tab, x) + EmitFlat(tab, LoneComparison(t.item), t.rest)
  }

  lemma FlatWhereCode(tab: Table, w: Where)
    requires Flat(w.rest)
    ensures CodeWhere(tab, [], w) == EmitFlat(tab, w.first, w.rest)
  {
    hide EmitComparison, CodeChain, EmitFlat;
    FlatCode(tab, [], w.first, w.rest);
    var code := EmitFlat(tab, w.first, w.rest);
    assert [] + code == code;
  }

  lemma {:induction false} FlatCode(tab: Table, done: seq<byte>, x: Comparison, t: Chain)
    requires Flat(t)
    ensures CodeChain(tab, done + EmitComparison(tab, x), |done|, t) == done + EmitFlat(tab, x, t)
    decreases t
  {
    hide EmitComparison, ConnBytes, CodeItem;
    if t.Link? {
      var h, code, y := ConnBytes(t.conn), EmitComparison(tab, x), LoneComparison(t.item);
      InsertedBefore(done, code, h);
      LoneCode(tab, done + h + code, t.item);
      FlatCode(tab, done + h + code, y, t.rest);
      var more := EmitFlat(tab, y, t.rest);
      assert done + h + code + more == done + (h + code + more);
    }
  }

  lemma {:induction false} WhereReadingIsSingle(tab: Table, x: Comparison, t: Chain, r: Logic)
    requires Flat(t) && WhereReads(tab, x, t, r) && EncLogic(r) == EmitFlat(tab, x, t)
    ensures SingleComparison(x) && SingleChain(t)
    decreases t
  {
    hide EncNode, EncOp, EmitInfix, EmitComparison, ComparisonReads, SingleComparison;
    if t.Last? {
      ComparisonReadingIsSingle(tab, x, r);
    } else {
      ComparisonLengths(tab, x, r.a);
      var y := LoneComparison(t.item);
      SameCode(EncOp(LVM_CMP_OP, r.op), EncLogic(r.a), EncLogic(r.b), EmitComparison(tab, x), EmitFlat(tab, y, t.rest));
      ComparisonReadingIsSingle(tab, x, r.a);
      WhereReadingIsSingle(tab, y, t.rest, r.b);
      LoneSingle(t.item);
    }
  }

  lemma LoneSingle(item: Item)
    requires Lone(item) && SingleComparison(LoneComparison(item))
    ensures SingleItem(item)
  {
    if item.Enclosed? {
      assert SingleWhere(item.inner);
    }
  }

  // ----- Every variable of a compiled condition has a slot

  lemma AtomClosed(names: seq<string>, tab: Table, a: Atom, slots: nat)
    requires RegAtom(names, a) <= tab && |tab| <= slots
    ensures ClosedOperand(AtomOperand(tab, a), slots)
  {
    hide Lvm.IndexOf;
    if a.Name? {
      assert a.name in Lvm.Registered(names, a.name) by {
        RegistersName(names, a.name);
      }
      IndexOfPrefix(RegAtom(names, a), tab, a.name);
    }
  }

  lemma RegistersName(names: seq<string>, name: string)
    ensures name in Lvm.Registered(names, name)
  {
  }

  lemma {:induction false} InfixClosed(names: seq<string>, tab: Table, e: Infix, slots: nat)
    requires Single(e) && RegInfix(names, e) <= tab && |tab| <= slots
    ensures ClosedNode(InfixTree(tab, e), slots)
    decreases e
  {
    var names' := RegArg(names, e.first);
    RegTailExtends(names', e.tail);
    ArgClosed(names, tab, e.first, slots);
    if e.tail.More? {
      RegTailExtends(RegArg(names', e.tail.arg), e.tail.rest);
      ArgClosed(names', tab, e.tail.arg, slots);
    }
  }

  lemma {:induction false} ArgClosed(names: seq<string>, tab: Table, a: Arg, slots: nat)
    requires SingleArg(a) && RegArg(names, a) <= tab && |tab| <= slots
    ensures ClosedNode(ArgTree(tab, a), slots)
    decreases a
  {
    match a {
      case Plain(atom) => AtomClosed(names, tab, atom, slots);
      case Group(e) => InfixClosed(names, tab, e, slots);
    }
  }

  lemma ComparisonClosed(names: seq<string>, tab: Table, x: Comparison, slots: nat)
    requires SingleComparison(x) && RegComparison(names, x) <= tab && |tab| <= slots
    ensures ClosedLogic(ComparisonTree(tab, x), slots)
  {
    RegInfixExtends(RegInfix(names, x.left), x.right);
    InfixClosed(names, tab, x.left, slots);
    InfixClosed(RegInfix(names, x.left), tab, x.right, slots);
  }

  ghost predicate ClosedPending(ps: Pending, slots: nat) { forall p | p in ps :: ClosedLogic(p.1, slots) }

  lemma {:induction false} FillClosed(ps: Pending, t: Logic, slots: nat)
    requires ClosedPending(ps, slots) && ClosedLogic(t, slots)
    ensures ClosedLogic(Fill(ps, t), slots)
  {
    if ps != [] {
      assert ps[0] in ps;
      FillClosed(ps[1..], t, slots);
    }
  }

  lemma {:induction false} WhereClosed(names: seq<string>, tab: Table, ps: Pending, w: Where, slots: nat)
    requires SingleWhere(w) && Nests(w.rest) && ClosedPending(ps, slots)
    requires RegWhere(names, w) <= tab && |tab| <= slots
    ensures ClosedLogic(Built(tab, ps, w), slots)
    decreases w
  {
    hide SingleComparison, ComparisonTree, RegComparison, ClosedLogic, Fill;
    var names' := RegComparison(names, w.first);
    RegChainExtends(names', w.rest);
    ComparisonClosed(names, tab, w.first, slots);
    FillClosed(ps, ComparisonTree(tab, w.first), slots);
    ChainClosed(names', tab, [], Fill(ps, ComparisonTree(tab, w.first)), w.rest, slots);
  }

  lemma {:induction false} ChainClosed(names: seq<string>, tab: Table, ps: Pending, head: Logic, t: Chain, slots: nat)
    requires SingleChain(t) && Nests(t) && ClosedPending(ps, slots) && ClosedLogic(head, slots)
    requires RegChain(names, t) <= tab && |tab| <= slots
    ensures ClosedLogic(BuiltChain(tab, ps, head, t), slots)
    decreases t
  {
    hide SingleComparison, ComparisonTree, RegComparison, ClosedLogic, Fill;
    if t.Last? {
      FillClosed(ps, head, slots);
    } else {
      RegChainExtends(RegItem(names, t.item), t.rest);
      assert SingleItem(t.item);
      if Lone(t.item) {
        var x := LoneComparison(t.item);
        LoneNames(names, t.item);
        ComparisonClosed(names, tab, x, slots);
        ChainClosed(RegItem(names, t.item), tab, ps + [(t.conn, head)], ComparisonTree(tab, x), t.rest, slots);
      } else {
        WhereClosed(names, tab, ps + [(t.conn, head)], t.item.inner, slots);
      }
    }
  }

  lemma LoneNames(names: seq<string>, item: Item)
    requires Lone(item)
    ensures RegItem(names, item) == RegComparison(names, LoneComparison(item))
  {
    hide RegComparison;
    if item.Enclosed? {
      assert RegWhere(names, item.inner) == RegChain(RegComparison(names, item.inner.first), Last);
    }
  }

  // ----- What the tree of a condition means, in the terms of its tokens

  /** The variables have the values of their names. */
  ghost predicate Gives(env: Assignment, tab: Table, values: seq<long>) {
    forall name | name in tab :: Lvm.IndexOf(tab, name) < |values| && values[Lvm.IndexOf(tab, name)] == env(name)
  }

  /** The status of a run that returns this answer. */
  function Status(answer: Maybe<bool>): int {
    match answer case Just(b) => Truth(b) case Undefined => MATH_ERROR
  }

  function AsValue(v: Maybe<long>): Value {
    match v case Just(x) => Val(x) case Undefined => Fail(MATH_ERROR)
  }

  lemma OperatorMeans(op: OpToken, a: long, b: long)
    ensures Apply(OpCode(op), a, b) == AsValue(Calculated(op, a, b))
  {
  }

  lemma CmpMeans(cmp: CmpToken, a: int, b: int)
    ensures CompareValues(CmpCode(cmp), a, b) == Truth(Holds(cmp, a, b))
  {
  }

  lemma NameIsIn(names: seq<string>, tab: Table, name: string)
    requires Lvm.Registered(names, name) <= tab
    ensures name in tab && Lvm.IndexOf(tab, name) < |tab|
  {
    hide Lvm.IndexOf;
    RegistersName(names, name);
    IndexOfPrefix(Lvm.Registered(names, name), tab, name);
  }

  lemma {:induction false} InfixMeans(names: seq<string>, tab: Table, e: Infix, values: seq<long>, env: Assignment)
    requires Single(e) && RegInfix(names, e) <= tab && Gives(env, tab, values)
    requires ClosedNode(InfixTree(tab, e), |values|)
    ensures ExprValue(InfixTree(tab, e), values) == AsValue(InfixSays(e, env))
    decreases e
  {
    hide Gives, Apply, Calculated;
    var names' := RegArg(names, e.first);
    RegTailExtends(names', e.tail);
    ArgMeans(names, tab, e.first, values, env);
    if e.tail.More? {
      RegTailExtends(RegArg(names', e.tail.arg), e.tail.rest);
      ArgMeans(names', tab, e.tail.arg, values, env);
      var x, y := ArgSays(e.first, env), ArgSays(e.tail.arg, env);
      if x.Just? && y.Just? {
        OperatorMeans(e.tail.op, x.value, y.value);
      }
    }
  }

  lemma {:induction false} ArgMeans(names: seq<string>, tab: Table, a: Arg, values: seq<long>, env: Assignment)
    requires SingleArg(a) && RegArg(names, a) <= tab && Gives(env, tab, values)
    requires ClosedNode(ArgTree(tab, a), |values|)
    ensures ExprValue(ArgTree(tab, a), values) == AsValue(ArgSays(a, env))
    decreases a
  {
    match a {
      case Plain(Name(n)) => NameIsIn(names, tab, n);
      case Plain(Number(_)) =>
      case Group(e) => InfixMeans(names, tab, e, values, env);
    }
  }

  lemma ComparisonMeans(names: seq<string>, tab: Table, x: Comparison, values: seq<long>, env: Assignment)
    requires SingleComparison(x) && RegComparison(names, x) <= tab && Gives(env, tab, values)
    requires ClosedLogic(ComparisonTree(tab, x), |values|)
    ensures LogicValue(ComparisonTree(tab, x), values) == Status(ComparisonSays(x, env))
  {
    hide Gives, CompareValues, CmpCode, Holds, ExprValue;
    RegInfixExtends(RegInfix(names, x.left), x.right);
    InfixMeans(names, tab, x.left, values, env);
    InfixMeans(RegInfix(names, x.left), tab, x.right, values, env);
    var a, b := InfixSays(x.left, env), InfixSays(x.right, env);
    if a.Just? && b.Just? {
      CmpMeans(x.cmp, a.value, b.value);
    }
  }

  lemma ConnectMeans(k: ConnToken, a: Logic, b: Logic, values: seq<long>, x: Maybe<bool>, y: Maybe<bool>)
    requires ClosedLogic(a, |values|) && ClosedLogic(b, |values|)
    requires LogicValue(a, values) == Status(x) && LogicValue(b, values) == Status(y)
    ensures LogicValue(Connect(ConnCode(k), a, b), values) == Status(Connected(k, x, y))
  {
  }

  /** The value of the tree is what the condition says of the values of its names. */
  lemma {:induction false} WhereMeans(names: seq<string>, tab: Table, w: Where, values: seq<long>, env: Assignment)
    requires SingleWhere(w) && RegWhere(names, w) <= tab && |tab| <= |values| && Gives(env, tab, values)
    ensures ClosedLogic(Meant(tab, w), |values|) && LogicValue(Meant(tab, w), values) == Status(WhereSays(w, env))
    decreases w
  {
    hide SingleComparison, ComparisonTree, RegComparison, ClosedLogic, LogicValue, Gives, ComparisonSays;
    var names' := RegComparison(names, w.first);
    RegChainExtends(names', w.rest);
    ComparisonClosed(names, tab, w.first, |values|);
    ComparisonMeans(names, tab, w.first, values, env);
    ChainMeans(names', tab, ComparisonTree(tab, w.first), ComparisonSays(w.first, env), w.rest, values, env);
  }

  lemma {:induction false} ChainMeans(names: seq<string>, tab: Table, head: Logic, said: Maybe<bool>, t: Chain,
                                      values: seq<long>, env: Assignment)
    requires SingleChain(t) && RegChain(names, t) <= tab && |tab| <= |values| && Gives(env, tab, values)
    requires ClosedLogic(head, |values|) && LogicValue(head, values) == Status(said)
    ensures ClosedLogic(MeantChain(tab, head, t), |values|)
    ensures LogicValue(MeantChain(tab, head, t), values) == Status(ChainSays(said, t, env))
    decreases t
  {
    hide LogicValue, Gives, Connected, RegItem, SingleItem, ItemSays, MeantItem;
    if t.Link? {
      var names' := RegItem(names, t.item);
      RegChainExtends(names', t.rest);
      ItemMeans(names, tab, t.item, values, env);
      var item, says := MeantItem(tab, t.item), ItemSays(t.item, env);
      ChainMeans(names', tab, item, says, t.rest, values, env);
      ConnectMeans(t.conn, head, MeantChain(tab, item, t.rest), values, said, ChainSays(says, t.rest, env));
    }
  }

  lemma {:induction false} ItemMeans(names: seq<string>, tab: Table, item: Item, values: seq<long>, env: Assignment)
    requires SingleItem(item) && RegItem(names, item) <= tab && |tab| <= |values| && Gives(env, tab, values)
    ensures ClosedLogic(MeantItem(tab, item), |values|)
    ensures LogicValue(MeantItem(tab, item), values) == Status(ItemSays(item, env))
    decreases item
  {
    hide LogicValue, Gives, ComparisonTree, ComparisonSays, RegComparison, ClosedLogic;
    match item {
      case Compared(x) =>
        ComparisonClosed(names, tab, x, |values|);
        ComparisonMeans(names, tab, x, values, env);
      case Enclosed(w) =>
        WhereMeans(names, tab, w, values, env);
    }
  }

  // ----- From the tokens of a condition to the status of its run

  /** The parser reads the tokens as the condition, which has one operator on each level and connectives
      in parentheses only at the end, its variables fit the slots and its code the buffer. */
  ghost predicate Compilable(toks: seq<Token>, w: Where, size: nat, slots: nat) {
    && SingleWhere(w) && Nests(w.rest) && WhereAt(toks, 0, w)
    && |RegWhere([], w)| <= slots <= 0xFF && WhereNeed(RegWhere([], w), w) < size
  }

  /** What its code is the encoding of. */
  function Program(w: Where): Logic
    requires SingleWhere(w) && Nests(w.rest) && |RegWhere([], w)| <= 0xFF
  {
    Built(RegWhere([], w), [], w)
  }

  lemma CompilableStart(toks: seq<Token>, w: Where, size: nat, slots: nat)
    requires Compilable(toks, w, size, slots)
    ensures CanWhere(Context(toks, size, slots, RegWhere([], w)), Lvm.Snap(0, [], [], false), 0, w)
    ensures Outcome(w.rest) == OK
    ensures CodeWhere(RegWhere([], w), [], w) == EncLogic(Program(w))
    ensures WfLogic(Program(w)) && !Program(w).LogicJunk? && ClosedLogic(Program(w), slots)
  {
    hide EncLogic, RegWhere, SingleWhere, WhereAt, ClosedLogic, WfLogic, CodeWhere, Built;
    EncodesNothing();
    BuiltEncodes(RegWhere([], w), [], w);
    WhereClosed([], RegWhere([], w), [], w, slots);
    SingleOutcome(w);
  }

  lemma SingleOutcome(w: Where)
    requires SingleWhere(w)
    ensures Outcome(w.rest) == OK
  {
    ChainOutcome(w.rest);
  }

  lemma {:induction false} ChainOutcome(t: Chain)
    requires SingleChain(t)
    ensures Outcome(t) == OK
    decreases t
  {
    if t.Link? {
      assert SingleItem(t.item);
      ChainOutcome(t.rest);
    }
  }

  /** The code of a condition in a new machine. */
  method Compile(toks: seq<Token>, size: nat, slots: byte, ghost w: Where) returns (p: Lvm.Machine)
    requires Compilable(toks, w, size, slots)
    ensures fresh(p) && fresh(p.code) && p.Valid() && p.slots == slots
    ensures p.names == RegWhere([], w) && p.ip == 0
    ensures var code := EncLogic(Program(w));
      p.end == |code| <= p.code.Length && p.code[..p.end] == code
  {
    hide EncLogic, RegWhere, SingleWhere, CanWhere, WhereAt, WhereEnd, CodeWhere, Program, Nests, Outcome;
    CompilableStart(toks, w, size, slots);
    p := new Lvm.Machine(size, slots);
    var parser := new Parser(toks, p);
    assert p.State() == Lvm.Snap(0, [], [], false);
    var _ := parser.ParseWhere(w, RegWhere([], w));
  }

  /** Compiles a condition, gives its variables values and runs it: the run returns the value of the tree
      that is built, which is what the condition says of the values of its names if no enclosed condition
      has connectives, and reads exactly the compiled code. */
  method CompileAndRun(toks: seq<Token>, size: nat, slots: byte, values: seq<long>, ghost w: Where,
                       ghost env: Assignment)
    returns (status: int, end: nat, consumed: nat)
    requires |values| == slots && Compilable(toks, w, size, slots)
    ensures ClosedLogic(Program(w), slots) && status == LogicValue(Program(w), values)
    ensures Flat(w.rest) ==> Program(w) == Meant(RegWhere([], w), w)
    ensures Flat(w.rest) && Gives(env, RegWhere([], w), values) ==> status == Status(WhereSays(w, env))
    ensures !IsError(status) ==> consumed == end
  {
    hide EncLogic, RegWhere, SingleWhere, ClosedLogic, WfLogic, LogicValue, WhereAt, Meant, Gives, WhereSays;
    CompilableStart(toks, w, size, slots);
    var p := Compile(toks, size, slots, w);
    p.values := values;
    status := RunProgram(p, w, env);
    end, consumed := p.end, p.ip;
  }

  /** Runs a compiled condition. */
  method RunProgram(p: Lvm.Machine, ghost w: Where, ghost env: Assignment) returns (status: int)
    requires p.Valid() && SingleWhere(w) && Nests(w.rest) && |RegWhere([], w)| <= p.slots
    requires WfLogic(Program(w)) && !Program(w).LogicJunk? && ClosedLogic(Program(w), p.slots)
    requires var code := EncLogic(Program(w)); p.end == |code| <= p.code.Length && p.code[..p.end] == code
    modifies p`ip
    ensures p.Valid() && status == LogicValue(Program(w), p.values)
    ensures Flat(w.rest) ==> Program(w) == Meant(RegWhere([], w), w)
    ensures Flat(w.rest) && Gives(env, RegWhere([], w), p.values) ==> status == Status(WhereSays(w, env))
    ensures !IsError(status) ==> p.ip == p.end
  {
    hide EncLogic, RegWhere, SingleWhere, ClosedLogic, WfLogic, LogicValue, Meant, Program, Gives, WhereSays, Nests, Flat;
    ProgramIsMeant(w);
    ghost var t := Program(w);
    assert p.code[..][0..0 + |EncLogic(t)|] == p.code[..p.end];
    status := p.Execute(t);
    if Flat(w.rest) && Gives(env, RegWhere([], w), p.values) {
      WhereMeans([], RegWhere([], w), w, p.values, env);
    }
  }

  /** Asks a condition of named values: compiles it, sets the value of each of its variables by its name,
      and runs it. The answer is what the condition says. */
  method Ask(toks: seq<Token>, size: nat, slots: byte, env: Assignment, ghost w: Where) returns (status: int)
    requires Compilable(toks, w, size, slots) && Flat(w.rest)
    ensures status == Status(WhereSays(w, env))
  {
    hide EncLogic, RegWhere, SingleWhere, ClosedLogic, WfLogic, LogicValue, WhereAt, Meant, Program, WhereSays, Flat,
         Gives, WhereNeed;
    CompilableStart(toks, w, size, slots);
    var p := Compile(toks, size, slots, w);
    SetValues(p, env);
    status := RunProgram(p, w, env);
  }

  /** Sets the value of every variable by its name. */
  method SetValues(p: Lvm.Machine, env: Assignment)
    requires p.Valid()
    modifies p`values
    ensures p.Valid() && Gives(env, p.names, p.values)
  {
    hide Lvm.IndexOf;
    for i := 0 to |p.names|
      invariant p.Valid()
      invariant forall k | 0 <= k < i :: p.values[Slot(p.names, k)] == env(p.names[k])
    {
      ghost var before := p.values;
      var _ := p.SetVariableValue(p.names[i], env(p.names[i]));
      assert Slot(p.names, i) < p.slots;
      forall k | 0 <= k < i
        ensures p.values[Slot(p.names, k)] == env(p.names[k])
      {
        assert before[Slot(p.names, k)] == env(p.names[k]);
        if Slot(p.names, k) == Slot(p.names, i) {
          SameName(p.names, k, i);
        }
      }
    }
    AllGiven(env, p.names, p.values);
  }

  /** The place of the name that stands at `k`, its first one. */
  function Slot(names: seq<string>, k: nat): (i: nat)
    requires k < |names|
    ensures i < |names| && names[i] == names[k]
  {
    Lvm.IndexOfUnique(names, names[k], Lvm.IndexOf(names, names[k]));
    Lvm.IndexOf(names, names[k])
  }

  lemma SameName(names: seq<string>, j: nat, k: nat)
    requires j < |names| && k < |names| && Slot(names, j) == Slot(names, k)
    ensures names[j] == names[k]
  {
  }

  lemma AllGiven(env: Assignment, tab: Table, values: seq<long>)
    requires |tab| <= |values| && forall k | 0 <= k < |tab| :: values[Slot(tab, k)] == env(tab[k])
    ensures Gives(env, tab, values)
  {
    forall name | name in tab
      ensures Lvm.IndexOf(tab, name) < |values| && values[Lvm.IndexOf(tab, name)] == env(name)
    {
      var k :| 0 <= k < |tab| && tab[k] == name;
      assert values[Slot(tab, k)] == env(tab[k]);
    }
  }

  lemma ProgramIsMeant(w: Where)
    requires SingleWhere(w) && Nests(w.rest) && |RegWhere([], w)| <= 0xFF
    ensures Flat(w.rest) ==> Program(w) == Meant(RegWhere([], w), w)
  {
    hide ComparisonTree, SingleComparison, RegWhere;
    if Flat(w.rest) {
      var head := ComparisonTree(RegWhere([], w), w.first);
      Unfilled(head);
      FlatIsMeant(RegWhere([], w), [], head, w.rest);
      Unfilled(Meant(RegWhere([], w), w));
    }
  }
}
