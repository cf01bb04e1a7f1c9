/** Value ranges of variables, inferred from the code of a condition so that an index can be
    searched for them. */
module Derivation {
  import opened Bytes
  import opened LvmCode
  import opened LvmMeaning
  import Lvm

  datatype Range = Range(derived: bool, min: long, max: long)

  const NOTHING := Range(false, 0, 0)

  datatype Result = Derived(ranges: seq<Range>) | Underivable

  function Max(a: long, b: long): long { if a > b then a else b }
  function Min(a: long, b: long): long { if a < b then a else b }

  // ----- Combining ranges

  /** What is stored where two ranges meet: the one that was derived, or both their values. */
  function Meet(prior: Range, d1: Range, d2: Range): Range {
    if !d1.derived && !d2.derived then prior
    else if !d2.derived then d1
    else if !d1.derived then d2
    else Range(true, Max(d1.min, d2.min), Min(d1.max, d2.max))
  }

  function Join(prior: Range, d1: Range, d2: Range): Range {
    if !d1.derived && !d2.derived then prior
    else if !d2.derived then d1
    else if !d1.derived then d2
    else Range(true, Min(d1.min, d2.min), Max(d1.max, d2.max))
  }

  method CreateIntersection(result: array<Range>, d1: array<Range>, d2: array<Range>)
    requires result.Length == d1.Length == d2.Length && result != d1 && result != d2
    modifies result
    ensures forall i | 0 <= i < result.Length :: result[i] == Meet(old(result[i]), d1[i], d2[i])
  {
    for i := 0 to result.Length
      invariant forall k | 0 <= k < i :: result[k] == Meet(old(result[k]), d1[k], d2[k])
      invariant forall k | i <= k < result.Length :: result[k] == old(result[k])
      invariant unchanged(d1) && unchanged(d2)
    {
      if !d1[i].derived && !d2[i].derived {
        continue;
      } else if d1[i].derived && !d2[i].derived {
        result[i] := result[i].(min := d1[i].min, max := d1[i].max);
      } else if !d1[i].derived && d2[i].derived {
        result[i] := result[i].(min := d2[i].min, max := d2[i].max);
      } else {
        var min := if d1[i].min > d2[i].min then d1[i].min else d2[i].min;
        var max := if d1[i].max < d2[i].max then d1[i].max else d2[i].max;
        result[i] := result[i].(min := min, max := max);
      }
      result[i] := result[i].(derived := true);
    }
  }

  method CreateUnion(result: array<Range>, d1: array<Range>, d2: array<Range>)
    requires result.Length == d1.Length == d2.Length && result != d1 && result != d2
    modifies result
    ensures forall i | 0 <= i < result.Length :: result[i] == Join(old(result[i]), d1[i], d2[i])
  {
    for i := 0 to result.Length
      invariant forall k | 0 <= k < i :: result[k] == Join(old(result[k]), d1[k], d2[k])
      invariant forall k | i <= k < result.Length :: result[k] == old(result[k])
      invariant unchanged(d1) && unchanged(d2)
    {
      if !d1[i].derived && !d2[i].derived {
        continue;
      } else if d1[i].derived && !d2[i].derived {
        result[i] := result[i].(min := d1[i].min, max := d1[i].max);
      } else if !d1[i].derived && d2[i].derived {
        result[i] := result[i].(min := d2[i].min, max := d2[i].max);
      } else {
        var min := if d1[i].min > d2[i].min then d2[i].min else d1[i].min;
        var max := if d1[i].max < d2[i].max then d2[i].max else d1[i].max;
        result[i] := result[i].(min := min, max := max);
      }
      result[i] := result[i].(derived := true);
    }
  }

  // ----- The ranges of a condition

  /** The range of a variable that stands in `op` against the value `v`. */
  function RangeOf(op: word, v: long): Range
    requires Ordered(op)
  {
    if op == LVM_EQ then Range(true, v, v)
    else if op == LVM_GE then Range(true, Wrap32(v + 1), LONG_MAX)
    else if op == LVM_GEQ then Range(true, v, LONG_MAX)
    else if op == LVM_LE then Range(true, LONG_MIN, Wrap32(v - 1))
    else Range(true, LONG_MIN, v)
  }

  predicate Ordered(op: word) { op == LVM_EQ || op == LVM_GE || op == LVM_GEQ || op == LVM_LE || op == LVM_LEQ }

  function Blank(slots: nat): (s: seq<Range>)
    ensures |s| == slots
  {
    seq(slots, i => NOTHING)
  }

  /** A comparison of two operands, not both variables. When the left one is no variable, the
      right one is taken for one, whatever it is, and the operator is not turned around. */
  function CompareRanges(op: word, l: Operand, r: Operand, slots: nat): Result {
    if l.kind == LVM_VARIABLE && r.kind == LVM_VARIABLE then Underivable
    else
      var (id, v) := if l.kind == LVM_VARIABLE then (l.Id(), r.value) else (r.Id(), l.value);
      if id >= slots || !Ordered(op) then Underivable
      else Derived(Blank(slots)[id := RangeOf(op, v)])
  }

  function Combined(op: word, x: Result, y: Result, slots: nat): (r: Result)
    requires x.Derived? ==> |x.ranges| == slots
    requires y.Derived? ==> |y.ranges| == slots
    ensures r.Derived? ==> |r.ranges| == slots
  {
    if x.Underivable? || y.Underivable? then Underivable
    else if op == LVM_AND then Derived(seq(slots, i requires 0 <= i < slots => Meet(NOTHING, x.ranges[i], y.ranges[i])))
    else Derived(seq(slots, i requires 0 <= i < slots => Join(NOTHING, x.ranges[i], y.ranges[i])))
  }

  lemma CombinedFails(op: word, x: Result, y: Result, slots: nat)
    requires x.Derived? ==> |x.ranges| == slots
    requires y.Derived? ==> |y.ranges| == slots
    ensures x.Underivable? || y.Underivable? ==> Combined(op, x, y, slots).Underivable?
  {
  }

  function Ranges(t: Logic, slots: nat): (r: Result)
    ensures r.Derived? ==> |r.ranges| == slots
  {
    match t
    case Connect(op, a, b) =>
      if op != LVM_AND && op != LVM_OR then Underivable
      else Combined(op, Ranges(a, slots), Ranges(b, slots), slots)
    case Compare(op, Leaf(l), Leaf(r)) => CompareRanges(op, l, r, slots)
    case _ => Underivable
  }

  lemma InCode(code: seq<byte>, ip: nat, s: seq<byte>)
    requires At(code, ip, s)
    ensures ip + |s| <= |code|
  {
  }

  lemma ConnectiveNext(t: Logic, slots: nat)
    requires WfLogic(t) && NoLogicJunk(t) && !t.Compare?
    ensures t.Connect? || t.Not?
    ensures t.Connect? ==> WfLogic(t.a) && WfLogic(t.b) && NoLogicJunk(t.a) && NoLogicJunk(t.b)
    ensures t.Connect? && (t.op == LVM_AND || t.op == LVM_OR) ==>
      Ranges(t, slots) == Combined(t.op, Ranges(t.a, slots), Ranges(t.b, slots), slots)
    ensures !(t.Connect? && (t.op == LVM_AND || t.op == LVM_OR)) ==> Ranges(t, slots) == Underivable
  {
  }

  /** Derives ranges from the code at the instruction pointer into a table that is blank. */
  method DeriveRelation(p: Lvm.Machine, local: array<Range>, ghost t: Logic) returns (status: int)
    requires p.Valid() && WfLogic(t) && NoLogicJunk(t) && At(p.code[..], p.ip, EncLogic(t))
    requires local.Length == p.slots && local[..] == Blank(p.slots)
    modifies p`ip, local
    ensures p.Valid() && p.ip <= p.code.Length
    ensures match Ranges(t, p.slots)
      case Derived(ranges) => status == TRUE && local[..] == ranges && p.ip == old(p.ip) + |EncLogic(t)|
      case Underivable => status == DERIVATION_ERROR
    decreases t, 1
  {
    hide EncLogic, EncNode, Dec16, Blank, Combined, CompareRanges, Ranges, At, WfLogic, NoLogicJunk, Lvm.EncArguments,
         Lvm.LogicOp, IsConnective;
    RelationNext(t);
    Lvm.LogicAt(p.code[..], p.ip, t);
    var nodeType := p.GetWord();
    var operator := p.GetWord();
    if IsConnective(operator) {
      status := DeriveConnective(p, operator, local, t);
    } else {
      status := DeriveComparison(p, operator, local, t.left, t.right);
    }
  }

  lemma RelationNext(t: Logic)
    requires WfLogic(t) && NoLogicJunk(t)
    ensures !t.LogicJunk? && (IsConnective(Lvm.LogicOp(t)) <==> !t.Compare?)
    ensures t.Compare? ==>
      && t == Compare(Lvm.LogicOp(t), t.left, t.right) && WfNode(t.left) && WfNode(t.right)
      && Lvm.EncArguments(t) == EncNode(t.left) + EncNode(t.right)
  {
  }

  method DeriveConnective(p: Lvm.Machine, operator: word, local: array<Range>, ghost t: Logic) returns (status: int)
    requires p.Valid() && WfLogic(t) && NoLogicJunk(t) && !t.Compare?
    requires operator == Lvm.LogicOp(t) && At(p.code[..], p.ip, Lvm.EncArguments(t))
    requires local.Length == p.slots && local[..] == Blank(p.slots)
    modifies p`ip, local
    ensures p.Valid() && p.ip <= p.code.Length
    ensures match Ranges(t, p.slots)
      case Derived(ranges) => status == TRUE && local[..] == ranges && p.ip == old(p.ip) + |Lvm.EncArguments(t)|
      case Underivable => status == DERIVATION_ERROR
    decreases t, 0
  {
    hide EncLogic, Meet, Join, At, Dec16, IsConnective, Ranges, WfLogic, NoLogicJunk, Combined, Blank;
    ConnectiveNext(t, p.slots);
    InCode(p.code[..], p.ip, Lvm.EncArguments(t));
    if operator != LVM_AND && operator != LVM_OR {
      return DERIVATION_ERROR;
    }
    AtSplit(p.code[..], p.ip, EncLogic(t.a), EncLogic(t.b));
    ghost var bytes := p.code[..];
    ghost var x, y := Ranges(t.a, p.slots), Ranges(t.b, p.slots);
    CombinedFails(operator, x, y, p.slots);
    var d1 := NewTable(p.slots);
    var d2 := NewTable(p.slots);
    assert p.code[..] == bytes;
    status := DeriveRelation(p, d1, t.a);
    if IsError(status) {
      return DERIVATION_ERROR;
    }
    assert p.code[..] == bytes && d2[..] == Blank(p.slots);
    status := DeriveRelation(p, d2, t.b);
    if IsError(status) {
      return DERIVATION_ERROR;
    }
    Combine(operator, local, d1, d2);
    status := TRUE;
  }

  method NewTable(slots: nat) returns (d: array<Range>)
    ensures fresh(d) && d.Length == slots && d[..] == Blank(slots)
  {
    d := new Range[slots](i => NOTHING);
  }

  method Combine(operator: word, local: array<Range>, d1: array<Range>, d2: array<Range>)
    requires local.Length == d1.Length == d2.Length && local != d1 && local != d2 && local[..] == Blank(local.Length)
    modifies local
    ensures Combined(operator, Derived(old(d1[..])), Derived(old(d2[..])), local.Length) == Derived(local[..])
  {
    if operator == LVM_AND {
      CreateIntersection(local, d1, d2);
    } else {
      CreateUnion(local, d1, d2);
    }
  }

  lemma ComparisonNext(op: word, l: Node, r: Node, slots: nat)
    ensures Ranges(Compare(op, l, r), slots) ==
      if l.Leaf? && r.Leaf? then CompareRanges(op, l.operand, r.operand, slots) else Underivable
    ensures l.Leaf? && r.Leaf? && l.operand.kind == LVM_VARIABLE && r.operand.kind == LVM_VARIABLE ==>
      CompareRanges(op, l.operand, r.operand, slots) == Underivable
    ensures l.Leaf? && r.Leaf? && !(l.operand.kind == LVM_VARIABLE && r.operand.kind == LVM_VARIABLE) ==>
      var id := if l.operand.kind == LVM_VARIABLE then l.operand.Id() else r.operand.Id();
      var v := if l.operand.kind == LVM_VARIABLE then r.operand.value else l.operand.value;
      CompareRanges(op, l.operand, r.operand, slots) ==
      if id >= slots || !Ordered(op) then Underivable else Derived(Blank(slots)[id := RangeOf(op, v)])
  {
  }

  /** Reads an operand, if that is what stands at the instruction pointer. */
  method ReadOperand(p: Lvm.Machine, ghost n: Node) returns (ok: bool, o: Operand)
    requires p.Valid() && WfNode(n) && At(p.code[..], p.ip, EncNode(n))
    modifies p`ip
    ensures p.Valid() && p.ip <= p.code.Length && ok == n.Leaf?
    ensures ok ==> n == Leaf(o) && p.ip == old(p.ip) + |EncNode(n)|
  {
    hide Dec16, Dec32, EncOp, Enc16, Enc32;
    if n.Arith? {
      Lvm.ArithAt(p.code[..], p.ip, n);
    } else if n.Leaf? {
      Lvm.LeafAt(p.code[..], p.ip, n);
    } else {
      Lvm.JunkAt(p.code[..], p.ip, n.nodeType);
    }
    o := Operand(LVM_LONG, 0);
    var nodeType := p.GetWord();
    ok := nodeType == LVM_OPERAND;
    if ok {
      o := p.GetOperand();
    }
  }

  method DeriveComparison(p: Lvm.Machine, op: word, local: array<Range>, ghost l: Node,
                          ghost r: Node) returns (status: int)
    requires p.Valid() && WfNode(l) && WfNode(r) && At(p.code[..], p.ip, EncNode(l) + EncNode(r))
    requires local.Length == p.slots && local[..] == Blank(p.slots)
    modifies p`ip, local
    ensures p.Valid() && p.ip <= p.code.Length
    ensures match Ranges(Compare(op, l, r), p.slots)
      case Derived(ranges) =>
        status == TRUE && local[..] == ranges && p.ip == old(p.ip) + |EncNode(l)| + |EncNode(r)|
      case Underivable => status == DERIVATION_ERROR
  {
    hide EncNode, Dec16, Dec32, Ranges, Blank, CompareRanges, At, WfNode, RangeOf;
    InCode(p.code[..], p.ip, EncNode(l) + EncNode(r));
    AtSplit(p.code[..], p.ip, EncNode(l), EncNode(r));
    ComparisonNext(op, l, r, p.slots);
    ghost var start := p.ip;
    var operand: seq<Operand> := [];
    for i := 0 to 2
      invariant |operand| == i && p.Valid() && p.ip <= p.code.Length && local[..] == Blank(p.slots)
      invariant p.ip == start + (if i >= 1 then |EncNode(l)| else 0) + (if i == 2 then |EncNode(r)| else 0)
      invariant (i >= 1 ==> l == Leaf(operand[0])) && (i == 2 ==> r == Leaf(operand[1]))
    {
      var ok, o := ReadOperand(p, if i == 0 then l else r);
      if !ok {
        return DERIVATION_ERROR;
      }
      operand := operand + [o];
    }
    if operand[0].kind == LVM_VARIABLE && operand[1].kind == LVM_VARIABLE {
      return DERIVATION_ERROR;
    }
    var variableId, value := operand[1].Id(), operand[0].value;
    if operand[0].kind == LVM_VARIABLE {
      variableId, value := operand[0].Id(), operand[1].value;
    }
    if variableId >= p.slots {
      return DERIVATION_ERROR;
    }
    status := SetRange(op, local, variableId, value);
  }

  method SetRange(op: word, local: array<Range>, id: nat, value: long) returns (status: int)
    requires id < local.Length
    modifies local
    ensures if Ordered(op) then status == TRUE && local[..] == old(local[..])[id := RangeOf(op, value)]
            else status == DERIVATION_ERROR
  {
    local[id] := local[id].(min := LONG_MIN, max := LONG_MAX);
    if op == LVM_EQ {
      local[id] := local[id].(min := value, max := value);
    } else if op == LVM_GE {
      local[id] := local[id].(min := Wrap32(value + 1));
    } else if op == LVM_GEQ {
      local[id] := local[id].(min := value);
    } else if op == LVM_LE {
      local[id] := local[id].(max := Wrap32(value - 1));
    } else if op == LVM_LEQ {
      local[id] := local[id].(max := value);
    } else {
      return DERIVATION_ERROR;
    }
    local[id] := local[id].(derived := true);
    status := TRUE;
  }

  ghost predicate NoLogicJunk(t: Logic) {
    match t
    case Connect(_, a, b) => NoLogicJunk(a) && NoLogicJunk(b)
    case Not(a) => NoLogicJunk(a)
    case Compare(_, _, _) => true
    case LogicJunk(_) => false
  }

  // ----- What the ranges say about the values

  ghost predicate InRange(d: Range, v: long) { d.derived ==> d.min <= v <= d.max }

  ghost predicate InRanges(d: seq<Range>, env: seq<long>)
    requires |d| == |env|
  {
    forall i | 0 <= i < |d| :: InRange(d[i], env[i])
  }

  /** Comparisons have a variable on the left and a literal on the right. */
  ghost predicate VariableFirst(t: Logic) {
    match t
    case Connect(_, a, b) => VariableFirst(a) && VariableFirst(b)
    case Compare(_, Leaf(l), Leaf(r)) => l.kind == LVM_VARIABLE && r.kind == LVM_LONG
    case _ => false
  }

  ghost predicate OnlyAnd(t: Logic) {
    t.Connect? ==> t.op == LVM_AND && OnlyAnd(t.a) && OnlyAnd(t.b)
  }

  /** The variables a condition mentions. */
  ghost function Mentioned(t: Logic): set<int> {
    match t
    case Connect(_, a, b) => Mentioned(a) + Mentioned(b)
    case Compare(_, Leaf(l), Leaf(_)) => {l.Id()}
    case _ => {}
  }

  /** Both sides of every OR mention the same variables. */
  ghost predicate EvenOrs(t: Logic) {
    t.Connect? ==> EvenOrs(t.a) && EvenOrs(t.b) && (t.op != LVM_AND ==> Mentioned(t.a) == Mentioned(t.b))
  }

  lemma {:induction false} DerivedAreMentioned(t: Logic, slots: nat, i: nat)
    requires VariableFirst(t) && Ranges(t, slots).Derived? && i < slots
    ensures Ranges(t, slots).ranges[i].derived <==> i in Mentioned(t)
  {
    if t.Connect? {
      DerivedAreMentioned(t.a, slots, i);
      DerivedAreMentioned(t.b, slots, i);
    }
  }

  lemma TrueIsTruth(t: Logic, env: seq<long>)
    requires t.Connect? && ClosedLogic(t, |env|) && LogicValue(t, env) == TRUE
    ensures t.op == LVM_AND ==> LogicValue(t.a, env) == TRUE && LogicValue(t.b, env) == TRUE
    ensures LogicValue(t.a, env) == TRUE || LogicValue(t.b, env) == TRUE
  {
  }

  /** A row that meets the condition has every derived variable in its range. */
  lemma {:induction false} DerivationIsSound(t: Logic, env: seq<long>)
    requires VariableFirst(t) && EvenOrs(t) && ClosedLogic(t, |env|)
    requires Ranges(t, |env|).Derived? && LogicValue(t, env) == TRUE
    ensures InRanges(Ranges(t, |env|).ranges, env)
  {
    if t.Connect? {
      TrueIsTruth(t, env);
      if LogicValue(t.a, env) == TRUE { DerivationIsSound(t.a, env); }
      if LogicValue(t.b, env) == TRUE { DerivationIsSound(t.b, env); }
      forall i | 0 <= i < |env|
        ensures InRange(Ranges(t, |env|).ranges[i], env[i])
      {
        DerivedAreMentioned(t.a, |env|, i);
        DerivedAreMentioned(t.b, |env|, i);
      }
    }
  }

  /** Literals at which an open bound wraps around: nothing is greater than the greatest value. */
  ghost predicate Wraps(op: word, v: long) {
    (op == LVM_GE && v == LONG_MAX) || (op == LVM_LE && v == LONG_MIN)
  }

  ghost predicate NoWraps(t: Logic) {
    match t
    case Connect(_, a, b) => NoWraps(a) && NoWraps(b)
    case Compare(op, _, Leaf(r)) => !Wraps(op, r.value)
    case _ => true
  }

  /** One comparison: its variable's range is exactly what the comparison demands, for every
      value, if and only if its bound does not wrap around. */
  lemma RangeIsExact(op: word, v: long)
    requires Ordered(op)
    ensures (forall x: long :: CompareValues(op, x, v) == TRUE <==> InRange(RangeOf(op, v), x)) <==> !Wraps(op, v)
  {
    if Wraps(op, v) {
      assert CompareValues(op, 0, v) != TRUE && InRange(RangeOf(op, v), 0);
    }
  }

  /** A table of both sides' ranges holds what both tables hold. */
  lemma AndRanges(x: Result, y: Result, env: seq<long>)
    requires x.Derived? && y.Derived? && |x.ranges| == |y.ranges| == |env|
    ensures var z := Combined(LVM_AND, x, y, |env|);
      z.Derived? && |z.ranges| == |env| && (InRanges(z.ranges, env) <==> InRanges(x.ranges, env) && InRanges(y.ranges, env))
  {
    var z := Combined(LVM_AND, x, y, |env|).ranges;
    assert forall i | 0 <= i < |env| :: InRange(z[i], env[i]) <==> InRange(x.ranges[i], env[i]) && InRange(y.ranges[i], env[i]);
  }

  lemma FragmentNext(t: Logic, slots: nat)
    requires VariableFirst(t) && OnlyAnd(t) && NoWraps(t) && ClosedLogic(t, slots) && Ranges(t, slots).Derived?
    ensures t.Connect? || t.Compare?
    ensures t.Connect? ==>
      && VariableFirst(t.a) && OnlyAnd(t.a) && NoWraps(t.a) && ClosedLogic(t.a, slots) && Ranges(t.a, slots).Derived?
      && VariableFirst(t.b) && OnlyAnd(t.b) && NoWraps(t.b) && ClosedLogic(t.b, slots) && Ranges(t.b, slots).Derived?
      && t.op == LVM_AND && Ranges(t, slots) == Combined(LVM_AND, Ranges(t.a, slots), Ranges(t.b, slots), slots)
  {
    hide CompareRanges, Blank;
    if t.Connect? {
      CombinedFails(t.op, Ranges(t.a, slots), Ranges(t.b, slots), slots);
    }
  }

  lemma ValueOfAnd(t: Logic, env: seq<long>)
    requires t.Connect? && t.op == LVM_AND && ClosedLogic(t, |env|)
    requires !IsError(LogicValue(t.a, env)) && !IsError(LogicValue(t.b, env))
    ensures !IsError(LogicValue(t, env))
    ensures LogicValue(t, env) == TRUE <==> LogicValue(t.a, env) == TRUE && LogicValue(t.b, env) == TRUE
  {
  }

  /** A conjunction holds if and only if every derived variable is in its range. */
  lemma {:induction false} ConjunctionIsExact(t: Logic, env: seq<long>)
    requires VariableFirst(t) && OnlyAnd(t) && NoWraps(t) && ClosedLogic(t, |env|)
    requires Ranges(t, |env|).Derived?
    ensures !IsError(LogicValue(t, env))
    ensures LogicValue(t, env) == TRUE <==> InRanges(Ranges(t, |env|).ranges, env)
  {
    hide Ranges, LogicValue, InRanges, VariableFirst, NoWraps, ClosedLogic, OnlyAnd, Combined;
    FragmentNext(t, |env|);
    if t.Connect? {
      ConjunctionIsExact(t.a, env);
      ConjunctionIsExact(t.b, env);
      ValueOfAnd(t, env);
      AndRanges(Ranges(t.a, |env|), Ranges(t.b, |env|), env);
    } else {
      ComparisonIsExact(t, env);
    }
  }

  lemma ComparisonIsExact(t: Logic, env: seq<long>)
    requires t.Compare? && VariableFirst(t) && NoWraps(t) && ClosedLogic(t, |env|) && Ranges(t, |env|).Derived?
    ensures !IsError(LogicValue(t, env))
    ensures LogicValue(t, env) == TRUE <==> InRanges(Ranges(t, |env|).ranges, env)
  {
    var d, id := Ranges(t, |env|).ranges, t.left.operand.Id();
    assert forall i | 0 <= i < |env| && i != id :: d[i] == NOTHING;
    assert d[id] == RangeOf(t.op, t.right.operand.value);
  }

  /** Joining two boxes: the union covers both if and only if a variable that only one of them
      bounds is not bounded at all. */
  lemma UnionIsSound(x: seq<Range>, y: seq<Range>, n: nat)
    requires |x| == |y| == n
    requires forall i | 0 <= i < n :: (x[i].derived ==> x[i].min <= x[i].max) && (y[i].derived ==> y[i].min <= y[i].max)
    ensures var z := seq(n, i requires 0 <= i < n => Join(NOTHING, x[i], y[i]));
      (forall env: seq<long> | |env| == n && (InRanges(x, env) || InRanges(y, env)) :: InRanges(z, env))
      <==> (forall i | 0 <= i < n :: OneSided(x[i], y[i]) ==> Full(Join(NOTHING, x[i], y[i])))
  {
    var z := seq(n, i requires 0 <= i < n => Join(NOTHING, x[i], y[i]));
    forall i | 0 <= i < n && OneSided(x[i], y[i]) && !Full(z[i])
      ensures exists env: seq<long> :: |env| == n && (InRanges(x, env) || InRanges(y, env)) && !InRanges(z, env)
    {
      var w := if x[i].derived then y else x;
      var out: long := if z[i].min > LONG_MIN then LONG_MIN else LONG_MAX;
      var env: seq<long> := seq(n, j requires 0 <= j < n => if j == i then out else if w[j].derived then w[j].min else 0);
      assert InRanges(w, env);
      assert !InRange(z[i], env[i]);
    }
  }

  /** Such a condition is `x > 5 OR y > 5`: the row with 0 and 10 meets it, and neither variable's range
      has the row where the other side alone is true. */
  lemma UnevenOr()
    ensures var env: seq<long> := [0, 10];
      var t := Connect(LVM_OR,
                       Compare(LVM_GE, Leaf(Operand(LVM_VARIABLE, 0)), Leaf(Operand(LVM_LONG, 5))),
                       Compare(LVM_GE, Leaf(Operand(LVM_VARIABLE, 1)), Leaf(Operand(LVM_LONG, 5))));
      && VariableFirst(t) && !EvenOrs(t) && ClosedLogic(t, 2)
      && LogicValue(t, env) == TRUE && Ranges(t, 2).Derived? && !InRanges(Ranges(t, 2).ranges, env)
  {
    var env: seq<long> := [0, 10];
    var t := Connect(LVM_OR,
                     Compare(LVM_GE, Leaf(Operand(LVM_VARIABLE, 0)), Leaf(Operand(LVM_LONG, 5))),
                     Compare(LVM_GE, Leaf(Operand(LVM_VARIABLE, 1)), Leaf(Operand(LVM_LONG, 5))));
    assert ClosedLogic(t.a, 2) && ClosedLogic(t.b, 2);
    assert Mentioned(t.a) == {0} && Mentioned(t.b) == {1} && 0 in Mentioned(t.a) && 0 !in Mentioned(t.b);
    assert Ranges(t.a, 2).Derived? && Ranges(t.b, 2).Derived?;
    assert !InRange(Ranges(t, 2).ranges[0], env[0]);
  }

  ghost predicate OneSided(a: Range, b: Range) { a.derived != b.derived }

  ghost predicate Full(d: Range) { d.min == LONG_MIN && d.max == LONG_MAX }

  /** With the literal on the left the operator is not turned around: the range then holds every
      value that meets the comparison just for equality and for some extreme literals. */
  lemma LiteralFirst(op: word, v: long)
    requires Ordered(op)
    ensures (forall x: long :: CompareValues(op, v, x) == TRUE ==> InRange(RangeOf(op, v), x))
      <==> op == LVM_EQ
           || ((op == LVM_GE || op == LVM_LE) && (v == LONG_MIN || v == LONG_MAX))
           || (op == LVM_GEQ && v == LONG_MIN) || (op == LVM_LEQ && v == LONG_MAX)
  {
    if op == LVM_GE && LONG_MIN < v < LONG_MAX {
      assert CompareValues(op, v, LONG_MIN) == TRUE && !InRange(RangeOf(op, v), LONG_MIN);
    } else if op == LVM_GEQ && LONG_MIN < v {
      assert CompareValues(op, v, LONG_MIN) == TRUE && !InRange(RangeOf(op, v), LONG_MIN);
    } else if op == LVM_LE && LONG_MIN < v < LONG_MAX {
      assert CompareValues(op, v, LONG_MAX) == TRUE && !InRange(RangeOf(op, v), LONG_MAX);
    } else if op == LVM_LEQ && v < LONG_MAX {
      assert CompareValues(op, v, LONG_MAX) == TRUE && !InRange(RangeOf(op, v), LONG_MAX);
    }
  }

  /** Two literals: the right one is taken for the number of a variable, which the left one then seems
      to bound. The range holds every row that meets the condition just if the condition is false, or
      the range is all there is. */
  lemma TwoLiterals(op: word, a: long, b: long, slots: nat)
    requires Ordered(op) && b % 0x100 < slots
    ensures var t := Compare(op, Leaf(Operand(LVM_LONG, a)), Leaf(Operand(LVM_LONG, b)));
      && Ranges(t, slots).Derived?
      && ((forall env: seq<long> | |env| == slots && LogicValue(t, env) == TRUE :: InRanges(Ranges(t, slots).ranges, env))
          <==> CompareValues(op, a, b) != TRUE || Everything(op, a))
  {
    hide Blank;
    var t := Compare(op, Leaf(Operand(LVM_LONG, a)), Leaf(Operand(LVM_LONG, b)));
    var d := RangeOf(op, a);
    assert Ranges(t, slots).ranges == Blank(slots)[b % 0x100 := d];
    assert forall i | 0 <= i < slots && i != b % 0x100 :: Ranges(t, slots).ranges[i] == NOTHING by {
      BlankIsNothing(slots);
    }
    if !Everything(op, a) {
      var out: long := if d.min > LONG_MIN then LONG_MIN else LONG_MAX;
      var env: seq<long> := seq(slots, i => out);
      assert !InRange(Ranges(t, slots).ranges[b % 0x100], env[b % 0x100]);
    }
  }

  /** The range holds every value. */
  predicate Everything(op: word, a: long) {
    || (op == LVM_GE && a == LONG_MAX) || (op == LVM_LE && a == LONG_MIN)
    || (op == LVM_GEQ && a == LONG_MIN) || (op == LVM_LEQ && a == LONG_MAX)
  }

  lemma BlankIsNothing(slots: nat)
    ensures forall i | 0 <= i < slots :: Blank(slots)[i] == NOTHING
  {
  }

  /** `x > 5 AND 0 = 0` has an empty range for its variable `x`, so that every row that meets it is
      outside. */
  lemma LiteralsBesideAVariable(env: seq<long>)
    requires |env| > 0 && env[0] > 5
    ensures var t := Connect(LVM_AND,
                             Compare(LVM_GE, Leaf(Operand(LVM_VARIABLE, 0)), Leaf(Operand(LVM_LONG, 5))),
                             Compare(LVM_EQ, Leaf(Operand(LVM_LONG, 0)), Leaf(Operand(LVM_LONG, 0))));
      && ClosedLogic(t, |env|) && LogicValue(t, env) == TRUE && Ranges(t, |env|).Derived?
      && Ranges(t, |env|).ranges[0] == Range(true, 6, 0) && !InRanges(Ranges(t, |env|).ranges, env)
  {
    var t := Connect(LVM_AND,
                     Compare(LVM_GE, Leaf(Operand(LVM_VARIABLE, 0)), Leaf(Operand(LVM_LONG, 5))),
                     Compare(LVM_EQ, Leaf(Operand(LVM_LONG, 0)), Leaf(Operand(LVM_LONG, 0))));
    assert ClosedLogic(t.a, |env|) && ClosedLogic(t.b, |env|);
    assert Ranges(t.a, |env|).Derived? && Ranges(t.b, |env|).Derived?;
    assert !InRange(Ranges(t, |env|).ranges[0], env[0]);
  }
}
