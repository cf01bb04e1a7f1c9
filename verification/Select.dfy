/** Selection: the choice of an index, and the step machine that emits the rows of a relation
    that meet a condition, from a scan or from an index. */
module Select {
  import opened Bytes
  import opened LvmCode
  import opened LvmMeaning
  import Lvm
  import Derivation
  import InlineIndex

  const DB_FINISHED: int := 3
  const DB_GOT_ROW: int := 2
  const DB_OK: int := 1
  const DB_INDEX_ERROR: int := -9
  // The row buffer was read although no row had been read into it.
  const UNDEFINED: int := 0

  // ----- The choice of an index

  /** Targets have an `int` of 16 bits, or one as wide as a `long`. */
  datatype Width = Int16 | Int32

  /** An `int` keeps the low bits of a bound. */
  function ToInt(v: long, w: Width): (r: long)
    ensures w.Int16? ==> -0x8000 <= r < 0x8000 && (r - v) % 0x1_0000 == 0
    ensures w.Int32? ==> r == v
  {
    if w.Int16? then (v + 0x8000) % 0x1_0000 - 0x8000 else v
  }

  /** The attributes in order: whether each has an index, and its derived range. */
  datatype Candidate = Candidate(indexed: bool, range: Derivation.Range) {
    predicate Usable() { indexed && range.derived }
    function Width(): int { (range.max - range.min) % 0x1_0000_0000 }
  }

  /** The last usable attribute, or the number of attributes when there is none. */
  function LastUsable(cs: seq<Candidate>): (i: nat)
    ensures i <= |cs|
  {
    if cs == [] then 0
    else if cs[|cs| - 1].Usable() then |cs| - 1
    else
      var i := LastUsable(cs[..|cs| - 1]);
      if i == |cs| - 1 then |cs| else i
  }

  /** Picks the attribute whose index is searched. The smallest width so far is compared against
      but never recorded. */
  method SelectIndex(cs: seq<Candidate>) returns (chosen: nat)
    ensures chosen == LastUsable(cs)
  {
    chosen := |cs|;
    var minRange := 0xFFFF_FFFF;
    for i := 0 to |cs|
      invariant LastUsable(cs[..i]) == if chosen == |cs| then i else chosen
      invariant chosen == |cs| || chosen < i
    {
      assert cs[..i + 1][..i] == cs[..i];
      if cs[i].Usable() {
        var range := cs[i].Width();
        if range <= minRange {
          chosen := i;
        }
      }
    }
    assert cs[..|cs|] == cs;
  }

  /** The choice is meant to be the usable attribute with the smallest range. It is the one behind all
      others, whatever their ranges are. */
  lemma {:induction false} ChoosesTheLast(cs: seq<Candidate>, k: nat)
    requires k < |cs| && cs[k].Usable()
    ensures k <= LastUsable(cs) < |cs| && cs[LastUsable(cs)].Usable()
  {
    if !cs[|cs| - 1].Usable() {
      ChoosesTheLast(cs[..|cs| - 1], k);
    }
  }

  /** Of two usable attributes the second is chosen, however narrow the range of the first is. */
  lemma NarrowerRangeLosesOut(a: Derivation.Range, b: Derivation.Range)
    requires a.derived && b.derived
    ensures LastUsable([Candidate(true, a), Candidate(true, b)]) == 1
  {
  }

  // ----- Rows and conditions

  type Row = seq<long>

  /** Where `xs` has `x` first. */
  function Place(xs: seq<string>, x: string): nat { Lvm.IndexOf(xs, x) }

  ghost predicate Distinct(xs: seq<string>) { forall i, j | 0 <= i < j < |xs| :: xs[i] != xs[j] }

  /** A selection: the relation, the attributes of its result with the columns they come from, and
      which of them are stored in the result, not just needed by the condition. */
  datatype Plan = Plan(rows: seq<Row>, attributes: seq<string>, columns: seq<nat>, stored: seq<bool>) {
    ghost predicate Valid() {
      && Distinct(attributes) && |columns| == |stored| == |attributes|
      && forall r, k | 0 <= r < |rows| && 0 <= k < |columns| :: columns[k] < |rows[r]|
    }

    /** The value that row `r` has for an attribute of the result. */
    function Value(r: nat, name: string): long
      requires Valid() && r < |rows| && name in attributes
    {
      rows[r][columns[Place(attributes, name)]]
    }

    /** The assignment of the condition's variables `vars` by row `r`. */
    function Env(r: nat, vars: seq<string>): seq<long>
      requires Valid() && r < |rows| && forall v | v in vars :: v in attributes
    {
      seq(|vars|, j requires 0 <= j < |vars| => Value(r, vars[j]))
    }

    function Project(r: nat, n: nat): seq<long>
      requires Valid() && r < |rows| && n <= |columns|
    {
      if n == 0 then []
      else Project(r, n - 1) + (if stored[n - 1] then [rows[r][columns[n - 1]]] else [])
    }
  }

  /** What a tuple of the result holds: the values of the stored attributes in their order, each of them
      behind as many others as stored attributes come before it. */
  ghost predicate HasStored(plan: Plan, r: nat, tuple: seq<long>)
    requires plan.Valid() && r < |plan.rows|
  {
    && |tuple| == |set i | 0 <= i < |plan.stored| && plan.stored[i]|
    && forall k | 0 <= k < |plan.stored| && plan.stored[k] ::
      var at := |set i | 0 <= i < k && plan.stored[i]|; at < |tuple| && tuple[at] == plan.rows[r][plan.columns[k]]
  }

  lemma ProjectHolds(plan: Plan, r: nat)
    requires plan.Valid() && r < |plan.rows|
    ensures HasStored(plan, r, plan.Project(r, |plan.columns|))
  {
    hide Plan.Project, StoredBefore;
    var n := |plan.columns|;
    StoredBeforeIs(plan.stored, n);
    ProjectSize(plan, r, n);
    forall k | 0 <= k < n && plan.stored[k]
      ensures var at := |set i | 0 <= i < k && plan.stored[i]|;
        at < |plan.Project(r, n)| && plan.Project(r, n)[at] == plan.rows[r][plan.columns[k]]
    {
      StoredBeforeIs(plan.stored, k);
      ProjectHasValue(plan, r, n, k);
    }
  }

  /** How many of the first `n` attributes are stored. */
  ghost function StoredBefore(stored: seq<bool>, n: nat): nat
    requires n <= |stored|
  {
    if n == 0 then 0 else StoredBefore(stored, n - 1) + if stored[n - 1] then 1 else 0
  }

  lemma {:induction false} StoredBeforeIs(stored: seq<bool>, n: nat)
    requires n <= |stored|
    ensures StoredBefore(stored, n) == |set i | 0 <= i < n && stored[i]|
  {
    if n > 0 {
      StoredBeforeIs(stored, n - 1);
      var before, all := set i | 0 <= i < n - 1 && stored[i], set i | 0 <= i < n && stored[i];
      assert all == if stored[n - 1] then before + {n - 1} else before;
    }
  }

  lemma {:induction false} ProjectSize(plan: Plan, r: nat, n: nat)
    requires plan.Valid() && r < |plan.rows| && n <= |plan.columns|
    ensures |plan.Project(r, n)| == StoredBefore(plan.stored, n)
  {
    if n > 0 {
      ProjectSize(plan, r, n - 1);
    }
  }

  lemma {:induction false} ProjectHasValue(plan: Plan, r: nat, n: nat, k: nat)
    requires plan.Valid() && r < |plan.rows| && k < n <= |plan.columns| && plan.stored[k]
    ensures var at := StoredBefore(plan.stored, k);
      at < |plan.Project(r, n)| && plan.Project(r, n)[at] == plan.rows[r][plan.columns[k]]
  {
    if k < n - 1 {
      ProjectHasValue(plan, r, n - 1, k);
    } else {
      ProjectSize(plan, r, k);
    }
  }

  lemma {:induction false} NodeAgrees(n: Node, env: seq<long>, env': seq<long>)
    requires ClosedNode(n, |env|) && env <= env'
    ensures ClosedNode(n, |env'|) && ExprValue(n, env') == ExprValue(n, env)
  {
    if n.Arith? {
      NodeAgrees(n.left, env, env');
      NodeAgrees(n.right, env, env');
    }
  }

  lemma {:induction false} LogicAgrees(t: Logic, env: seq<long>, env': seq<long>)
    requires ClosedLogic(t, |env|) && env <= env'
    ensures ClosedLogic(t, |env'|) && LogicValue(t, env') == LogicValue(t, env)
  {
    match t {
      case Connect(_, a, b) =>
        LogicAgrees(a, env, env');
        LogicAgrees(b, env, env');
      case Not(a) => LogicAgrees(a, env, env');
      case Compare(_, l, r) =>
        NodeAgrees(l, env, env');
        NodeAgrees(r, env, env');
      case LogicJunk(_) =>
    }
  }

  /** The condition `t` over the variables `vars` can be asked of every row. */
  ghost predicate Askable(plan: Plan, vars: seq<string>, t: Logic) {
    && plan.Valid() && Distinct(vars) && (forall v | v in vars :: v in plan.attributes)
    && WfLogic(t) && ClosedLogic(t, |vars|) && !t.LogicJunk?
  }

  ghost predicate Meets(plan: Plan, vars: seq<string>, t: Logic, wanted: int, r: nat)
    requires Askable(plan, vars, t) && r < |plan.rows|
  {
    LogicValue(t, plan.Env(r, vars)) == wanted
  }

  /** The rows from `from` up to `stop` that meet the condition, in order. */
  ghost function Matching(plan: Plan, vars: seq<string>, t: Logic, wanted: int, from: nat, stop: nat): seq<nat>
    requires Askable(plan, vars, t) && from <= stop <= |plan.rows|
    decreases stop - from
  {
    if from == stop then []
    else (if Meets(plan, vars, t, wanted, from) then [from] else []) + Matching(plan, vars, t, wanted, from + 1, stop)
  }

  // ----- The step machine

  /** The variables of the attributes before `k` have the values of row `r`. */
  ghost predicate Loaded(plan: Plan, names: seq<string>, values: seq<long>, r: nat, k: nat)
    requires plan.Valid() && r < |plan.rows| && |names| <= |values| && forall v | v in names :: v in plan.attributes
  {
    forall j | 0 <= j < |names| && Place(plan.attributes, names[j]) < k :: values[j] == plan.Value(r, names[j])
  }

  lemma AskableNames(plan: Plan, names: seq<string>, t: Logic)
    requires Askable(plan, names, t)
    ensures plan.Valid() && Distinct(names) && forall v | v in names :: v in plan.attributes
  {
  }

  lemma LoadsNothing(plan: Plan, names: seq<string>, values: seq<long>, r: nat)
    requires plan.Valid() && r < |plan.rows| && |names| <= |values| && forall v | v in names :: v in plan.attributes
    ensures Loaded(plan, names, values, r, 0)
  {
  }

  lemma LoadsColumn(plan: Plan, names: seq<string>, before: seq<long>, after: seq<long>, r: nat, k: nat, slots: nat)
    requires plan.Valid() && r < |plan.rows| && k < |plan.columns| && Distinct(names)
    requires |names| <= slots == |before| && forall v | v in names :: v in plan.attributes
    requires Loaded(plan, names, before, r, k)
    requires var id := Place(names, plan.attributes[k]);
      after == if id < slots then before[id := plan.rows[r][plan.columns[k]]] else before
    ensures Loaded(plan, names, after, r, k + 1)
  {
    forall j | 0 <= j < |names| && Place(plan.attributes, names[j]) < k + 1
      ensures after[j] == plan.Value(r, names[j])
    {
      OneSlot(plan.attributes, names, k, j);
    }
  }

  lemma ProjectsNothing(plan: Plan, r: nat)
    requires plan.Valid() && r < |plan.rows|
    ensures plan.Project(r, 0) == []
  {
  }

  lemma ProjectsMore(plan: Plan, r: nat, k: nat)
    requires plan.Valid() && r < |plan.rows| && k < |plan.columns|
    ensures plan.Project(r, k + 1)
      == if plan.stored[k] then plan.Project(r, k) + [plan.rows[r][plan.columns[k]]] else plan.Project(r, k)
  {
  }

  /** The variables have the values of the attributes that have their names. */
  lemma LoadedByName(plan: Plan, names: seq<string>, values: seq<long>, r: nat, j: nat, k: nat)
    requires plan.Valid() && r < |plan.rows| && forall v | v in names :: v in plan.attributes
    requires plan.Env(r, names) <= values && j < |names| && k < |plan.attributes| && names[j] == plan.attributes[k]
    ensures values[j] == plan.rows[r][plan.columns[k]]
  {
    Lvm.IndexOfUnique(plan.attributes, names[j], k);
    assert values[j] == plan.Env(r, names)[j];
  }

  lemma LoadsAll(plan: Plan, names: seq<string>, values: seq<long>, r: nat)
    requires plan.Valid() && r < |plan.rows| && |names| <= |values| && forall v | v in names :: v in plan.attributes
    requires Loaded(plan, names, values, r, |plan.columns|)
    ensures plan.Env(r, names) <= values
  {
    forall j | 0 <= j < |names|
      ensures values[j] == plan.Value(r, names[j])
    {
      assert names[j] in plan.attributes;
    }
  }

  class Selection {
    const plan: Plan
    const p: Lvm.Machine
    ghost const t: Logic
    const inverse: bool
    // The index that is searched, if one was chosen.
    const index: InlineIndex.Iterator?
    var tupleId: nat
    var tuple: seq<long>
    var currentRow: nat

    constructor (plan: Plan, p: Lvm.Machine, ghost t: Logic, inverse: bool, index: InlineIndex.Iterator?)
      requires p.Valid() && Askable(plan, p.names, t) && At(p.code[..], 0, EncLogic(t))
      requires index != null ==> index.Valid() && index.Fresh() && |index.column| == |plan.rows|
      ensures Valid() && this.plan == plan && this.p == p && this.t == t && this.inverse == inverse
      ensures this.index == index && tupleId == 0
    {
      this.plan, this.p, this.t, this.inverse, this.index := plan, p, t, inverse, index;
      tupleId, tuple, currentRow := 0, [], 0;
    }

    ghost predicate Valid()
      reads this, p, p.code, index
    {
      && p.Valid() && Askable(plan, p.names, t) && At(p.code[..], 0, EncLogic(t))
      && (index != null ==> index.Valid() && |index.column| == |plan.rows|)
    }

    function Wanted(): int { if inverse then FALSE else TRUE }

    /** The rows still to be asked: from the first number on, before the second. */
    ghost function Pending(): (nat, nat)
      requires Valid()
      reads this, p, p.code, index
    {
      if index != null then index.Pending()
      else (if tupleId <= |plan.rows| then tupleId else |plan.rows|, |plan.rows|)
    }

    /** The status behind the last row: an index search that finds nothing at all is an error. */
    ghost function EndStatus(): int
      reads this, index
    {
      if index == null then DB_FINISHED
      else match InlineIndex.RangeSearch(index.column, index.low, index.high)
        case SpanOutside => UNDEFINED
        case NoSpan => DB_INDEX_ERROR
        case Span(_, _) => DB_FINISHED
    }

    /** Sets the condition's variables to the row's values, and copies the stored ones. */
    method LoadRow(r: nat)
      requires Valid() && r < |plan.rows|
      modifies `tuple, p`values
      ensures Valid() && plan.Env(r, p.names) <= p.values
      ensures tuple == plan.Project(r, |plan.columns|) && HasStored(plan, r, tuple)
      ensures forall j, k | 0 <= j < |p.names| && 0 <= k < |plan.attributes| && p.names[j] == plan.attributes[k] ::
        p.values[j] == plan.rows[r][plan.columns[k]]
    {
      hide HasStored, Loaded, Plan.Env, Plan.Project, Askable;
      AskableNames(plan, p.names, t);
      LoadsNothing(plan, p.names, p.values, r);
      tuple := [];
      ProjectsNothing(plan, r);
      for k := 0 to |plan.columns|
        modifies `tuple, p`values
        invariant Valid() && tuple == plan.Project(r, k) && Loaded(plan, p.names, p.values, r, k)
      {
        var v := plan.rows[r][plan.columns[k]];
        ghost var before := p.values;
        var _ := p.SetVariableValue(plan.attributes[k], v);
        LoadsColumn(plan, p.names, before, p.values, r, k, p.slots);
        ProjectsMore(plan, r, k);
        if plan.stored[k] {
          tuple := tuple + [v];
        }
      }
      LoadsAll(plan, p.names, p.values, r);
      ProjectHolds(plan, r);
      forall j, k | 0 <= j < |p.names| && 0 <= k < |plan.attributes| && p.names[j] == plan.attributes[k]
        ensures p.values[j] == plan.rows[r][plan.columns[k]]
      {
        LoadedByName(plan, p.names, p.values, r, j, k);
      }
    }

    /** One step: asks the next row and emits it when it meets the condition. */
    method Process() returns (result: int)
      requires Valid()
      modifies this, p`values, p`ip, index
      ensures Valid()
      ensures var (from, to) := old(Pending());
        if from < to then
          && Pending() == (from + 1, to) && from < |plan.rows|
          && result == (if Meets(plan, p.names, t, Wanted(), from) then DB_GOT_ROW else DB_OK)
          && (result == DB_GOT_ROW ==> HasStored(plan, from, tuple)) && tupleId == from + 1
        else Pending() == (from, to) && result == EndStatus()
    {
      hide HasStored, Plan.Project;
      ghost var (from, to) := Pending();
      if index != null {
        var next := index.GetNext();
        if next.Undefined? {
          return UNDEFINED;
        } else if next.NoTuple? {
          return if index.nextItemNo == 0 then DB_INDEX_ERROR else DB_FINISHED;
        }
        tupleId := next.row;
      }
      if tupleId >= |plan.rows| {
        tupleId := tupleId + 1;
        return DB_FINISHED;
      }
      ghost var r := tupleId;
      LoadRow(tupleId);
      tupleId := tupleId + 1;
      LogicAgrees(t, plan.Env(r, p.names), p.values);
      var status := p.Execute(t);
      if status == Wanted() {
        currentRow := currentRow + 1;
        return DB_GOT_ROW;
      }
      result := DB_OK;
    }
  }

  /** The tuples are those of the rows: each has the stored values of its row. */
  ghost predicate AreTuples(plan: Plan, emitted: seq<nat>, tuples: seq<seq<long>>)
    requires plan.Valid()
  {
    |tuples| == |emitted| && forall i | 0 <= i < |emitted| ::
      emitted[i] < |plan.rows| && HasStored(plan, emitted[i], tuples[i])
  }

  lemma NoTuples(plan: Plan)
    requires plan.Valid()
    ensures AreTuples(plan, [], [])
  {
  }

  lemma TupleAdded(plan: Plan, emitted: seq<nat>, tuples: seq<seq<long>>, r: nat, tuple: seq<long>)
    requires plan.Valid() && AreTuples(plan, emitted, tuples) && r < |plan.rows| && HasStored(plan, r, tuple)
    ensures AreTuples(plan, emitted + [r], tuples + [tuple])
  {
    hide HasStored;
  }

  /** Calls the step until it has no more rows, collecting the emitted ones and their tuples. */
  method Run(h: Selection) returns (emitted: seq<nat>, tuples: seq<seq<long>>, result: int)
    requires h.Valid()
    modifies h, h.p`values, h.p`ip, h.index
    ensures h.Valid()
    ensures var (from, stop) := old(h.Pending());
      emitted == Matching(h.plan, h.p.names, h.t, h.Wanted(), from, stop)
    ensures result == h.EndStatus()
    ensures AreTuples(h.plan, emitted, tuples)
  {
    hide Matching, Meets, AreTuples, HasStored;
    emitted, tuples := [], [];
    NoTuples(h.plan);
    ghost var (from, stop) := h.Pending();
    ghost var next, vars := from, h.p.names;
    ghost var all := Matching(h.plan, vars, h.t, h.Wanted(), from, stop);
    while true
      invariant h.Valid() && h.p.names == vars && from <= next <= stop <= |h.plan.rows| && h.Pending() == (next, stop)
      invariant emitted + Matching(h.plan, vars, h.t, h.Wanted(), next, stop) == all
      invariant AreTuples(h.plan, emitted, tuples)
      decreases stop - next
    {
      MatchingStep(h.plan, vars, h.t, h.Wanted(), next, stop, emitted);
      result := h.Process();
      if result == DB_GOT_ROW {
        TupleAdded(h.plan, emitted, tuples, h.tupleId - 1, h.tuple);
      }
      if result != DB_GOT_ROW && result != DB_OK {
        break;
      }
      if result == DB_GOT_ROW {
        emitted, tuples := emitted + [h.tupleId - 1], tuples + [h.tuple];
      }
      next := next + 1;
    }
  }

  lemma MatchingStep(plan: Plan, vars: seq<string>, t: Logic, wanted: int, next: nat, stop: nat, emitted: seq<nat>)
    requires Askable(plan, vars, t) && next <= stop <= |plan.rows|
    ensures next == stop ==> emitted + Matching(plan, vars, t, wanted, next, stop) == emitted
    ensures next < stop ==>
      emitted + Matching(plan, vars, t, wanted, next, stop)
      == (if Meets(plan, vars, t, wanted, next) then emitted + [next] else emitted)
         + Matching(plan, vars, t, wanted, next + 1, stop)
  {
  }

  /** Setting the variable of attribute `k` sets the slot `j` just when that variable is `j`. */
  lemma OneSlot(attributes: seq<string>, names: seq<string>, k: nat, j: nat)
    requires Distinct(attributes) && Distinct(names) && k < |attributes| && j < |names|
    ensures Place(names, attributes[k]) == j <==> Place(attributes, names[j]) == k
  {
    if attributes[k] == names[j] {
      Lvm.IndexOfUnique(names, names[j], j);
      Lvm.IndexOfUnique(attributes, attributes[k], k);
    }
  }

  // ----- Scan and index search agree

  lemma {:induction false} MatchingSplits(plan: Plan, vars: seq<string>, t: Logic, wanted: int, from: nat, mid: nat,
                                          stop: nat)
    requires Askable(plan, vars, t) && from <= mid <= stop <= |plan.rows|
    ensures Matching(plan, vars, t, wanted, from, stop)
      == Matching(plan, vars, t, wanted, from, mid) + Matching(plan, vars, t, wanted, mid, stop)
    decreases mid - from
  {
    if from < mid {
      MatchingSplits(plan, vars, t, wanted, from + 1, mid, stop);
    }
  }

  lemma {:induction false} NoneMatch(plan: Plan, vars: seq<string>, t: Logic, wanted: int, from: nat, stop: nat)
    requires Askable(plan, vars, t) && from <= stop <= |plan.rows|
    ensures Matching(plan, vars, t, wanted, from, stop) == []
      <==> forall r | from <= r < stop :: !Meets(plan, vars, t, wanted, r)
    decreases stop - from
  {
    if from < stop {
      NoneMatch(plan, vars, t, wanted, from + 1, stop);
    }
  }

  lemma {:induction false} MatchingWithin(plan: Plan, vars: seq<string>, t: Logic, wanted: int, from: nat, stop: nat)
    requires Askable(plan, vars, t) && from <= stop <= |plan.rows|
    ensures forall r | r in Matching(plan, vars, t, wanted, from, stop) :: from <= r < stop
    decreases stop - from
  {
    if from < stop {
      MatchingWithin(plan, vars, t, wanted, from + 1, stop);
    }
  }

  /** The rows that meet the condition, each once and in ascending order. */
  lemma {:induction false} MatchingIs(plan: Plan, vars: seq<string>, t: Logic, wanted: int, from: nat, stop: nat)
    requires Askable(plan, vars, t) && from <= stop <= |plan.rows|
    ensures var m := Matching(plan, vars, t, wanted, from, stop);
      && (forall r | from <= r < stop :: r in m <==> Meets(plan, vars, t, wanted, r))
      && (forall r | r in m :: from <= r < stop)
      && (forall i, j | 0 <= i < j < |m| :: m[i] < m[j])
    decreases stop - from
  {
    hide Meets;
    if from < stop {
      MatchingIs(plan, vars, t, wanted, from + 1, stop);
      var rest := Matching(plan, vars, t, wanted, from + 1, stop);
      assert forall j | 0 <= j < |rest| :: rest[j] in rest;
    }
  }

  /** Asking only the rows of a part emits what asking all of them does if and only if no row
      outside the part meets the condition. */
  lemma PartIsEnough(plan: Plan, vars: seq<string>, t: Logic, wanted: int, from: nat, stop: nat)
    requires Askable(plan, vars, t) && from <= stop <= |plan.rows|
    ensures Matching(plan, vars, t, wanted, from, stop) == Matching(plan, vars, t, wanted, 0, |plan.rows|)
      <==> forall r | 0 <= r < |plan.rows| && !(from <= r < stop) :: !Meets(plan, vars, t, wanted, r)
  {
    var n := |plan.rows|;
    MatchingSplits(plan, vars, t, wanted, 0, from, n);
    MatchingSplits(plan, vars, t, wanted, from, stop, n);
    NoneMatch(plan, vars, t, wanted, 0, from);
    NoneMatch(plan, vars, t, wanted, stop, n);
    var a, m, z := Matching(plan, vars, t, wanted, 0, from), Matching(plan, vars, t, wanted, from, stop),
                   Matching(plan, vars, t, wanted, stop, n);
    assert Matching(plan, vars, t, wanted, 0, n) == a + (m + z);
    assert |a + (m + z)| == |a| + |m| + |z|;
    assert a == [] && z == [] ==> a + (m + z) == m;
  }

  /** The column of the indexed attribute, as the index sees it. */
  function ColumnOf(plan: Plan, name: string): seq<int>
    requires plan.Valid() && name in plan.attributes
  {
    seq(|plan.rows|, r requires 0 <= r < |plan.rows| => plan.Value(r, name))
  }

  /** The condition's ranges are sound, and variable `v` has one. */
  ghost predicate Bounded(vars: seq<string>, t: Logic, slots: nat, v: nat) {
    && v < |vars| <= slots && Derivation.VariableFirst(t) && Derivation.EvenOrs(t)
    && Derivation.Ranges(t, slots).Derived? && Derivation.Ranges(t, slots).ranges[v].derived
  }

  /** A range the inline index can be searched for: it fits an `int`, and no end lies below the first
      value of the column. It may be empty. */
  ghost predicate Searchable(column: seq<int>, d: Derivation.Range, w: Width) {
    && ToInt(d.min, w) == d.min && ToInt(d.max, w) == d.max
    && InlineIndex.Increasing(column) && column != [] && column[0] <= d.min && column[0] <= d.max
  }

  /** A row that meets the condition has its value in the range. */
  lemma MatchesAreInRange(plan: Plan, vars: seq<string>, t: Logic, slots: nat, v: nat, r: nat)
    requires Askable(plan, vars, t) && Bounded(vars, t, slots, v)
    requires r < |plan.rows| && Meets(plan, vars, t, TRUE, r)
    ensures var d := Derivation.Ranges(t, slots).ranges[v]; d.min <= ColumnOf(plan, vars[v])[r] <= d.max
  {
    var env: seq<long> := plan.Env(r, vars);
    var env': seq<long> := env + seq(slots - |vars|, j => 0);
    LogicAgrees(t, env, env');
    Derivation.DerivationIsSound(t, env');
    assert Derivation.InRange(Derivation.Ranges(t, slots).ranges[v], env'[v]);
  }

  /** Every row with its value in a searchable range lies in the span that the search finds. */
  lemma SpanHolds(column: seq<int>, d: Derivation.Range, w: Width, r: nat)
    requires Searchable(column, d, w) && r < |column| && d.min <= column[r] <= d.max
    ensures var span := InlineIndex.RangeSearch(column, ToInt(d.min, w), ToInt(d.max, w));
      span.Span? && span.start <= r <= span.end
  {
    InlineIndex.SpanEncloses(column, d.min, d.max);
  }

  /** How a searchable range is searched: in vain only for one value that the column does not have. */
  lemma SpanFound(column: seq<int>, d: Derivation.Range, w: Width)
    requires Searchable(column, d, w)
    ensures match InlineIndex.RangeSearch(column, ToInt(d.min, w), ToInt(d.max, w))
      case Span(_, _) => d.min == d.max ==> d.min in column
      case NoSpan => d.min == d.max && d.min !in column
      case SpanOutside => false
  {
    InlineIndex.SpanLeaves(column, d.min, d.max);
    if d.min == d.max {
      InlineIndex.ExactSearch(column, d.min);
    }
  }

  /** With an `int` of 16 bits an open bound is cut to 0 or -1. */
  lemma OpenBounds(op: word, v: long)
    requires Derivation.Ordered(op) && op != LVM_EQ
    ensures var d := Derivation.RangeOf(op, v); ToInt(d.min, Int16) == 0 != d.min || ToInt(d.max, Int16) == -1 != d.max
  {
  }

  /** A search for `x > v` or `x >= v` then reads behind the relation exactly on these columns: on all
      without negative values. */
  lemma OpenAbove(op: word, v: long, column: seq<int>)
    requires (op == LVM_GE && v < LONG_MAX) || op == LVM_GEQ
    requires InlineIndex.Increasing(column) && column != []
    ensures var d := Derivation.RangeOf(op, v);
      InlineIndex.RangeSearch(column, ToInt(d.min, Int16), ToInt(d.max, Int16)) == InlineIndex.SpanOutside
      <==> column[0] > -1 || column[0] > ToInt(d.min, Int16)
  {
    var d := Derivation.RangeOf(op, v);
    InlineIndex.SpanLeaves(column, ToInt(d.min, Int16), ToInt(d.max, Int16));
  }

  lemma AboveIsCut(op: word, v: long)
    requires (op == LVM_GE && -0x8001 <= v < 0x7FFF) || (op == LVM_GEQ && -0x8000 <= v < 0x8000)
    ensures var d := Derivation.RangeOf(op, v);
      && ToInt(d.min, Int16) == d.min && ToInt(d.max, Int16) == -1
      && forall x: int :: CompareValues(op, x, v) == Truth(x >= d.min)
  {
  }

  /** What lies before and behind a row that a search ends at. */
  lemma NearRow(column: seq<int>, target: int, i: nat)
    requires InlineIndex.Near(column, target, i)
    ensures forall k | 0 <= k < i :: column[k] < target
    ensures forall k | i < k < |column| :: column[k] > target
    ensures i < |column| - 1 ==> column[|column| - 1] > target
    ensures i == |column| - 1 > 0 ==> column[|column| - 2] < target
    ensures i > 0 ==> column[0] < target
    ensures i == 0 && |column| > 1 ==> column[1] > target
  {
  }

  /** On the others, for a bound that fits, it finds all rows that match if and only if its last row is the
      last of the relation; so not when two rows lie above -1 and the bound, and always when none does. */
  lemma OpenAboveLosesRows(op: word, v: long, column: seq<int>)
    requires (op == LVM_GE && -0x8001 <= v < 0x7FFF) || (op == LVM_GEQ && -0x8000 <= v < 0x8000)
    requires InlineIndex.Increasing(column) && column != [] && column[0] <= -1
    requires var d := Derivation.RangeOf(op, v); column[0] <= d.min && (d.min != -1 || -1 in column)
    ensures var d := Derivation.RangeOf(op, v);
      var (from, stop) := SpanOf(column, d, Int16);
      && (forall r | 0 <= r < |column| :: CompareValues(op, column[r], v) == Truth(column[r] >= d.min))
      && ((forall r | 0 <= r < |column| && column[r] >= d.min :: from <= r < stop) <==> stop == |column|)
      && (|column| > 1 && column[|column| - 2] >= d.min && column[|column| - 2] >= -1 ==> stop < |column|)
      && (column[|column| - 1] <= d.min || column[|column| - 1] <= -1 ==> stop == |column|)
  {
    hide InlineIndex.RangeSearch, InlineIndex.Increasing, InlineIndex.Near, Derivation.RangeOf, ToInt, CompareValues;
    var d := Derivation.RangeOf(op, v);
    AboveIsCut(op, v);
    if d.min == -1 {
      InlineIndex.SpanOfOne(column, -1);
    } else {
      InlineIndex.SpanEnds(column, d.min, -1);
    }
    var (from, stop) := SpanOf(column, d, Int16);
    NearRow(column, d.min, from);
    NearRow(column, if d.min < -1 then -1 else d.min, stop - 1);
    if stop < |column| {
      assert column[stop] >= d.min;
    }
  }

  /** A search for `x < v` or `x <= v` reads behind the relation exactly on columns that begin above 0 or
      above the bound. */
  lemma OpenBelow(op: word, v: long, column: seq<int>)
    requires (op == LVM_LE && v > LONG_MIN) || op == LVM_LEQ
    requires InlineIndex.Increasing(column) && column != []
    ensures var d := Derivation.RangeOf(op, v);
      InlineIndex.RangeSearch(column, ToInt(d.min, Int16), ToInt(d.max, Int16)) == InlineIndex.SpanOutside
      <==> column[0] > 0 || column[0] > ToInt(d.max, Int16)
  {
    var d := Derivation.RangeOf(op, v);
    InlineIndex.SpanLeaves(column, ToInt(d.min, Int16), ToInt(d.max, Int16));
  }

  lemma BelowIsCut(op: word, v: long)
    requires (op == LVM_LE && -0x8000 < v <= 0x8000) || (op == LVM_LEQ && -0x8000 <= v < 0x8000)
    ensures var d := Derivation.RangeOf(op, v);
      && ToInt(d.min, Int16) == 0 && ToInt(d.max, Int16) == d.max
      && forall x: int :: CompareValues(op, x, v) == Truth(x <= d.max)
  {
  }

  /** On the others, for a bound that fits, it finds all rows that match if and only if its first row is
      the first of the relation; so not when two rows lie at 0 or below, and always when none is negative. */
  lemma OpenBelowLosesRows(op: word, v: long, column: seq<int>)
    requires (op == LVM_LE && -0x8000 < v <= 0x8000) || (op == LVM_LEQ && -0x8000 <= v < 0x8000)
    requires InlineIndex.Increasing(column) && column != [] && column[0] <= 0
    requires var d := Derivation.RangeOf(op, v); column[0] <= d.max && (d.max != 0 || 0 in column)
    ensures var d := Derivation.RangeOf(op, v);
      var (from, stop) := SpanOf(column, d, Int16);
      && (forall r | 0 <= r < |column| :: CompareValues(op, column[r], v) == Truth(column[r] <= d.max))
      && ((forall r | 0 <= r < |column| && column[r] <= d.max :: from <= r < stop) <==> from == 0)
      && (|column| > 1 && column[1] <= 0 ==> from > 0)
      && (column[0] == 0 ==> from == 0)
  {
    hide InlineIndex.RangeSearch, InlineIndex.Increasing, InlineIndex.Near, Derivation.RangeOf, ToInt, CompareValues;
    var d := Derivation.RangeOf(op, v);
    BelowIsCut(op, v);
    if d.max == 0 {
      InlineIndex.SpanOfOne(column, 0);
    } else {
      InlineIndex.SpanEnds(column, 0, d.max);
    }
    var (from, stop) := SpanOf(column, d, Int16);
    NearRow(column, 0, from);
    NearRow(column, if d.max > 0 then d.max else 0, stop - 1);
  }

  /** Selects the rows that meet a condition, or with inverse logic miss it, through the inline index on
      its variable `v`: what is emitted are those among the rows that the index yields. */
  method SelectThroughIndex(plan: Plan, p: Lvm.Machine, ghost t: Logic, v: nat, w: Width, inverse: bool)
    returns (emitted: seq<nat>, tuples: seq<seq<long>>, result: int)
    requires p.Valid() && Askable(plan, p.names, t) && At(p.code[..], 0, EncLogic(t)) && p.ip == 0
    requires Bounded(p.names, t, p.slots, v)
    requires Searchable(ColumnOf(plan, p.names[v]), Derivation.Ranges(t, p.slots).ranges[v], w)
    requires |plan.rows| < InlineIndex.TUPLE_LIMIT / 2 - 1
    modifies p`values, p`ip
    ensures Askable(plan, p.names, t)
    ensures var (from, stop) := SpanOf(ColumnOf(plan, p.names[v]), Derivation.Ranges(t, p.slots).ranges[v], w);
      emitted == Matching(plan, p.names, t, if inverse then FALSE else TRUE, from, stop)
    ensures AreTuples(plan, emitted, tuples)
    ensures var d := Derivation.Ranges(t, p.slots).ranges[v];
      result == if d.min == d.max && d.min !in ColumnOf(plan, p.names[v]) then DB_INDEX_ERROR else DB_FINISHED
  {
    ghost var names := p.names;
    var local := Derivation.NewTable(p.slots);
    VariableFirstHasNoJunk(t);
    var status := Derivation.DeriveRelation(p, local, t);
    var d, column := local[v], ColumnOf(plan, p.names[v]);
    assert d == Derivation.Ranges(t, p.slots).ranges[v];
    hide SpanOf, Searchable, Bounded, Matching, InlineIndex.RangeSearch, InlineIndex.Iterator.Pending, ToInt;
    SpanFound(column, d, w);
    var index := new InlineIndex.Iterator(column, ToInt(d.min, w), ToInt(d.max, w));
    PendingSpan(index, d, w);
    var h := new Selection(plan, p, t, inverse, index);
    emitted, tuples, result := Run(h);
  }

  lemma PendingSpan(index: InlineIndex.Iterator, d: Derivation.Range, w: Width)
    requires index.low == ToInt(d.min, w) && index.high == ToInt(d.max, w) && index.Fresh()
    ensures index.Pending() == SpanOf(index.column, d, w)
  {
  }

  /** The rows a new search of the index yields: from the first number on, before the second. */
  function SpanOf(column: seq<int>, d: Derivation.Range, w: Width): (r: (nat, nat))
    ensures r.0 <= r.1 <= |column|
  {
    match InlineIndex.RangeSearch(column, ToInt(d.min, w), ToInt(d.max, w))
    case Span(start, end) => (start, if start <= end then end + 1 else start + 1)
    case _ => (0, 0)
  }

  /** SELECT through the index emits the same rows, in the same order, as a scan. */
  method SelectByIndex(plan: Plan, p: Lvm.Machine, ghost t: Logic, v: nat, w: Width)
    returns (emitted: seq<nat>, tuples: seq<seq<long>>, result: int)
    requires p.Valid() && Askable(plan, p.names, t) && At(p.code[..], 0, EncLogic(t)) && p.ip == 0
    requires Bounded(p.names, t, p.slots, v)
    requires Searchable(ColumnOf(plan, p.names[v]), Derivation.Ranges(t, p.slots).ranges[v], w)
    requires |plan.rows| < InlineIndex.TUPLE_LIMIT / 2 - 1
    modifies p`values, p`ip
    ensures Askable(plan, p.names, t)
    ensures emitted == Matching(plan, p.names, t, TRUE, 0, |plan.rows|) && AreTuples(plan, emitted, tuples)
    ensures var d := Derivation.Ranges(t, p.slots).ranges[v];
      result == if d.min == d.max && d.min !in ColumnOf(plan, p.names[v]) then DB_INDEX_ERROR else DB_FINISHED
  {
    SpanIsEnough(plan, p.names, t, p.slots, v, w);
    emitted, tuples, result := SelectThroughIndex(plan, p, t, v, w, false);
  }

  /** A removal keeps the rows that miss the condition. Through the index it keeps the right ones if and
      only if the index yields all rows. */
  method RemoveByIndex(plan: Plan, p: Lvm.Machine, ghost t: Logic, v: nat, w: Width)
    returns (kept: seq<nat>, tuples: seq<seq<long>>, result: int)
    requires p.Valid() && Askable(plan, p.names, t) && At(p.code[..], 0, EncLogic(t)) && p.ip == 0
    requires Bounded(p.names, t, p.slots, v)
    requires Searchable(ColumnOf(plan, p.names[v]), Derivation.Ranges(t, p.slots).ranges[v], w)
    requires |plan.rows| < InlineIndex.TUPLE_LIMIT / 2 - 1
    modifies p`values, p`ip
    ensures Askable(plan, p.names, t) && AreTuples(plan, kept, tuples)
    ensures kept == Matching(plan, p.names, t, FALSE, 0, |plan.rows|) <==>
      SpanOf(ColumnOf(plan, p.names[v]), Derivation.Ranges(t, p.slots).ranges[v], w) == (0, |plan.rows|)
  {
    RemovalThroughIndexLosesRows(plan, p.names, t, p.slots, v, w);
    kept, tuples, result := SelectThroughIndex(plan, p, t, v, w, true);
  }

  /** No row outside the span meets the condition. */
  lemma MatchesAreInSpan(plan: Plan, vars: seq<string>, t: Logic, slots: nat, v: nat, w: Width, r: nat)
    requires Askable(plan, vars, t) && Bounded(vars, t, slots, v) && r < |plan.rows|
    requires Searchable(ColumnOf(plan, vars[v]), Derivation.Ranges(t, slots).ranges[v], w)
    ensures var (from, stop) := SpanOf(ColumnOf(plan, vars[v]), Derivation.Ranges(t, slots).ranges[v], w);
      stop <= |plan.rows| && (Meets(plan, vars, t, TRUE, r) ==> from <= r < stop)
  {
    var d := Derivation.Ranges(t, slots).ranges[v];
    if Meets(plan, vars, t, TRUE, r) {
      MatchesAreInRange(plan, vars, t, slots, v, r);
      SpanHolds(ColumnOf(plan, vars[v]), d, w, r);
    }
  }

  lemma SpanIsEnough(plan: Plan, vars: seq<string>, t: Logic, slots: nat, v: nat, w: Width)
    requires Askable(plan, vars, t) && Bounded(vars, t, slots, v)
    requires Searchable(ColumnOf(plan, vars[v]), Derivation.Ranges(t, slots).ranges[v], w)
    ensures var (from, stop) := SpanOf(ColumnOf(plan, vars[v]), Derivation.Ranges(t, slots).ranges[v], w);
      stop <= |plan.rows| &&
      Matching(plan, vars, t, TRUE, from, stop) == Matching(plan, vars, t, TRUE, 0, |plan.rows|)
  {
    hide SpanOf, Meets, Searchable;
    var (from, stop) := SpanOf(ColumnOf(plan, vars[v]), Derivation.Ranges(t, slots).ranges[v], w);
    forall r | 0 <= r < |plan.rows|
      ensures Meets(plan, vars, t, TRUE, r) ==> from <= r < stop
    {
      MatchesAreInSpan(plan, vars, t, slots, v, w, r);
    }
    PartIsEnough(plan, vars, t, TRUE, from, stop);
  }

  /** A condition with ranges holds or does not: it never fails. */
  lemma {:induction false} TrueOrFalse(t: Logic, env: seq<long>, slots: nat)
    requires Derivation.VariableFirst(t) && Derivation.Ranges(t, slots).Derived? && ClosedLogic(t, |env|)
    ensures LogicValue(t, env) == TRUE || LogicValue(t, env) == FALSE
  {
    if t.Connect? {
      TrueOrFalse(t.a, env, slots);
      TrueOrFalse(t.b, env, slots);
    }
  }

  /** Rows that the index does not yield are lost to a removal, as they all miss the condition: it keeps
      the rows it should if and only if the index yields every row. */
  lemma RemovalThroughIndexLosesRows(plan: Plan, vars: seq<string>, t: Logic, slots: nat, v: nat, w: Width)
    requires Askable(plan, vars, t) && Bounded(vars, t, slots, v)
    requires Searchable(ColumnOf(plan, vars[v]), Derivation.Ranges(t, slots).ranges[v], w)
    ensures var (from, stop) := SpanOf(ColumnOf(plan, vars[v]), Derivation.Ranges(t, slots).ranges[v], w);
      && stop <= |plan.rows|
      && (Matching(plan, vars, t, FALSE, from, stop) == Matching(plan, vars, t, FALSE, 0, |plan.rows|)
          <==> (from, stop) == (0, |plan.rows|))
  {
    hide SpanOf, Searchable, Matching;
    var (from, stop) := SpanOf(ColumnOf(plan, vars[v]), Derivation.Ranges(t, slots).ranges[v], w);
    var n := |plan.rows|;
    assert n > 0 by {
      SearchableRows(plan, vars, t, slots, v, w);
    }
    forall r | 0 <= r < n
      ensures Meets(plan, vars, t, TRUE, r) ==> from <= r < stop
      ensures Meets(plan, vars, t, TRUE, r) || Meets(plan, vars, t, FALSE, r)
    {
      MatchesAreInSpan(plan, vars, t, slots, v, w, r);
      TrueOrFalse(t, plan.Env(r, vars), slots);
    }
    MatchesAreInSpan(plan, vars, t, slots, v, w, 0);
    PartIsEnough(plan, vars, t, FALSE, from, stop);
    if (from, stop) != (0, n) {
      var out := if from > 0 then 0 else n - 1;
      assert !(from <= out < stop) && Meets(plan, vars, t, FALSE, out);
    }
  }

  lemma SearchableRows(plan: Plan, vars: seq<string>, t: Logic, slots: nat, v: nat, w: Width)
    requires Askable(plan, vars, t) && Bounded(vars, t, slots, v)
    requires Searchable(ColumnOf(plan, vars[v]), Derivation.Ranges(t, slots).ranges[v], w)
    ensures |plan.rows| > 0
  {
  }

  /** Removing the rows with `x = 1` from the relation with the rows 1 and 2 in this way keeps none. */
  lemma RemovalOfOne()
    ensures var plan := Plan([[1], [2]], ["x"], [0], [true]);
      var t := Compare(LVM_EQ, Leaf(Operand(LVM_VARIABLE, 0)), Leaf(Operand(LVM_LONG, 1)));
      && Askable(plan, ["x"], t) && Bounded(["x"], t, 1, 0)
      && Searchable(ColumnOf(plan, "x"), Derivation.Ranges(t, 1).ranges[0], Int16)
      && SpanOf(ColumnOf(plan, "x"), Derivation.Ranges(t, 1).ranges[0], Int16) == (0, 1)
      && Matching(plan, ["x"], t, FALSE, 0, 1) == [] && Matching(plan, ["x"], t, FALSE, 0, 2) == [1]
  {
    var plan := Plan([[1], [2]], ["x"], [0], [true]);
    var t := Compare(LVM_EQ, Leaf(Operand(LVM_VARIABLE, 0)), Leaf(Operand(LVM_LONG, 1)));
    assert plan.Value(0, "x") == 1 && plan.Value(1, "x") == 2;
    assert ColumnOf(plan, "x") == [1, 2];
    InlineIndex.ExactSearch([1, 2], 1);
    assert plan.Env(0, ["x"]) == [1] && plan.Env(1, ["x"]) == [2];
    assert !Meets(plan, ["x"], t, FALSE, 0) && Meets(plan, ["x"], t, FALSE, 1);
    assert Matching(plan, ["x"], t, FALSE, 2, 2) == [];
    assert Matching(plan, ["x"], t, FALSE, 1, 2) == [1] + [];
  }

  lemma VariableFirstHasNoJunk(t: Logic)
    requires Derivation.VariableFirst(t)
    ensures Derivation.NoLogicJunk(t)
  {
  }
}
