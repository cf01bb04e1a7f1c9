/** The join of two relations: a step machine that leaves both of its loops with every row it
    emits and comes back into the inner one. */
module Join {

  const DB_FINISHED: int := 3
  const DB_GOT_ROW: int := 2
  const DB_NAME_ERROR: int := -5
  const DB_IMPLEMENTATION_ERROR: int := -8

  type Row = seq<int>

  // ----- The attributes of the result

  /** Where an attribute of the result comes from; an attribute of both relations comes from the
      left one. */
  datatype Source = FromLeft(column: nat) | FromRight(column: nat)

  datatype SourceMap = SourceMap(sources: seq<Source>) | NameError

  method FindAttribute(names: seq<string>, name: string) returns (i: nat)
    ensures i <= |names| && name !in names[..i] && (i < |names| ==> names[i] == name)
  {
    i := 0;
    while i < |names| && names[i] != name
      invariant i <= |names| && name !in names[..i]
    {
      i := i + 1;
    }
  }

  method GenerateJoinResult(left: seq<string>, right: seq<string>, wanted: seq<string>) returns (m: SourceMap)
    ensures m.NameError? <==> exists k | 0 <= k < |wanted| :: wanted[k] !in left && wanted[k] !in right
    ensures m.SourceMap? ==> |m.sources| == |wanted|
    ensures m.SourceMap? ==> forall k | 0 <= k < |wanted| ::
      match m.sources[k]
      case FromLeft(c) => c < |left| && left[c] == wanted[k] && wanted[k] !in left[..c]
      case FromRight(c) => wanted[k] !in left && c < |right| && right[c] == wanted[k] && wanted[k] !in right[..c]
  {
    var sources: seq<Source> := [];
    for k := 0 to |wanted|
      invariant |sources| == k
      invariant forall i | 0 <= i < k :: wanted[i] in left || wanted[i] in right
      invariant forall i | 0 <= i < k ::
        match sources[i]
        case FromLeft(c) => c < |left| && left[c] == wanted[i] && wanted[i] !in left[..c]
        case FromRight(c) => wanted[i] !in left && c < |right| && right[c] == wanted[i] && wanted[i] !in right[..c]
    {
      var l := FindAttribute(left, wanted[k]);
      if l < |left| {
        sources := sources + [FromLeft(l)];
      } else {
        var r := FindAttribute(right, wanted[k]);
        if r == |right| {
          return NameError;
        }
        sources := sources + [FromRight(r)];
      }
    }
    m := SourceMap(sources);
  }

  // ----- Specification

  /** Two relations, the column to join on of the left one, and for every value the rows that the
      right one's index has for it, in the order of its iterator. */
  datatype Plan = Plan(left: seq<Row>, right: seq<Row>, key: nat, index: map<int, seq<nat>>, sources: seq<Source>) {
    ghost predicate Valid() {
      && (forall l | 0 <= l < |left| :: key < |left[l]|)
      && (forall l, s | 0 <= l < |left| && s in sources && s.FromLeft? :: s.column < |left[l]|)
      && (forall r, s | 0 <= r < |right| && s in sources && s.FromRight? :: s.column < |right[r]|)
    }

    /** The right index refers to rows that exist. */
    ghost predicate IndexInRange() {
      forall v, r | v in index && r in index[v] :: r < |right|
    }

    /** The rows the index has for a value, in the order of its iterator. */
    function Lookup(v: int): seq<nat> { if v in index then index[v] else [] }

    function Rows(l: nat): seq<nat>
      requires Valid() && l < |left|
    {
      Lookup(left[l][key])
    }

    function Cell(s: Source, l: Row, r: Row): int
      requires s.FromLeft? ==> s.column < |l|
      requires s.FromRight? ==> s.column < |r|
    {
      match s case FromLeft(c) => l[c] case FromRight(c) => r[c]
    }

    predicate Fits(l: Row, r: Row) {
      forall s | s in sources :: if s.FromLeft? then s.column < |l| else s.column < |r|
    }

    /** The row has every attribute of the result from its source. */
    ghost predicate Joins(row: Row, l: Row, r: Row)
      requires Fits(l, r)
    {
      |row| == |sources| && forall k | 0 <= k < |sources| :: row[k] == Cell(sources[k], l, r)
    }

    ghost predicate IsJoined(row: Row, l: nat, r: nat)
      requires Valid() && l < |left| && r < |right|
    {
      Fits(left[l], right[r]) && Joins(row, left[l], right[r])
    }
  }

  /** The pairs of row `l` with its matches from the `j`-th on. */
  function Inner(plan: Plan, l: nat, j: nat): seq<(nat, nat)>
    requires plan.Valid() && l < |plan.left|
    decreases |plan.Rows(l)| - j
  {
    if j >= |plan.Rows(l)| then [] else [(l, plan.Rows(l)[j])] + Inner(plan, l, j + 1)
  }

  /** The nested loops over the left rows from `l` on. */
  function Outer(plan: Plan, l: nat): seq<(nat, nat)>
    requires plan.Valid()
    decreases |plan.left| - l
  {
    if l >= |plan.left| then [] else Inner(plan, l, 0) + Outer(plan, l + 1)
  }

  // ----- The step machine

  class Machine {
    const plan: Plan
    var tupleId: nat
    // Set when the next step begins with a left row, clear when an index iteration is open.
    var indexStep: bool
    var key: int
    var nextItemNo: nat
    var leftRow: Row
    var joinRow: Row
    var currentRow: nat
    // The pair that was emitted last.
    ghost var pair: (nat, nat)

    constructor (plan: Plan)
      requires plan.Valid()
      ensures Valid() && this.plan == plan && indexStep && currentRow == 0
    {
      this.plan := plan;
      tupleId, indexStep, key, nextItemNo, currentRow := 0, true, 0, 0, 0;
      leftRow, joinRow, pair := [], [], (0, 0);
    }

    ghost predicate Valid()
      reads this
    {
      && plan.Valid()
      && (!indexStep ==> tupleId < |plan.left| && leftRow == plan.left[tupleId] && key == leftRow[plan.key])
    }

    /** The pairs still to be emitted in this run. */
    ghost function ToDo(): seq<(nat, nat)>
      requires Valid()
      reads this
    {
      if indexStep then Outer(plan, 0) else Inner(plan, tupleId, nextItemNo) + Outer(plan, tupleId + 1)
    }

    method FillIn(l: Row, r: Row) returns (row: Row)
      requires plan.Fits(l, r)
      ensures plan.Joins(row, l, r)
      ensures |row| == |plan.sources| && forall k | 0 <= k < |row| ::
        match plan.sources[k] case FromLeft(c) => c < |l| && row[k] == l[c] case FromRight(c) => c < |r| && row[k] == r[c]
    {
      row := [];
      for i := 0 to |plan.sources|
        invariant |row| == i
        invariant forall k | 0 <= k < i :: plan.sources[k] in plan.sources && row[k] == plan.Cell(plan.sources[k], l, r)
      {
        assert plan.sources[i] in plan.sources;
        row := row + [plan.Cell(plan.sources[i], l, r)];
      }
    }

    /** Fetches the left row and opens an iteration over its matches. */
    method OpenRow()
      requires Valid() && indexStep && tupleId < |plan.left|
      modifies this
      ensures Valid() && !indexStep && currentRow == old(currentRow) && tupleId == old(tupleId)
      ensures ToDo() == Outer(plan, tupleId)
    {
      leftRow := plan.left[tupleId];
      key, nextItemNo := leftRow[plan.key], 0;
      indexStep := false;
    }

    /** What the inner loop does to the pairs `todo`: it emits the first one, or it finds no more
        matches of the current left row and sets the flag that lets the outer loop go on. */
    ghost predicate Emitted(todo: seq<(nat, nat)>, result: int)
      requires Valid()
      reads this
    {
      todo != [] &&
      if todo[0].1 >= |plan.right| then result == DB_IMPLEMENTATION_ERROR
      else
        && result == DB_GOT_ROW && !indexStep && ToDo() == todo[1..]
        && pair == todo[0] && pair.0 < |plan.left| && plan.IsJoined(joinRow, pair.0, pair.1)
    }

    method NextMatch() returns (result: int)
      requires Valid() && !indexStep
      modifies this
      ensures Valid()
      ensures result == 0 ==>
        indexStep && tupleId == old(tupleId) + 1 && Outer(plan, tupleId) == old(ToDo()) && currentRow == old(currentRow)
      ensures result != 0 ==> Emitted(old(ToDo()), result)
      ensures result == DB_GOT_ROW ==> currentRow == old(currentRow) + 1
    {
      hide Inner, Outer, Plan.Joins, Plan.Cell;
      InnerStep(plan, tupleId, nextItemNo);
      var rows := plan.Lookup(key);
      if nextItemNo >= |rows| {
        indexStep := true;
        tupleId := tupleId + 1;
        return 0;
      }
      var rightId := rows[nextItemNo];
      nextItemNo := nextItemNo + 1;
      if rightId >= |plan.right| {
        return DB_IMPLEMENTATION_ERROR;
      }
      joinRow := FillIn(leftRow, plan.right[rightId]);
      pair := (tupleId, rightId);
      currentRow := currentRow + 1;
      result := DB_GOT_ROW;
    }

    /** One step: emits the next pair, or ends the run, after which the machine stands where a new
        one begins. */
    method Process() returns (result: int)
      requires Valid()
      modifies this
      ensures Valid()
      ensures if old(ToDo()) == [] then result == DB_FINISHED && indexStep else Emitted(old(ToDo()), result)
      ensures currentRow == old(currentRow) + (if result == DB_GOT_ROW then 1 else 0) || result == DB_IMPLEMENTATION_ERROR
    {
      ghost var todo := ToDo();
      if !indexStep {
        result := NextMatch();
        if result != 0 {
          return;
        }
      } else {
        tupleId := 0;
      }
      hide ToDo, Inner, Outer, Emitted;
      while true
        invariant Valid() && currentRow == old(currentRow)
        invariant indexStep && Outer(plan, tupleId) == todo
        decreases |plan.left| - tupleId
      {
        if tupleId >= |plan.left| {
          OuterEnd(plan, tupleId);
          return DB_FINISHED;
        }
        OpenRow();
        result := NextMatch();
        if result != 0 {
          return;
        }
      }
    }
  }

  lemma OuterEnd(plan: Plan, l: nat)
    requires plan.Valid() && l >= |plan.left|
    ensures Outer(plan, l) == []
  {
  }

  lemma InnerStep(plan: Plan, l: nat, j: nat)
    requires plan.Valid() && l < |plan.left|
    ensures j >= |plan.Rows(l)| ==> Inner(plan, l, j) + Outer(plan, l + 1) == Outer(plan, l + 1)
    ensures j < |plan.Rows(l)| ==>
      var todo := Inner(plan, l, j) + Outer(plan, l + 1);
      todo != [] && todo[0] == (l, plan.Rows(l)[j]) && todo[1..] == Inner(plan, l, j + 1) + Outer(plan, l + 1)
  {
  }

  /** The rows are those of the pairs. */
  ghost predicate AllJoined(plan: Plan, rows: seq<Row>, pairs: seq<(nat, nat)>)
    requires plan.Valid()
  {
    |rows| == |pairs| && forall i | 0 <= i < |rows| ::
      && pairs[i].0 < |plan.left| && pairs[i].1 < |plan.right|
      && plan.IsJoined(rows[i], pairs[i].0, pairs[i].1)
  }

  /** Every attribute of a joined row has the value of its source. */
  lemma JoinedCells(plan: Plan, rows: seq<Row>, pairs: seq<(nat, nat)>, i: nat, k: nat)
    requires plan.Valid() && AllJoined(plan, rows, pairs) && i < |rows| && k < |plan.sources|
    ensures |rows[i]| == |plan.sources|
    ensures match plan.sources[k]
      case FromLeft(c) => c < |plan.left[pairs[i].0]| && rows[i][k] == plan.left[pairs[i].0][c]
      case FromRight(c) => c < |plan.right[pairs[i].1]| && rows[i][k] == plan.right[pairs[i].1][c]
  {
    assert plan.sources[k] in plan.sources;
  }

  /** Steps until the run ends. The emitted pairs are those of the nested loops, in their order. */
  method Run(m: Machine) returns (ghost pairs: seq<(nat, nat)>, rows: seq<Row>, result: int)
    requires m.Valid() && m.indexStep && m.plan.IndexInRange()
    modifies m
    ensures m.Valid() && m.indexStep && result == DB_FINISHED
    ensures pairs == Outer(m.plan, 0) && AllJoined(m.plan, rows, pairs)
  {
    pairs, rows := [], [];
    ghost var todo := m.ToDo();
    assert pairs + todo == Outer(m.plan, 0);
    while true
      invariant m.Valid() && AllJoined(m.plan, rows, pairs)
      invariant m.ToDo() == todo && pairs + todo == Outer(m.plan, 0)
      decreases |todo|
    {
      hide Outer, Inner, AllJoined;
      if todo != [] {
        RowsInRange(m.plan, pairs, todo);
      }
      result := m.Process();
      if result != DB_GOT_ROW {
        assert pairs + [] == pairs;
        break;
      }
      OneMore(m.plan, rows, pairs, m.joinRow, m.pair, todo);
      pairs, todo := pairs + [m.pair], todo[1..];
      rows := rows + [m.joinRow];
    }
  }

  lemma OneMore(plan: Plan, rows: seq<Row>, pairs: seq<(nat, nat)>, row: Row, pair: (nat, nat), todo: seq<(nat, nat)>)
    requires plan.Valid() && AllJoined(plan, rows, pairs) && todo != [] && todo[0] == pair
    requires pair.0 < |plan.left| && pair.1 < |plan.right| && plan.IsJoined(row, pair.0, pair.1)
    ensures AllJoined(plan, rows + [row], pairs + [pair]) && pairs + todo == pairs + [pair] + todo[1..]
  {
  }

  lemma RowsInRange(plan: Plan, done: seq<(nat, nat)>, todo: seq<(nat, nat)>)
    requires plan.Valid() && plan.IndexInRange() && todo != [] && done + todo == Outer(plan, 0)
    ensures todo[0].1 < |plan.right|
  {
    assert todo[0] in done + todo;
    OuterPairs(plan, 0, todo[0]);
  }

  /** The matches of a left row come in the order of the index. */
  lemma {:induction false} InnerInOrder(plan: Plan, l: nat, j: nat)
    requires plan.Valid() && l < |plan.left| && j <= |plan.Rows(l)|
    ensures |Inner(plan, l, j)| == |plan.Rows(l)| - j
    ensures forall i | 0 <= i < |Inner(plan, l, j)| :: Inner(plan, l, j)[i] == (l, plan.Rows(l)[j + i])
    decreases |plan.Rows(l)| - j
  {
    hide Plan.Rows;
    if j < |plan.Rows(l)| {
      InnerInOrder(plan, l, j + 1);
    }
  }

  // ----- The nested loops are the join

  /** The index of the right relation has for each value exactly the rows that hold it in column
      `column`, each once. */
  ghost predicate IndexIsExact(plan: Plan, column: nat) {
    && (forall r | 0 <= r < |plan.right| :: column < |plan.right[r]|)
    && (forall v: int, r: nat {:trigger r in plan.Lookup(v)} | r in plan.Lookup(v) ::
          r < |plan.right| && plan.right[r][column] == v)
    && (forall r | 0 <= r < |plan.right| :: r in plan.Lookup(plan.right[r][column]))
    && (forall v: int, i, j | 0 <= i < j < |plan.Lookup(v)| :: plan.Lookup(v)[i] != plan.Lookup(v)[j])
  }

  lemma {:induction false} InnerPairs(plan: Plan, l: nat, j: nat, p: (nat, nat))
    requires plan.Valid() && l < |plan.left| && j <= |plan.Rows(l)|
    ensures p in Inner(plan, l, j) <==> p.0 == l && p.1 in plan.Rows(l)[j..]
    decreases |plan.Rows(l)| - j
  {
    if j < |plan.Rows(l)| {
      InnerPairs(plan, l, j + 1, p);
      assert plan.Rows(l)[j..] == [plan.Rows(l)[j]] + plan.Rows(l)[j + 1..];
    }
  }

  lemma {:induction false} OuterPairs(plan: Plan, l: nat, p: (nat, nat))
    requires plan.Valid()
    ensures p in Outer(plan, l) <==> l <= p.0 < |plan.left| && p.1 in plan.Rows(p.0)
    decreases |plan.left| - l
  {
    if l < |plan.left| {
      InnerPairs(plan, l, 0, p);
      OuterPairs(plan, l + 1, p);
    }
  }

  /** The nested loops emit exactly the pairs of rows that agree on the columns to join. */
  lemma NestedLoopsJoin(plan: Plan, column: nat, p: (nat, nat))
    requires plan.Valid() && IndexIsExact(plan, column)
    ensures p in Outer(plan, 0)
      <==> p.0 < |plan.left| && p.1 < |plan.right| && plan.left[p.0][plan.key] == plan.right[p.1][column]
  {
    OuterPairs(plan, 0, p);
  }

  ghost predicate NoneTwice(s: seq<(nat, nat)>) { forall i, j | 0 <= i < j < |s| :: s[i] != s[j] }

  ghost predicate LeftMajor(s: seq<(nat, nat)>) { forall i, j | 0 <= i < j < |s| :: s[i].0 <= s[j].0 }

  /** No pair is there twice, and all are pairs of row `l`. */
  ghost predicate PairsOfRow(s: seq<(nat, nat)>, l: nat) {
    NoneTwice(s) && forall i | 0 <= i < |s| :: s[i].0 == l
  }

  lemma AddBefore(p: (nat, nat), s: seq<(nat, nat)>)
    requires PairsOfRow(s, p.0) && p !in s
    ensures PairsOfRow([p] + s, p.0)
  {
  }

  lemma {:induction false} InnerOrder(plan: Plan, l: nat, j: nat)
    requires plan.Valid() && l < |plan.left| && j <= |plan.Rows(l)|
    requires forall i, k | 0 <= i < k < |plan.Rows(l)| :: plan.Rows(l)[i] != plan.Rows(l)[k]
    ensures PairsOfRow(Inner(plan, l, j), l)
    decreases |plan.Rows(l)| - j
  {
    hide Plan.Rows, Plan.Valid, PairsOfRow;
    if j < |plan.Rows(l)| {
      InnerOrder(plan, l, j + 1);
      InnerPairs(plan, l, j + 1, (l, plan.Rows(l)[j]));
      AddBefore((l, plan.Rows(l)[j]), Inner(plan, l, j + 1));
    } else {
      NoPairs(l);
    }
  }

  lemma NoPairs(l: nat)
    ensures PairsOfRow([], l)
  {
  }

  /** Each pair is emitted once, in the order of the left rows. */
  lemma {:induction false} OuterOrder(plan: Plan, column: nat, l: nat)
    requires plan.Valid() && IndexIsExact(plan, column)
    ensures NoneTwice(Outer(plan, l)) && LeftMajor(Outer(plan, l))
    decreases |plan.left| - l
  {
    if l < |plan.left| {
      InnerOrder(plan, l, 0);
      OuterOrder(plan, column, l + 1);
      var rest := Outer(plan, l + 1);
      forall i | 0 <= i < |rest|
        ensures l < rest[i].0
      {
        OuterPairs(plan, l + 1, rest[i]);
      }
      RowBeforeRows(l, Inner(plan, l, 0), rest);
    }
  }

  lemma RowBeforeRows(l: nat, a: seq<(nat, nat)>, b: seq<(nat, nat)>)
    requires PairsOfRow(a, l) && NoneTwice(b) && LeftMajor(b) && forall i | 0 <= i < |b| :: l < b[i].0
    ensures NoneTwice(a + b) && LeftMajor(a + b)
  {
  }

  // ----- A join by the names of its attributes

  /** The attribute `name` is the one in column `c`: the first with the name. */
  predicate IsColumn(names: seq<string>, name: string, c: nat) { c < |names| && names[c] == name && name !in names[..c] }

  /** The row has the wanted attributes: those of the left relation from its row, and the others from the
      row of the right one. */
  ghost predicate JoinedByName(leftNames: seq<string>, rightNames: seq<string>, wanted: seq<string>, row: Row, l: Row, r: Row)
  {
    && |row| == |wanted| && |l| == |leftNames| && |r| == |rightNames|
    && (forall k, c: nat | 0 <= k < |wanted| && IsColumn(leftNames, wanted[k], c) :: row[k] == l[c])
    && forall k, c: nat | 0 <= k < |wanted| && wanted[k] !in leftNames && IsColumn(rightNames, wanted[k], c) ::
      row[k] == r[c]
  }

  /** Joins two relations on the column `key` of the left and `column` of the right one. What is emitted are
      the pairs of rows that agree on these, each once, and of each pair the wanted attributes. */
  method JoinByNames(left: seq<Row>, right: seq<Row>, leftNames: seq<string>, rightNames: seq<string>,
                     wanted: seq<string>, key: nat, column: nat, index: map<int, seq<nat>>)
    returns (ghost pairs: seq<(nat, nat)>, rows: seq<Row>, result: int)
    requires key < |leftNames| && column < |rightNames|
    requires (forall l | l in left :: |l| == |leftNames|) && (forall r | r in right :: |r| == |rightNames|)
    requires IndexIsExact(Plan(left, right, key, index, []), column)
    ensures result == if exists k | 0 <= k < |wanted| :: wanted[k] !in leftNames && wanted[k] !in rightNames
                      then DB_NAME_ERROR else DB_FINISHED
    ensures result != DB_FINISHED ==> rows == []
    ensures result == DB_FINISHED ==>
      && (forall p: (nat, nat) :: p in pairs <==> p.0 < |left| && p.1 < |right| && left[p.0][key] == right[p.1][column])
      && NoneTwice(pairs) && LeftMajor(pairs) && |rows| == |pairs|
      && forall i | 0 <= i < |rows| ::
           && pairs[i].0 < |left| && pairs[i].1 < |right|
           && JoinedByName(leftNames, rightNames, wanted, rows[i], left[pairs[i].0], right[pairs[i].1])
  {
    hide AllJoined, Outer, NoneTwice, LeftMajor, IndexIsExact, Plan.Valid, Plan.IndexInRange, JoinedByName;
    var m := GenerateJoinResult(leftNames, rightNames, wanted);
    pairs, rows := [], [];
    if m.NameError? {
      return pairs, rows, DB_NAME_ERROR;
    }
    var plan := Plan(left, right, key, index, m.sources);
    PlanFits(plan, leftNames, rightNames, column);
    var machine := new Machine(plan);
    pairs, rows, result := Run(machine);
    OuterOrder(plan, column, 0);
    forall p: (nat, nat)
      ensures p in pairs <==> p.0 < |left| && p.1 < |right| && left[p.0][key] == right[p.1][column]
    {
      NestedLoopsJoin(plan, column, p);
    }
    SameLength(plan, rows, pairs);
    forall i | 0 <= i < |rows|
      ensures pairs[i].0 < |left| && pairs[i].1 < |right|
      ensures JoinedByName(leftNames, rightNames, wanted, rows[i], left[pairs[i].0], right[pairs[i].1])
    {
      RowByName(plan, leftNames, rightNames, wanted, rows, pairs, i);
    }
  }

  lemma SameLength(plan: Plan, rows: seq<Row>, pairs: seq<(nat, nat)>)
    requires plan.Valid() && AllJoined(plan, rows, pairs)
    ensures |rows| == |pairs|
  {
  }

  lemma RowByName(plan: Plan, leftNames: seq<string>, rightNames: seq<string>, wanted: seq<string>, rows: seq<Row>,
                  pairs: seq<(nat, nat)>, i: nat)
    requires plan.Valid() && AllJoined(plan, rows, pairs) && i < |rows|
    requires (forall l | l in plan.left :: |l| == |leftNames|) && (forall r | r in plan.right :: |r| == |rightNames|)
    requires |plan.sources| == |wanted|
    requires forall k | 0 <= k < |wanted| ::
      match plan.sources[k]
      case FromLeft(c) => IsColumn(leftNames, wanted[k], c)
      case FromRight(c) => wanted[k] !in leftNames && IsColumn(rightNames, wanted[k], c)
    ensures i < |pairs| && pairs[i].0 < |plan.left| && pairs[i].1 < |plan.right|
    ensures JoinedByName(leftNames, rightNames, wanted, rows[i], plan.left[pairs[i].0], plan.right[pairs[i].1])
  {
    var l, r := plan.left[pairs[i].0], plan.right[pairs[i].1];
    assert l in plan.left && r in plan.right;
    WholeRow(plan, rows, pairs, i);
    forall k, c: nat | 0 <= k < |wanted| && IsColumn(leftNames, wanted[k], c)
      ensures rows[i][k] == l[c]
    {
      JoinedCells(plan, rows, pairs, i, k);
      OneColumn(leftNames, wanted[k], c, plan.sources[k].column);
    }
    forall k, c: nat | 0 <= k < |wanted| && wanted[k] !in leftNames && IsColumn(rightNames, wanted[k], c)
      ensures rows[i][k] == r[c]
    {
      JoinedCells(plan, rows, pairs, i, k);
      OneColumn(leftNames, wanted[k], plan.sources[k].column, 0);
      OneColumn(rightNames, wanted[k], c, plan.sources[k].column);
    }
  }

  lemma WholeRow(plan: Plan, rows: seq<Row>, pairs: seq<(nat, nat)>, i: nat)
    requires plan.Valid() && AllJoined(plan, rows, pairs) && i < |rows|
    ensures |rows[i]| == |plan.sources|
  {
  }

  lemma OneColumn(names: seq<string>, name: string, c: nat, d: nat)
    ensures IsColumn(names, name, c) && IsColumn(names, name, d) ==> c == d
    ensures IsColumn(names, name, c) ==> name in names
  {
    if c < d <= |names| {
      assert names[..d][c] == names[c];
    } else if d < c <= |names| {
      assert names[..c][d] == names[d];
    }
  }

  lemma PlanFits(plan: Plan, leftNames: seq<string>, rightNames: seq<string>, column: nat)
    requires plan.key < |leftNames| && column < |rightNames|
    requires (forall l | l in plan.left :: |l| == |leftNames|) && (forall r | r in plan.right :: |r| == |rightNames|)
    requires forall s | s in plan.sources :: if s.FromLeft? then s.column < |leftNames| else s.column < |rightNames|
    requires IndexIsExact(Plan(plan.left, plan.right, plan.key, plan.index, []), column)
    ensures plan.Valid() && plan.IndexInRange() && IndexIsExact(plan, column)
  {
    var bare := Plan(plan.left, plan.right, plan.key, plan.index, []);
    assert forall v: int :: plan.Lookup(v) == bare.Lookup(v);
    forall v, r: nat | v in plan.index && r in plan.index[v]
      ensures r < |plan.right|
    {
      InIndex(bare, column, v, r);
    }
  }

  lemma InIndex(plan: Plan, column: nat, v: int, r: nat)
    requires IndexIsExact(plan, column) && r in plan.Lookup(v)
    ensures r < |plan.right|
  {
  }
}
