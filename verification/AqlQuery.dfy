/** A query from its tokens to its rows: the condition is compiled and asked of every row of a relation. */
module AqlQuery {
  import opened Bytes
  import opened LvmCode
  import opened LvmMeaning
  import opened AqlSyntax
  import opened AqlTrees
  import opened AqlSaid
  import opened AqlMeaning
  import opened Select
  import Derivation
  import InlineIndex
  import Lvm

  /** The values of row `r` by the names of their attributes. */
  function ValuesOf(plan: Plan, r: nat): (env: Assignment)
    requires plan.Valid() && r < |plan.rows|
    ensures forall k | 0 <= k < |plan.attributes| :: env(plan.attributes[k]) == plan.rows[r][plan.columns[k]]
  {
    forall k | 0 <= k < |plan.attributes|
      ensures plan.Value(r, plan.attributes[k]) == plan.rows[r][plan.columns[k]]
    {
      Lvm.IndexOfUnique(plan.attributes, plan.attributes[k], k);
    }
    name => if name in plan.attributes then plan.Value(r, name) else 0
  }

  /** A row meets a compiled condition if and only if that is what the condition says of its values. */
  lemma MeetsSays(plan: Plan, w: Where, wanted: bool, r: nat)
    requires SingleWhere(w) && Flat(w.rest) && |RegWhere([], w)| <= 0xFF && r < |plan.rows|
    requires Nests(w.rest) && Askable(plan, RegWhere([], w), Program(w))
    ensures Meets(plan, RegWhere([], w), Program(w), Truth(wanted), r)
      <==> WhereSays(w, ValuesOf(plan, r)) == Just(wanted)
  {
    hide Program, WhereSays, LogicValue, SingleWhere, RegWhere, Flat, Nests;
    var names, env := RegWhere([], w), ValuesOf(plan, r);
    RowGives(plan, names, r);
    ProgramIsMeant(w);
    WhereMeans([], names, w, plan.Env(r, names), env);
  }

  lemma RowGives(plan: Plan, names: Table, r: nat)
    requires plan.Valid() && r < |plan.rows| && forall v | v in names :: v in plan.attributes
    ensures Gives(ValuesOf(plan, r), names, plan.Env(r, names))
  {
    forall name | name in names
      ensures Lvm.IndexOf(names, name) < |names| && names[Lvm.IndexOf(names, name)] == name
    {
      var k :| 0 <= k < |names| && names[k] == name;
      assert Slot(names, k) == Lvm.IndexOf(names, name);
    }
  }

  lemma IsProgram(w: Where)
    requires SingleWhere(w) && Nests(w.rest) && |RegWhere([], w)| <= 0xFF
    ensures Program(w) == Built(RegWhere([], w), [], w)
  {
  }

  /** Compiles a condition and scans the relation. What is emitted are the rows of whose values the condition
      says yes, each once and in their order. */
  method Query(plan: Plan, toks: seq<Token>, size: nat, slots: byte, ghost w: Where)
    returns (emitted: seq<nat>, tuples: seq<seq<long>>, result: int)
    requires Compilable(toks, w, size, slots) && Flat(w.rest)
    requires plan.Valid() && forall v | v in RegWhere([], w) :: v in plan.attributes
    ensures result == DB_FINISHED && AreTuples(plan, emitted, tuples)
    ensures forall r | 0 <= r < |plan.rows| :: r in emitted <==> WhereSays(w, ValuesOf(plan, r)) == Just(true)
    ensures forall i, j | 0 <= i < j < |emitted| :: emitted[i] < emitted[j]
  {
    hide Program, WhereSays, SingleWhere, RegWhere, ClosedLogic, WfLogic, EncLogic, Nests, Flat, Meets;
    CompilableStart(toks, w, size, slots);
    WhereDistinct([], w);
    WhereClosed([], RegWhere([], w), [], w, |RegWhere([], w)|);
    IsProgram(w);
    var p := Compile(toks, size, slots, w);
    var h := new Selection(plan, p, Program(w), false, null);
    ghost var names := p.names;
    emitted, tuples, result := Run(h);
    MatchingIs(plan, names, Program(w), TRUE, 0, |plan.rows|);
    forall r | 0 <= r < |plan.rows|
      ensures r in emitted <==> WhereSays(w, ValuesOf(plan, r)) == Just(true)
    {
      MeetsSays(plan, w, true, r);
    }
  }

  /** The same through the inline index on one of the variables, in the ranges that it can be searched for. */
  method QueryByIndex(plan: Plan, toks: seq<Token>, size: nat, slots: byte, ghost w: Where, v: nat, width: Width)
    returns (emitted: seq<nat>, tuples: seq<seq<long>>, result: int)
    requires Compilable(toks, w, size, slots) && Flat(w.rest)
    requires plan.Valid() && forall v | v in RegWhere([], w) :: v in plan.attributes
    requires Bounded(RegWhere([], w), Program(w), slots, v)
    requires Searchable(ColumnOf(plan, RegWhere([], w)[v]), Derivation.Ranges(Program(w), slots).ranges[v], width)
    requires |plan.rows| < InlineIndex.TUPLE_LIMIT / 2 - 1
    ensures AreTuples(plan, emitted, tuples)
    ensures forall r | 0 <= r < |plan.rows| :: r in emitted <==> WhereSays(w, ValuesOf(plan, r)) == Just(true)
    ensures forall i, j | 0 <= i < j < |emitted| :: emitted[i] < emitted[j]
  {
    hide Program, WhereSays, SingleWhere, RegWhere, ClosedLogic, WfLogic, EncLogic, Nests, Flat, Meets, Bounded,
         Searchable, Matching;
    CompilableStart(toks, w, size, slots);
    WhereDistinct([], w);
    WhereClosed([], RegWhere([], w), [], w, |RegWhere([], w)|);
    IsProgram(w);
    var p := Compile(toks, size, slots, w);
    ghost var names := p.names;
    emitted, tuples, result := SelectByIndex(plan, p, Program(w), v, width);
    MatchingIs(plan, names, Program(w), TRUE, 0, |plan.rows|);
    forall r | 0 <= r < |plan.rows|
      ensures r in emitted <==> WhereSays(w, ValuesOf(plan, r)) == Just(true)
    {
      MeetsSays(plan, w, true, r);
    }
  }

  // ----- No name is registered twice

  lemma AddedOnce(names: seq<string>, name: string)
    requires Distinct(names)
    ensures Distinct(Lvm.Registered(names, name))
  {
  }

  lemma {:induction false} InfixDistinct(names: seq<string>, e: Infix)
    requires Distinct(names)
    ensures Distinct(RegInfix(names, e))
    decreases e
  {
    hide Distinct;
    ArgDistinct(names, e.first);
    TailDistinct(RegArg(names, e.first), e.tail);
  }

  lemma {:induction false} TailDistinct(names: seq<string>, t: Tail)
    requires Distinct(names)
    ensures Distinct(RegTail(names, t))
    decreases t
  {
    hide Distinct;
    if t.More? {
      ArgDistinct(names, t.arg);
      TailDistinct(RegArg(names, t.arg), t.rest);
    }
  }

  lemma {:induction false} ArgDistinct(names: seq<string>, a: Arg)
    requires Distinct(names)
    ensures Distinct(RegArg(names, a))
    decreases a
  {
    hide Distinct, Lvm.Registered;
    match a {
      case Plain(Name(n)) => AddedOnce(names, n);
      case Plain(Number(_)) =>
      case Group(e) => InfixDistinct(names, e);
    }
  }

  lemma {:induction false} WhereDistinct(names: seq<string>, w: Where)
    requires Distinct(names)
    ensures Distinct(RegWhere(names, w))
    decreases w
  {
    hide Distinct;
    InfixDistinct(names, w.first.left);
    InfixDistinct(RegInfix(names, w.first.left), w.first.right);
    ChainDistinct(RegComparison(names, w.first), w.rest);
  }

  lemma {:induction false} ChainDistinct(names: seq<string>, t: Chain)
    requires Distinct(names)
    ensures Distinct(RegChain(names, t))
    decreases t
  {
    hide Distinct;
    if t.Link? {
      match t.item {
        case Compared(x) =>
          InfixDistinct(names, x.left);
          InfixDistinct(RegInfix(names, x.left), x.right);
        case Enclosed(w) => WhereDistinct(names, w);
        case Broken(e) => InfixDistinct(names, e);
        case Unclosed(w) => WhereDistinct(names, w);
      }
      ChainDistinct(RegItem(names, t.item), t.rest);
    }
  }
}
