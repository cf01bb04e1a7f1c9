/** A condition from its tokens to its answer, with neither the shape of the condition nor that of the code. */
module AqlTokens {
  import opened LvmCode
  import opened LvmMeaning
  import opened AqlSyntax
  import opened AqlRun
  import opened AqlTrees
  import opened AqlSaid
  import opened AqlMeaning
  import Lvm

  /** Asks two comparisons, the first of them of a calculated value. */
  method AskTokens(x: string, op: OpToken, a: long, cmp: CmpToken, b: long, conn: ConnToken, y: string, other: CmpToken,
                   c: long, env: Assignment)
    returns (status: int)
    ensures status ==
      if op == DIV && a == 0 then MATH_ERROR
      else
        var first, second := Holds(cmp, Calculated(op, env(x), a).value, b), Holds(other, env(y), c);
        if (if conn == AND then first && second else first || second) then TRUE else FALSE
  {
    hide Single, SingleComparison, ComparisonSays, PrintComparison, RegComparison, EmitComparison, Compilable, Both,
         WhereSays, Flat;
    var toks := [IDENTIFIER(x), op, INTEGER_VALUE(a), cmp, INTEGER_VALUE(b), conn, IDENTIFIER(y), other, INTEGER_VALUE(c)];
    ghost var left, right := Applied(x, op, a), Alone(Number(b));
    ghost var first, second := Comparison(left, cmp, right), Comparison(Alone(Name(y)), other, Alone(Number(c)));
    AppliedIs(x, op, a, env);
    AloneIs(Number(b), [x], env);
    AloneIs(Name(y), [x], env);
    AloneIs(Number(c), Lvm.Registered([x], y), env);
    ComparisonIs(left, cmp, right, [], env);
    ComparisonIs(Alone(Name(y)), other, Alone(Number(c)), [x], env);
    BothSay(first, conn, second, env);
    BothCompile(toks, first, conn, second);
    status := Ask(toks, 128, 2, env, Both(first, conn, second));
  }

  function Alone(x: Atom): Infix { Infix(Plain(x), Stop) }

  function Applied(x: string, op: OpToken, a: long): Infix { Infix(Plain(Name(x)), More(op, Plain(Number(a)), Stop)) }

  function Both(first: Comparison, conn: ConnToken, second: Comparison): Where {
    Where(first, Link(conn, Compared(second), Last))
  }

  lemma AloneIs(x: Atom, names: seq<string>, env: Assignment)
    ensures Single(Alone(x)) && PrintInfix(Alone(x)) == [AtomToken(x)] && RegInfix(names, Alone(x)) == RegAtom(names, x)
    ensures InfixSays(Alone(x), env) == match x case Name(n) => Just(env(n)) case Number(v) => Just(v)
    ensures forall tab: Table :: |EmitInfix(tab, Alone(x))| <= 20
  {
    var e := Alone(x);
    assert SingleArg(e.first);
    assert PrintTail(e.tail) == [] && PrintFirst(e.first) == [AtomToken(x)];
    assert RegArg(names, e.first) == RegAtom(names, x);
    assert InfixSays(e, env) == ArgSays(e.first, env);
    assert forall tab: Table :: |EmitArg(tab, e.first)| == 8;
  }

  lemma AppliedIs(x: string, op: OpToken, a: long, env: Assignment)
    ensures var e := Applied(x, op, a);
      && Single(e) && PrintInfix(e) == [IDENTIFIER(x), op, INTEGER_VALUE(a)] && RegInfix([], e) == [x]
      && InfixSays(e, env) == Calculated(op, env(x), a)
    ensures forall tab: Table :: |EmitInfix(tab, Applied(x, op, a))| <= 20
  {
    var e := Applied(x, op, a);
    var t := e.tail;
    assert SingleArg(e.first) && SingleArg(t.arg);
    assert PrintArg(t.arg) == [INTEGER_VALUE(a)] && PrintTail(Stop) == [];
    assert PrintTail(t) == [op] + PrintArg(t.arg) + PrintTail(Stop);
    assert PrintFirst(e.first) == [IDENTIFIER(x)];
    assert RegArg([], e.first) == [x] && RegArg([x], t.arg) == [x] && RegTail([x], Stop) == [x];
    assert RegTail([x], t) == [x];
    assert ArgSays(e.first, env) == Just(env(x)) && ArgSays(t.arg, env) == Just(a);
    forall tab: Table
      ensures |EmitInfix(tab, e)| <= 20
    {
      assert |EmitArg(tab, e.first)| == |EmitArg(tab, t.arg)| == 8 && EmitTail(tab, Stop) == [];
    }
  }

  lemma ComparisonIs(left: Infix, cmp: CmpToken, right: Infix, names: seq<string>, env: Assignment)
    requires Single(left) && Single(right)
    requires forall tab: Table :: |EmitInfix(tab, left)| <= 20 && |EmitInfix(tab, right)| <= 20
    ensures var x := Comparison(left, cmp, right);
      && SingleComparison(x) && PrintComparison(x) == PrintInfix(left) + [cmp] + PrintInfix(right)
      && RegComparison(names, x) == RegInfix(RegInfix(names, left), right)
      && ComparisonSays(x, env) == match (InfixSays(left, env), InfixSays(right, env))
           case (Just(a), Just(b)) => Just(Holds(cmp, a, b))
           case _ => Undefined
    ensures forall tab: Table :: |EmitComparison(tab, Comparison(left, cmp, right))| <= 44
  {
  }

  lemma BothSay(first: Comparison, conn: ConnToken, second: Comparison, env: Assignment)
    requires SingleComparison(first) && SingleComparison(second)
    ensures var w := Both(first, conn, second);
      && SingleWhere(w) && Nests(w.rest) && Flat(w.rest)
      && PrintWhere(w) == PrintComparison(first) + [conn] + PrintComparison(second)
      && RegWhere([], w) == RegComparison(RegComparison([], first), second)
      && WhereSays(w, env) == Connected(conn, ComparisonSays(first, env), ComparisonSays(second, env))
  {
    hide PrintComparison, RegComparison, ComparisonSays, SingleComparison;
    var t := Link(conn, Compared(second), Last);
    assert SingleItem(t.item) && SingleChain(Last);
    assert ItemSays(t.item, env) == ComparisonSays(second, env);
    assert ChainSays(ComparisonSays(second, env), Last, env) == ComparisonSays(second, env);
    assert PrintItem(t.item) == PrintComparison(second) && PrintChain(Last) == [];
    assert PrintChain(t) == [conn] + PrintComparison(second);
    var names := RegComparison([], first);
    assert RegItem(names, t.item) == RegComparison(names, second);
    assert RegChain(names, t) == RegComparison(names, second);
  }

  lemma BothCompile(toks: seq<Token>, first: Comparison, conn: ConnToken, second: Comparison)
    requires SingleWhere(Both(first, conn, second)) && second.left.first.Plain?
    requires toks == PrintWhere(Both(first, conn, second)) && |RegWhere([], Both(first, conn, second))| <= 2
    requires forall tab: Table :: |EmitComparison(tab, first)| <= 44 && |EmitComparison(tab, second)| <= 44
    ensures Compilable(toks, Both(first, conn, second), 128, 2)
  {
    hide PrintWhere, RegWhere, SingleWhere, EmitComparison, Slack, WhereAt, WhereNeed;
    var w := Both(first, conn, second);
    assert toks[0..0 + |toks|] == toks && Nests(Last) && Nests(w.rest);
    WhereWritten(toks, 0, w);
    BothNeed(RegWhere([], w), first, conn, second);
  }

  lemma BothNeed(tab: Table, first: Comparison, conn: ConnToken, second: Comparison)
    requires |EmitComparison(tab, first)| <= 44 && |EmitComparison(tab, second)| <= 44
    ensures WhereNeed(tab, Both(first, conn, second)) <= 92
  {
    hide EmitComparison, Slack;
    var item := Compared(second);
    assert ItemNeed(tab, item) <= 44 && ItemSize(tab, item) <= 44 && ChainNeed(tab, Last) == -1;
    assert ChainNeed(tab, Link(conn, item, Last)) <= 48;
  }
}
