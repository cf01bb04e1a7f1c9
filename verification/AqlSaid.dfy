/** What a condition says of the values of its names, in the terms of its tokens: arithmetic on
    numbers, comparisons of them, and truth values. No operator code and no table of the machine
    appears here. */
module AqlSaid {
  import opened LvmCode
  import opened AqlSyntax
  import opened AqlTrees

  /** A division by zero leaves the whole condition without a value. */
  datatype Maybe<T> = Just(value: T) | Undefined

  type Assignment = string -> long

  /** The whole part of the quotient, without its sign where they differ. */
  function Quotient(a: int, b: int): int
    requires b != 0
  {
    if (a < 0) == (b < 0) then Size(a) / Size(b) else -(Size(a) / Size(b))
  }

  function Size(a: int): nat { if a < 0 then -a else a }

  /** Results that do not fit 32 bits wrap around. */
  function Calculated(op: OpToken, a: long, b: long): Maybe<long> {
    match op
    case ADD => Just(Wrap32(a + b))
    case SUB => Just(Wrap32(a - b))
    case MUL => Just(Wrap32(a * b))
    case DIV => if b == 0 then Undefined else Just(Wrap32(Quotient(a, b)))
  }

  predicate Holds(cmp: CmpToken, a: int, b: int) {
    match cmp
    case GT => a > b
    case GEQ => a >= b
    case LT => a < b
    case LEQ => a <= b
    case EQUAL => a == b
    case NOT_EQUAL => a != b
  }

  function InfixSays(e: Infix, env: Assignment): Maybe<long>
    requires Single(e)
    decreases e
  {
    match e.tail
    case Stop => ArgSays(e.first, env)
    case More(op, arg, _) =>
      match (ArgSays(e.first, env), ArgSays(arg, env))
      case (Just(a), Just(b)) => Calculated(op, a, b)
      case _ => Undefined
  }

  function ArgSays(a: Arg, env: Assignment): Maybe<long>
    requires SingleArg(a)
    decreases a
  {
    match a
    case Plain(Name(n)) => Just(env(n))
    case Plain(Number(v)) => Just(v)
    case Group(e) => InfixSays(e, env)
  }

  function ComparisonSays(x: Comparison, env: Assignment): Maybe<bool>
    requires SingleComparison(x)
  {
    match (InfixSays(x.left, env), InfixSays(x.right, env))
    case (Just(a), Just(b)) => Just(Holds(x.cmp, a, b))
    case _ => Undefined
  }

  /** Both sides are looked at, also where one would do. */
  function Connected(k: ConnToken, x: Maybe<bool>, y: Maybe<bool>): Maybe<bool> {
    match (x, y)
    case (Just(a), Just(b)) => Just(if k == AND then a && b else a || b)
    case _ => Undefined
  }

  function WhereSays(w: Where, env: Assignment): Maybe<bool>
    requires SingleWhere(w)
    decreases w
  {
    ChainSays(ComparisonSays(w.first, env), w.rest, env)
  }

  /** A chain is grouped from the right. */
  function ChainSays(head: Maybe<bool>, t: Chain, env: Assignment): Maybe<bool>
    requires SingleChain(t)
    decreases t
  {
    if t.Last? then head else Connected(t.conn, head, ChainSays(ItemSays(t.item, env), t.rest, env))
  }

  function ItemSays(item: Item, env: Assignment): Maybe<bool>
    requires SingleItem(item)
    decreases item
  {
    match item case Compared(x) => ComparisonSays(x, env) case Enclosed(w) => WhereSays(w, env)
  }
}
