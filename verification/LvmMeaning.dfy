/** What the trees of the logic virtual machine mean under an assignment of its variables. */
module LvmMeaning {
  import opened Bytes
  import opened LvmCode

  const FALSE: int := 0
  const TRUE: int := 1
  const INVALID_IDENTIFIER: int := 2
  const SEMANTIC_ERROR: int := 3
  const MATH_ERROR: int := 4
  const VARIABLE_LIMIT_REACHED: int := 7
  const EXECUTION_ERROR: int := 8
  const DERIVATION_ERROR: int := 9

  predicate IsError(status: int) { status >= 2 }

  datatype Value = Val(v: long) | Fail(status: int)

  // ----- Closed trees: every variable has a slot

  ghost predicate ClosedOperand(o: Operand, slots: nat) {
    o.kind == LVM_VARIABLE ==> o.Id() < slots
  }

  ghost predicate ClosedNode(n: Node, slots: nat) {
    match n
    case Arith(_, l, r) => ClosedNode(l, slots) && ClosedNode(r, slots)
    case Leaf(o) => ClosedOperand(o, slots)
    case Junk(_) => true
  }

  ghost predicate ClosedLogic(t: Logic, slots: nat) {
    match t
    case Connect(_, a, b) => ClosedLogic(a, slots) && ClosedLogic(b, slots)
    case Not(a) => ClosedLogic(a, slots)
    case Compare(_, l, r) => ClosedNode(l, slots) && ClosedNode(r, slots)
    case LogicJunk(_) => true
  }

  // ----- Values

  function OperandToLong(o: Operand, env: seq<long>): long
    requires ClosedOperand(o, |env|)
  {
    if o.kind == LVM_LONG then o.value
    else if o.kind == LVM_VARIABLE then env[o.Id()]
    else 0
  }

  /** Division as the target's `/` does it: toward zero. */
  function TruncDiv(a: int, b: int): (q: int)
    requires b != 0
  {
    if b > 0 then (if a >= 0 then a / b else -(-a / b))
    else (if a >= 0 then -(a / -b) else -a / -b)
  }

  /** What is left over is smaller than the divisor and has the sign of the dividend. */
  lemma TruncDivTruncates(a: int, b: int)
    requires b != 0
    ensures var rest := a - TruncDiv(a, b) * b;
      -Abs(b) < rest < Abs(b) && (a >= 0 ==> rest >= 0) && (a <= 0 ==> rest <= 0)
  {
  }

  function Abs(x: int): int { if x < 0 then -x else x }

  function Apply(op: word, a: long, b: long): Value {
    if op == LVM_ADD then Val(Wrap32(a + b))
    else if op == LVM_SUB then Val(Wrap32(a - b))
    else if op == LVM_MUL then Val(Wrap32(a * b))
    else if op == LVM_DIV then
      if b == 0 then Fail(MATH_ERROR) else Val(Wrap32(TruncDiv(a, b)))
    else Fail(EXECUTION_ERROR)
  }

  function ExprValue(n: Node, env: seq<long>): Value
    requires ClosedNode(n, |env|)
  {
    match n
    case Leaf(o) => Val(OperandToLong(o, env))
    case Junk(_) => Fail(SEMANTIC_ERROR)
    case Arith(op, l, r) =>
      match ExprValue(l, env)
      case Fail(s) => Fail(s)
      case Val(a) =>
        match ExprValue(r, env)
        case Fail(s) => Fail(s)
        case Val(b) => Apply(op, a, b)
  }

  function Truth(b: bool): int { if b then TRUE else FALSE }

  function CompareValues(op: word, a: int, b: int): int {
    if op == LVM_EQ then Truth(a == b)
    else if op == LVM_NEQ then Truth(a != b)
    else if op == LVM_GE then Truth(a > b)
    else if op == LVM_GEQ then Truth(a >= b)
    else if op == LVM_LE then Truth(a < b)
    else if op == LVM_LEQ then Truth(a <= b)
    else EXECUTION_ERROR
  }

  function LogicValue(t: Logic, env: seq<long>): int
    requires ClosedLogic(t, |env|)
  {
    match t
    case LogicJunk(_) => SEMANTIC_ERROR
    case Not(a) =>
      var x := LogicValue(a, env);
      if IsError(x) then x else Truth(x == FALSE)
    case Connect(op, a, b) =>
      var x := LogicValue(a, env);
      if IsError(x) then x
      else
        var y := LogicValue(b, env);
        if IsError(y) then y
        else if op == LVM_AND then Truth(x == TRUE && y == TRUE)
        else Truth(x == TRUE || y == TRUE)
    case Compare(op, l, r) =>
      match ExprValue(l, env)
      case Fail(s) => s
      case Val(a) =>
        match ExprValue(r, env)
        case Fail(s) => s
        case Val(b) => CompareValues(op, a, b)
  }

  /** The status of a whole program: one that does not start with a comparison or a
      connective is an execution error rather than a semantic one. */
  function ProgramStatus(t: Logic, env: seq<long>): int
    requires ClosedLogic(t, |env|)
  {
    if t.LogicJunk? then EXECUTION_ERROR else LogicValue(t, env)
  }
}
