/** Tokens and surface syntax of AQL conditions, and the bytes the parser emits for them. */
module AqlSyntax {
  import opened Bytes
  import opened LvmCode
  import Lvm

  datatype Token =
    | LEFT_PAREN | RIGHT_PAREN | END | NONE | OTHER
    | ADD | SUB | MUL | DIV
    | EQUAL | NOT_EQUAL | GT | LT | GEQ | LEQ
    | AND | OR
    | STRING_VALUE | FLOAT_VALUE
    | INTEGER_VALUE(number: long)
    | IDENTIFIER(name: string)

  predicate IsOp(t: Token) { t.ADD? || t.SUB? || t.MUL? || t.DIV? }

  predicate IsCmp(t: Token) { t.EQUAL? || t.NOT_EQUAL? || t.GT? || t.LT? || t.GEQ? || t.LEQ? }

  predicate IsConnector(t: Token) { t.AND? || t.OR? }

  type OpToken = t: Token | IsOp(t) witness ADD
  type CmpToken = t: Token | IsCmp(t) witness EQUAL
  type ConnToken = t: Token | IsConnector(t) witness AND
  type Table = s: seq<string> | |s| <= 0xFF

  function OpCode(t: OpToken): word {
    match t case ADD => LVM_ADD case SUB => LVM_SUB case MUL => LVM_MUL case DIV => LVM_DIV
  }

  function CmpCode(t: CmpToken): word {
    match t
    case GT => LVM_GE case GEQ => LVM_GEQ case LT => LVM_LE case LEQ => LVM_LEQ
    case EQUAL => LVM_EQ case NOT_EQUAL => LVM_NEQ
  }

  function ConnCode(t: ConnToken): word { if t == AND then LVM_AND else LVM_OR }

  // ----- Surface syntax

  datatype Atom = Name(name: string) | Number(number: long)

  /** An infix expression: a first operand and any number of operators with their right operands. */
  datatype Infix = Infix(first: Arg, tail: Tail)
  datatype Tail = Stop | More(op: OpToken, arg: Arg, rest: Tail)
  datatype Arg = Plain(atom: Atom) | Group(inner: Infix)

  datatype Comparison = Comparison(left: Infix, cmp: CmpToken, right: Infix)

  /** A condition i1 k1 i2 k2 ... in of comparisons and enclosed conditions, the first of which is a
      comparison. It may also end badly: with an expression that no comparison operator follows, or
      with an enclosed condition that is not closed. */
  datatype Where = Where(first: Comparison, rest: Chain)
  datatype Chain = Last | Link(conn: ConnToken, item: Item, rest: Chain)
  datatype Item =
    | Compared(comparison: Comparison)
    | Enclosed(inner: Where)
    | Broken(expr: Infix)
    | Unclosed(inner: Where)

  const OK: int := 2
  const SYNTAX_ERROR: int := 3

  /** What the parser returns for a condition, 0 for one that is broken. */
  function Outcome(t: Chain): (status: int)
    ensures status == OK || status == 0 || status == SYNTAX_ERROR
  {
    if t.Last? then OK
    else if ItemOutcome(t.item) == OK then Outcome(t.rest)
    else ItemOutcome(t.item)
  }

  function ItemOutcome(item: Item): (status: int)
    ensures status == OK || status == 0 || status == SYNTAX_ERROR
  {
    if item.Broken? then 0 else if item.Unclosed? then SYNTAX_ERROR else OK
  }

  // ----- Token sequences

  function AtomToken(a: Atom): Token {
    match a case Name(n) => IDENTIFIER(n) case Number(v) => INTEGER_VALUE(v)
  }

  function PrintInfix(e: Infix): (s: seq<Token>)
    ensures |s| > 0
  {
    PrintFirst(e.first) + PrintTail(e.tail)
  }

  /** A first operand in parentheses needs two closing ones: one is read with the expression. */
  function PrintFirst(a: Arg): (s: seq<Token>)
    ensures |s| > 0
  {
    match a
    case Plain(atom) => [AtomToken(atom)]
    case Group(e) => [LEFT_PAREN] + PrintInfix(e) + [RIGHT_PAREN, RIGHT_PAREN]
  }

  function PrintTail(t: Tail): seq<Token> {
    match t
    case Stop => []
    case More(op, arg, rest) => [op] + PrintArg(arg) + PrintTail(rest)
  }

  function PrintArg(a: Arg): (s: seq<Token>)
    ensures |s| > 0
  {
    match a
    case Plain(atom) => [AtomToken(atom)]
    case Group(e) => [LEFT_PAREN] + PrintInfix(e) + [RIGHT_PAREN]
  }

  function PrintComparison(c: Comparison): (s: seq<Token>)
    ensures |s| > 0
  {
    PrintInfix(c.left) + [c.cmp] + PrintInfix(c.right)
  }

  /** The condition ends with a comparison, which reads a closing parenthesis that follows it. */
  predicate EndsOpen(t: Chain) {
    t.Last? || (if t.rest.Last? then t.item.Compared? else EndsOpen(t.rest))
  }

  function PrintWhere(w: Where): seq<Token> {
    PrintComparison(w.first) + PrintChain(w.rest)
  }

  function PrintChain(t: Chain): seq<Token> {
    match t
    case Last => []
    case Link(k, item, rest) => [k] + PrintItem(item) + PrintChain(rest)
  }

  /** An enclosed condition that ends with a comparison needs two closing parentheses, too. */
  function PrintItem(item: Item): seq<Token> {
    match item
    case Compared(x) => PrintComparison(x)
    case Enclosed(w) =>
      [LEFT_PAREN] + PrintWhere(w) + if EndsOpen(w.rest) then [RIGHT_PAREN, RIGHT_PAREN] else [RIGHT_PAREN]
    case Broken(e) => PrintInfix(e)
    case Unclosed(w) => [LEFT_PAREN] + PrintWhere(w)
  }

  // ----- Registered variables, in the order the parser meets them

  function RegAtom(tab: seq<string>, a: Atom): seq<string> {
    match a case Name(n) => Lvm.Registered(tab, n) case Number(_) => tab
  }

  function RegInfix(tab: seq<string>, e: Infix): seq<string>
    decreases e
  {
    RegTail(RegArg(tab, e.first), e.tail)
  }

  function RegTail(tab: seq<string>, t: Tail): seq<string>
    decreases t
  {
    match t
    case Stop => tab
    case More(_, arg, rest) => RegTail(RegArg(tab, arg), rest)
  }

  function RegArg(tab: seq<string>, a: Arg): seq<string>
    decreases a
  {
    match a case Plain(atom) => RegAtom(tab, atom) case Group(e) => RegInfix(tab, e)
  }

  function RegComparison(tab: seq<string>, c: Comparison): seq<string> {
    RegInfix(RegInfix(tab, c.left), c.right)
  }

  function RegWhere(tab: seq<string>, w: Where): seq<string>
    decreases w
  {
    RegChain(RegComparison(tab, w.first), w.rest)
  }

  function RegChain(tab: seq<string>, t: Chain): seq<string>
    decreases t
  {
    match t
    case Last => tab
    case Link(_, item, rest) => RegChain(RegItem(tab, item), rest)
  }

  function RegItem(tab: seq<string>, item: Item): seq<string>
    decreases item
  {
    match item
    case Compared(x) => RegComparison(tab, x)
    case Enclosed(w) => RegWhere(tab, w)
    case Broken(e) => RegInfix(tab, e)
    case Unclosed(w) => RegWhere(tab, w)
  }

  // ----- Emitted bytes

  /** The variable's number is its place in the table. */
  function AtomOperand(tab: Table, a: Atom): Operand {
    match a
    case Name(n) => Operand(LVM_VARIABLE, Lvm.IndexOf(tab, n))
    case Number(v) => Operand(LVM_LONG, v)
  }

  function EmitAtom(tab: Table, a: Atom): (s: seq<byte>)
    ensures |s| == 8
  {
    EncLeaf(AtomOperand(tab, a))
  }

  function EmitArg(tab: Table, a: Arg): (s: seq<byte>)
    ensures |s| >= 8
    decreases a
  {
    match a case Plain(atom) => EmitAtom(tab, atom) case Group(e) => EmitInfix(tab, e)
  }

  /** What is left in the buffer for an expression, whatever its shape: the first operator
      goes before the whole expression so far, a later one only before its right operand. */
  function EmitInfix(tab: Table, e: Infix): (s: seq<byte>)
    ensures |s| >= 8
    decreases e
  {
    match e.tail
    case Stop => EmitArg(tab, e.first)
    case More(op, arg, rest) =>
      EncOp(LVM_ARITH_OP, OpCode(op)) + EmitArg(tab, e.first) + EmitArg(tab, arg) + EmitTail(tab, rest)
  }

  function EmitTail(tab: Table, t: Tail): seq<byte>
    decreases t
  {
    match t
    case Stop => []
    case More(op, arg, rest) => EncOp(LVM_ARITH_OP, OpCode(op)) + EmitArg(tab, arg) + EmitTail(tab, rest)
  }

  function EmitComparison(tab: Table, c: Comparison): (s: seq<byte>)
    ensures |s| >= 20
  {
    EncOp(LVM_CMP_OP, CmpCode(c.cmp)) + EmitInfix(tab, c.left) + EmitInfix(tab, c.right)
  }

  function ConnBytes(k: ConnToken): (s: seq<byte>)
    ensures |s| == 4
  {
    EncOp(LVM_CMP_OP, ConnCode(k))
  }

  function Inserted(code: seq<byte>, at: nat, head: seq<byte>): (s: seq<byte>)
    requires at <= |code|
    ensures |s| == |code| + |head|
  {
    code[..at] + head + code[at..]
  }

  /** What becomes of the code when a condition is compiled: the comparison is appended, and the first
      connective behind it is inserted before all of the code. */
  function CodeWhere(tab: Table, code: seq<byte>, w: Where): (s: seq<byte>)
    ensures |s| == |code| + WhereSize(tab, w)
    decreases w
  {
    CodeChain(tab, code + EmitComparison(tab, w.first), 0, w.rest)
  }

  /** The next connective is inserted at `at`, and the one after it where the code ends then. */
  function CodeChain(tab: Table, code: seq<byte>, at: nat, t: Chain): (s: seq<byte>)
    requires at <= |code|
    ensures |s| == |code| + ChainSize(tab, t)
    decreases t
  {
    match t
    case Last => code
    case Link(k, item, rest) =>
      CodeChain(tab, CodeItem(tab, Inserted(code, at, ConnBytes(k)), item), |code| + 4, rest)
  }

  function CodeItem(tab: Table, code: seq<byte>, item: Item): (s: seq<byte>)
    ensures |s| == |code| + ItemSize(tab, item)
    decreases item
  {
    match item
    case Compared(x) => code + EmitComparison(tab, x)
    case Enclosed(w) => CodeWhere(tab, code, w)
    case Broken(_) => code
    case Unclosed(w) => CodeWhere(tab, code, w)
  }

  /** The bytes by which the code grows. */
  function WhereSize(tab: Table, w: Where): (n: nat)
    ensures n >= 20
    decreases w
  {
    |EmitComparison(tab, w.first)| + ChainSize(tab, w.rest)
  }

  function ChainSize(tab: Table, t: Chain): nat
    decreases t
  {
    if t.Last? then 0 else 4 + ItemSize(tab, t.item) + ChainSize(tab, t.rest)
  }

  function ItemSize(tab: Table, item: Item): (n: nat)
    ensures ItemOutcome(item) == OK ==> n >= 20
    decreases item
  {
    match item
    case Compared(x) => |EmitComparison(tab, x)|
    case Enclosed(w) => WhereSize(tab, w)
    case Broken(_) => 0
    case Unclosed(w) => WhereSize(tab, w)
  }
}
