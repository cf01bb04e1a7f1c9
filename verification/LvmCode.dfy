/** The bytecode of the logic virtual machine (LVM): node types, operators, and the
    prefix encoding of expression and predicate trees.

    Sizes are those of the 16-bit targets Contiki runs on: an enum takes two bytes,
    a `long` four, and both are stored with the low byte first. */
module LvmCode {
  import opened Bytes

  type long = x: int | -0x8000_0000 <= x < 0x8000_0000

  const LONG_MAX: long := 0x7FFF_FFFF
  const LONG_MIN: long := -0x8000_0000

  const NODE_TYPE_SIZE: nat := 2
  const OPERATOR_SIZE: nat := 2
  const OPERAND_SIZE: nat := 6

  // Node types
  const LVM_ARITH_OP: word := 0x10
  const LVM_OPERAND: word := 0x20
  const LVM_CMP_OP: word := 0x40

  // Operators
  const LVM_ADD: word := 0x11
  const LVM_SUB: word := 0x12
  const LVM_MUL: word := 0x13
  const LVM_DIV: word := 0x14
  const LVM_EQ: word := 0x41
  const LVM_NEQ: word := 0x42
  const LVM_GE: word := 0x43
  const LVM_GEQ: word := 0x44
  const LVM_LE: word := 0x45
  const LVM_LEQ: word := 0x46
  const LVM_AND: word := 0x81
  const LVM_OR: word := 0x82
  const LVM_NOT: word := 0x83

  // Operand types
  const LVM_VARIABLE: word := 0
  const LVM_LONG: word := 2

  /** An operator is a connective exactly when the bit 0x80 is set in it. */
  predicate IsConnective(op: word) {
    op / 0x80 % 2 == 1
  }

  // ----- Trees

  /** `kind` says whether `value` is a literal or, in its low byte, a variable number. */
  datatype Operand = Operand(kind: word, value: long) {
    function Id(): byte { value % 0x100 }
  }

  /** Operand trees, including the ones no parser emits: any operator code, any operand
      kind, and a node whose type is neither an operator nor an operand. */
  datatype Node =
    | Arith(op: word, left: Node, right: Node)
    | Leaf(operand: Operand)
    | Junk(nodeType: word)

  datatype Logic =
    | Connect(op: word, a: Logic, b: Logic)
    | Not(a: Logic)
    | Compare(op: word, left: Node, right: Node)
    | LogicJunk(nodeType: word)

  ghost predicate WfNode(n: Node) {
    match n
    case Arith(_, l, r) => WfNode(l) && WfNode(r)
    case Leaf(_) => true
    case Junk(t) => t != LVM_ARITH_OP && t != LVM_OPERAND
  }

  ghost predicate WfLogic(t: Logic) {
    match t
    case Connect(op, a, b) => IsConnective(op) && op != LVM_NOT && WfLogic(a) && WfLogic(b)
    case Not(a) => WfLogic(a)
    case Compare(op, l, r) => !IsConnective(op) && WfNode(l) && WfNode(r)
    case LogicJunk(ty) => ty != LVM_CMP_OP
  }

  // ----- Encoding

  function Enc16(v: word): (s: seq<byte>)
    ensures |s| == 2
  {
    [v % 0x100, v / 0x100]
  }

  function Dec16(lo: byte, hi: byte): (v: word)
  {
    lo + 0x100 * hi
  }

  /** The two's complement bit pattern of a `long`. */
  function Bits32(v: long): (u: int)
    ensures 0 <= u < 0x1_0000_0000
  {
    if v < 0 then v + 0x1_0000_0000 else v
  }

  /** The `long` nearest to zero that is congruent to `x` modulo 2^32: what the target's
      adder and multiplier leave in a register. */
  function Wrap32(x: int): (v: long)
    ensures (v - x) % 0x1_0000_0000 == 0
  {
    (x + 0x8000_0000) % 0x1_0000_0000 - 0x8000_0000
  }

  function Enc32(v: long): (s: seq<byte>)
    ensures |s| == 4
  {
    var u := Bits32(v);
    [u % 0x100, u / 0x100 % 0x100, u / 0x1_0000 % 0x100, u / 0x100_0000]
  }

  function Dec32(b0: byte, b1: byte, b2: byte, b3: byte): (v: long)
  {
    Wrap32(b0 + 0x100 * b1 + 0x1_0000 * b2 + 0x100_0000 * b3)
  }

  function EncOperand(o: Operand): (s: seq<byte>)
    ensures |s| == OPERAND_SIZE
  {
    Enc16(o.kind) + Enc32(o.value)
  }

  function EncOp(nodeType: word, op: word): (s: seq<byte>)
    ensures |s| == NODE_TYPE_SIZE + OPERATOR_SIZE
  {
    Enc16(nodeType) + Enc16(op)
  }

  function EncLeaf(o: Operand): (s: seq<byte>)
    ensures |s| == NODE_TYPE_SIZE + OPERAND_SIZE
  {
    Enc16(LVM_OPERAND) + EncOperand(o)
  }

  function EncNode(n: Node): seq<byte> {
    match n
    case Arith(op, l, r) => EncOp(LVM_ARITH_OP, op) + EncNode(l) + EncNode(r)
    case Leaf(o) => EncLeaf(o)
    case Junk(t) => Enc16(t)
  }

  function EncLogic(t: Logic): seq<byte> {
    match t
    case Connect(op, a, b) => EncOp(LVM_CMP_OP, op) + EncLogic(a) + EncLogic(b)
    case Not(a) => EncOp(LVM_CMP_OP, LVM_NOT) + EncLogic(a)
    case Compare(op, l, r) => EncOp(LVM_CMP_OP, op) + EncNode(l) + EncNode(r)
    case LogicJunk(ty) => Enc16(ty)
  }

  lemma Dec16Enc16(v: word)
    ensures Dec16(Enc16(v)[0], Enc16(v)[1]) == v
  {
  }

  lemma Digits32(u: int)
    requires 0 <= u < 0x1_0000_0000
    ensures u % 0x100 + 0x100 * (u / 0x100 % 0x100) + 0x1_0000 * (u / 0x1_0000 % 0x100) + 0x100_0000 * (u / 0x100_0000) == u
  {
    assert u / 0x1_0000 == u / 0x100 / 0x100;
    assert u / 0x100_0000 == u / 0x1_0000 / 0x100;
  }

  lemma WrapBits(v: long)
    ensures Wrap32(Bits32(v)) == v
  {
  }

  lemma Dec32Enc32(v: long)
    ensures var s := Enc32(v); Dec32(s[0], s[1], s[2], s[3]) == v
  {
    hide Wrap32, Bits32;
    Digits32(Bits32(v));
    WrapBits(v);
  }

  // ----- Code at a position

  /** The bytes `s` stand in `code` from `at` on. */
  predicate At(code: seq<byte>, at: int, s: seq<byte>) {
    0 <= at && at + |s| <= |code| && code[at..at + |s|] == s
  }

  lemma AtSplit(code: seq<byte>, at: int, s: seq<byte>, t: seq<byte>)
    ensures At(code, at, s + t) <==> At(code, at, s) && At(code, at + |s|, t)
  {
    if At(code, at, s + t) {
      assert code[at..at + |s|] == code[at..at + |s + t|][..|s|];
      assert code[at + |s|..at + |s| + |t|] == code[at..at + |s + t|][|s|..];
    }
    if At(code, at, s) && At(code, at + |s|, t) {
      assert code[at..at + |s + t|] == code[at..at + |s|] + code[at + |s|..at + |s| + |t|];
    }
  }

  // ----- Prefix freeness

  /** No encoded tree is a proper prefix of another: reading stops at the tree's own end. */
  lemma {:induction false} PrefixFree(m: Node, n: Node, s: seq<byte>, t: seq<byte>)
    requires WfNode(m) && WfNode(n)
    requires EncNode(m) + s == EncNode(n) + t
    ensures m == n && s == t
  {
    NodeHead(m, s);
    NodeHead(n, t);
    match m {
      case Arith(op, l, r) =>
        assert n.Arith? && n.op == op;
        Drop(EncOp(LVM_ARITH_OP, op), EncNode(l), EncNode(r), s);
        Drop(EncOp(LVM_ARITH_OP, op), EncNode(n.left), EncNode(n.right), t);
        PrefixFree(l, n.left, EncNode(r) + s, EncNode(n.right) + t);
        PrefixFree(r, n.right, s, t);
      case Leaf(o) =>
        assert n == m;
        assert s == (EncNode(m) + s)[8..] && t == (EncNode(n) + t)[8..];
      case Junk(_) =>
        assert n == m;
        assert s == (EncNode(m) + s)[2..] && t == (EncNode(n) + t)[2..];
    }
  }

  lemma Drop(h: seq<byte>, a: seq<byte>, b: seq<byte>, s: seq<byte>)
    ensures (h + a + b + s)[|h|..] == a + (b + s)
  {
  }

  /** The first bytes of an encoded tree tell its shape. */
  lemma NodeHead(n: Node, s: seq<byte>)
    requires WfNode(n)
    ensures var x := EncNode(n) + s;
      |x| >= 2 &&
      match n
      case Arith(op, _, _) => |x| >= 4 && Dec16(x[0], x[1]) == LVM_ARITH_OP && Dec16(x[2], x[3]) == op
      case Leaf(o) => |x| >= 8 && Dec16(x[0], x[1]) == LVM_OPERAND && Dec16(x[2], x[3]) == o.kind
                      && Dec32(x[4], x[5], x[6], x[7]) == o.value
      case Junk(ty) => Dec16(x[0], x[1]) == ty
  {
    var x := EncNode(n) + s;
    match n {
      case Arith(op, l, r) =>
        Dec16Enc16(LVM_ARITH_OP);
        Dec16Enc16(op);
        assert x[..2] == Enc16(LVM_ARITH_OP) && x[2..4] == Enc16(op);
      case Leaf(o) =>
        Dec16Enc16(LVM_OPERAND);
        Dec16Enc16(o.kind);
        Dec32Enc32(o.value);
        assert x[..2] == Enc16(LVM_OPERAND) && x[2..4] == Enc16(o.kind) && x[4..8] == Enc32(o.value);
      case Junk(ty) =>
        Dec16Enc16(ty);
        assert x[..2] == Enc16(ty);
    }
  }
}
