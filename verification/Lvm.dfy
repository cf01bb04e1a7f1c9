/** The logic virtual machine: bytecode construction by reserving, shifting and overwriting
    bytes, and recursive execution over a moving instruction pointer. */
module Lvm {
  import opened Bytes
  import opened LvmCode
  import opened LvmMeaning

  /** The part of a machine that a compilation works on: the code up to its end, the variables,
      and whether anything was written past the buffer. */
  datatype Snap = Snap(end: nat, code: seq<byte>, names: seq<string>, overrun: bool) {
    function Plus(emitted: seq<byte>, names': seq<string>): Snap {
      Snap(end + |emitted|, code + emitted, names', overrun)
    }

    function Insert(at: nat, head: seq<byte>): Snap
      requires at <= |code|
    {
      Snap(end + |head|, code[..at] + head + code[at..], names, overrun)
    }
  }

  class Machine {
    const code: array<byte>
    var end: nat
    var ip: nat
    // Set where the code records a line number in its error field; no caller reads it.
    var error: bool
    // Set when the code writes past its buffer, where its behaviour is undefined.
    var overrun: bool
    // Registered variable names, and one value for each variable slot.
    var names: seq<string>
    var values: seq<long>
    const slots: byte

    ghost predicate Valid()
      reads this
    {
      |names| <= slots && |values| == slots
    }

    ghost function State(): Snap
      reads this, code
    {
      Snap(end, if end <= code.Length then code[..end] else [], names, overrun)
    }

    // ----- Construction

    /** A machine over a buffer of `size` zero bytes, as a reset leaves it. */
    constructor (size: nat, slots: byte)
      ensures Valid() && fresh(code) && code.Length == size && this.slots == slots
      ensures end == 0 && ip == 0 && !error && !overrun && names == []
      ensures forall i | 0 <= i < size :: code[i] == 0
    {
      code := new byte[size](i => 0);
      this.slots := slots;
      end, ip, error, overrun := 0, 0, false, false;
      names, values := [], seq(slots, i => 0);
    }

    /** Copies bytes to the end of the code and advances the end, without a bounds check. */
    method Put(s: seq<byte>)
      modifies `end, `overrun, code
      ensures end == old(end) + |s|
      ensures end <= code.Length ==> code[..] == Overwrite(old(code[..]), old(end), s) && overrun == old(overrun)
      ensures end > code.Length ==> overrun
    {
      if end + |s| > code.Length {
        overrun := true;
      } else {
        Copy(code, end, s);
      }
      end := end + |s|;
    }

    method SetOp(op: word)
      modifies `end, `overrun, code
      ensures end == old(end) + 4
      ensures end <= code.Length ==>
        code[..] == Overwrite(old(code[..]), old(end), EncOp(LVM_ARITH_OP, op)) && overrun == old(overrun)
    {
      ghost var before, at := code[..], end;
      Put(Enc16(LVM_ARITH_OP));
      Put(Enc16(op));
      if end <= code.Length {
        OverwriteOn(before, at, Enc16(LVM_ARITH_OP), Enc16(op));
      }
    }

    method SetRelation(op: word)
      modifies `end, `overrun, code
      ensures end == old(end) + 4
      ensures end <= code.Length ==>
        code[..] == Overwrite(old(code[..]), old(end), EncOp(LVM_CMP_OP, op)) && overrun == old(overrun)
    {
      ghost var before, at := code[..], end;
      Put(Enc16(LVM_CMP_OP));
      Put(Enc16(op));
      if end <= code.Length {
        OverwriteOn(before, at, Enc16(LVM_CMP_OP), Enc16(op));
      }
    }

    method SetOperand(o: Operand)
      modifies `end, `overrun, code
      ensures end == old(end) + 8
      ensures end <= code.Length ==>
        code[..] == Overwrite(old(code[..]), old(end), EncLeaf(o)) && overrun == old(overrun)
    {
      ghost var before, at := code[..], end;
      Put(Enc16(LVM_OPERAND));
      Put(EncOperand(o));
      if end <= code.Length {
        OverwriteOn(before, at, Enc16(LVM_OPERAND), EncOperand(o));
      }
    }

    /** Reserves room for an operator at the end of the code. */
    method JumpToOperand() returns (oldEnd: nat)
      modifies `end, `error
      ensures oldEnd == old(end)
      ensures end == if old(end) + 4 < code.Length then old(end) + 4 else old(end)
    {
      oldEnd := end;
      end := end + OPERATOR_SIZE + NODE_TYPE_SIZE;
      if end >= code.Length {
        error := true;
        end := oldEnd;
      }
    }

    /** Makes room for an operator at `at` by moving the code behind it, and leaves the end
        at the gap. The guard counts the operator but not its node type. */
    method ShiftForOperator(at: nat) returns (newEnd: nat)
      modifies `end, `error, `overrun, code
      ensures at < old(end) && old(end) + 2 <= code.Length ==> end == at && newEnd == old(end) + 4
      ensures !(at < old(end) && old(end) + 2 <= code.Length) ==>
        end == old(end) && newEnd == 0 && code[..] == old(code[..]) && overrun == old(overrun)
      ensures at < old(end) && old(end) + 4 <= code.Length ==>
        overrun == old(overrun) && code[..at] == old(code[..at])
        && code[at + 4..newEnd] == old(code[at..end])
    {
      var oldEnd := end;
      if end + OPERATOR_SIZE > code.Length || at >= oldEnd {
        error := true;
        return 0;
      }
      if oldEnd + 4 > code.Length {
        overrun := true;
      } else {
        var i := oldEnd;
        while i > at
          modifies code
          invariant at <= i <= oldEnd
          invariant forall k | i <= k < oldEnd :: code[k + 4] == old(code[k])
          invariant forall k | 0 <= k < i :: code[k] == old(code[k])
        {
          i := i - 1;
          code[i + 4] := code[i];
        }
        forall k | at + 4 <= k < oldEnd + 4
          ensures code[k] == old(code[k - 4])
        {
          assert code[(k - 4) + 4] == old(code[k - 4]);
        }
      }
      end := at;
      newEnd := oldEnd + OPERATOR_SIZE + NODE_TYPE_SIZE;
    }

    method SetEnd(e: nat) returns (oldEnd: nat)
      modifies `end, `error
      ensures oldEnd == old(end)
      ensures end == if e < code.Length then e else old(end)
    {
      oldEnd := end;
      if e >= code.Length {
        error := true;
      } else {
        end := e;
      }
    }

    // ----- Variables

    method Lookup(name: string) returns (id: nat)
      requires Valid()
      ensures id == IndexOf(names, name)
    {
      id := 0;
      while id < |names| && names[id] != name
        invariant id <= |names| && forall k | 0 <= k < id :: names[k] != name
      {
        id := id + 1;
      }
      IndexOfUnique(names, name, id);
    }

    method RegisterVariable(name: string) returns (status: int)
      requires Valid()
      modifies `names
      ensures Valid()
      ensures names == if |Registered(old(names), name)| <= slots then Registered(old(names), name) else old(names)
      ensures status == if name in names then TRUE else VARIABLE_LIMIT_REACHED
    {
      var id := Lookup(name);
      if id == slots {
        return VARIABLE_LIMIT_REACHED;
      }
      if id == |names| {
        names := names + [name];
      }
      status := TRUE;
    }

    /** Emits the variable as an operand, or nothing at all when the table has no slot for it. */
    method SetVariable(name: string)
      requires Valid()
      modifies `end, `overrun, code
      ensures IndexOf(names, name) >= slots ==>
        end == old(end) && code[..] == old(code[..]) && overrun == old(overrun)
      ensures IndexOf(names, name) < slots ==> end == old(end) + 8
      ensures IndexOf(names, name) < slots && end <= code.Length ==>
        code[..] == Overwrite(old(code[..]), old(end), EncLeaf(Operand(LVM_VARIABLE, IndexOf(names, name))))
        && overrun == old(overrun)
    {
      var id := Lookup(name);
      if id < slots {
        SetOperand(Operand(LVM_VARIABLE, id));
      }
    }

    method SetVariableValue(name: string, v: long) returns (status: int)
      requires Valid()
      modifies `values
      ensures Valid()
      ensures var id := IndexOf(names, name);
        if id < slots then status == TRUE && values == old(values)[id := v]
        else status == INVALID_IDENTIFIER && values == old(values)
    {
      var id := Lookup(name);
      if id == slots {
        return INVALID_IDENTIFIER;
      }
      values := values[id := v];
      status := TRUE;
    }

    // ----- Execution

    method GetWord() returns (w: word)
      requires ip + 2 <= code.Length
      modifies `ip
      ensures ip == old(ip) + 2
      ensures w == Dec16(code[old(ip)], code[old(ip) + 1])
    {
      w := Dec16(code[ip], code[ip + 1]);
      ip := ip + 2;
    }

    method GetOperand() returns (o: Operand)
      requires ip + OPERAND_SIZE <= code.Length
      modifies `ip
      ensures ip == old(ip) + OPERAND_SIZE
      ensures var i := old(ip);
        o == Operand(Dec16(code[i], code[i + 1]), Dec32(code[i + 2], code[i + 3], code[i + 4], code[i + 5]))
    {
      o := Operand(Dec16(code[ip], code[ip + 1]), Dec32(code[ip + 2], code[ip + 3], code[ip + 4], code[ip + 5]));
      ip := ip + OPERAND_SIZE;
    }

    /** Reads one operand of an operator: an operand, or a whole nested expression. */
    method EvalOperand(ghost n: Node) returns (status: int, result: long)
      requires Valid() && WfNode(n) && ClosedNode(n, slots)
      requires At(code[..], ip, EncNode(n))
      modifies `ip
      ensures Valid() && ip <= code.Length
      ensures match ExprValue(n, values)
        case Val(v) => status == TRUE && result == v && ip == old(ip) + |EncNode(n)|
        case Fail(s) => status == s && IsError(s)
      decreases code.Length - ip, 0
    {
      match n {
        case Arith(_, _, _) => ArithAt(code[..], ip, n);
        case Leaf(_) => LeafAt(code[..], ip, n);
        case Junk(ty) => JunkAt(code[..], ip, ty);
      }
      result := 0;
      var nodeType := GetWord();
      if nodeType == LVM_ARITH_OP {
        var operator := GetWord();
        status, result := EvalExpr(operator, n.left, n.right);
      } else if nodeType == LVM_OPERAND {
        var operand := GetOperand();
        status, result := TRUE, OperandToLong(operand, values);
      } else {
        status := SEMANTIC_ERROR;
      }
    }

    method EvalExpr(op: word, ghost l: Node, ghost r: Node) returns (status: int, result: long)
      requires Valid() && WfNode(l) && WfNode(r) && ClosedNode(l, slots) && ClosedNode(r, slots)
      requires At(code[..], ip, EncNode(l) + EncNode(r))
      modifies `ip
      ensures Valid() && ip <= code.Length
      ensures match ExprValue(Arith(op, l, r), values)
        case Val(v) => status == TRUE && result == v && ip == old(ip) + |EncNode(l)| + |EncNode(r)|
        case Fail(s) => status == s && IsError(s)
      decreases code.Length - ip, 1
    {
      hide EncNode, Apply;
      AtSplit(code[..], ip, EncNode(l), EncNode(r));
      ghost var start, bytes := ip, code[..];
      var value: seq<long> := [];
      result := 0;
      for i := 0 to 2
        invariant |value| == i && bytes == code[..] && ip <= code.Length
        invariant ip == start + (if i >= 1 then |EncNode(l)| else 0) + (if i == 2 then |EncNode(r)| else 0)
        invariant i >= 1 ==> ExprValue(l, values) == Val(value[0])
        invariant i == 2 ==> ExprValue(r, values) == Val(value[1])
      {
        ghost var n := if i == 0 then l else r;
        assert At(bytes, ip, EncNode(n));
        var v;
        status, v := EvalOperand(n);
        if IsError(status) {
          return;
        }
        value := value + [v];
      }
      status, result := Operate(op, value[0], value[1]);
    }

    method Operate(op: word, a: long, b: long) returns (status: int, result: long)
      ensures match Apply(op, a, b)
        case Val(v) => status == TRUE && result == v
        case Fail(s) => status == s && IsError(s)
      ensures op == LVM_ADD ==> status == TRUE && (result - (a + b)) % 0x1_0000_0000 == 0
      ensures op == LVM_SUB ==> status == TRUE && (result - (a - b)) % 0x1_0000_0000 == 0
      ensures op == LVM_MUL ==> status == TRUE && (result - a * b) % 0x1_0000_0000 == 0
      ensures op == LVM_DIV && b != 0 ==> status == TRUE && (result - TruncDiv(a, b)) % 0x1_0000_0000 == 0
      ensures op == LVM_DIV && b == 0 ==> status == MATH_ERROR
      ensures op != LVM_ADD && op != LVM_SUB && op != LVM_MUL && op != LVM_DIV ==> status == EXECUTION_ERROR
    {
      status, result := TRUE, 0;
      if op == LVM_ADD {
        result := Wrap32(a + b);
      } else if op == LVM_SUB {
        result := Wrap32(a - b);
      } else if op == LVM_MUL {
        result := Wrap32(a * b);
      } else if op == LVM_DIV {
        if b == 0 {
          return MATH_ERROR, 0;
        }
        result := Wrap32(TruncDiv(a, b));
      } else {
        status := EXECUTION_ERROR;
      }
    }

    /** Reads one argument of a connective, which must be a comparison or a connective. */
    method EvalArgument(ghost t: Logic) returns (status: int)
      requires Valid() && WfLogic(t) && ClosedLogic(t, slots)
      requires At(code[..], ip, EncLogic(t))
      modifies `ip
      ensures Valid() && ip <= code.Length
      ensures status == LogicValue(t, values)
      ensures !IsError(status) ==> ip == old(ip) + |EncLogic(t)|
      decreases code.Length - ip, 0
    {
      LogicAt(code[..], ip, t);
      var nodeType := GetWord();
      if nodeType != LVM_CMP_OP {
        return SEMANTIC_ERROR;
      }
      var operator := GetWord();
      status := EvalLogic(operator, t);
    }

    method EvalLogic(op: word, ghost t: Logic) returns (status: int)
      requires Valid() && WfLogic(t) && ClosedLogic(t, slots) && !t.LogicJunk?
      requires op == LogicOp(t) && At(code[..], ip, EncArguments(t))
      modifies `ip
      ensures Valid() && ip <= code.Length
      ensures status == LogicValue(t, values)
      ensures !IsError(status) ==> ip == old(ip) + |EncArguments(t)|
      decreases code.Length - ip, 2
    {
      if IsConnective(op) {
        status := EvalConnective(op, t);
        return;
      }
      status := EvalComparison(op, t.left, t.right);
    }

    method EvalComparison(op: word, ghost l: Node, ghost r: Node) returns (status: int)
      requires Valid() && WfNode(l) && WfNode(r) && ClosedNode(l, slots) && ClosedNode(r, slots)
      requires At(code[..], ip, EncNode(l) + EncNode(r))
      modifies `ip
      ensures Valid() && ip <= code.Length
      ensures status == LogicValue(Compare(op, l, r), values)
      ensures !IsError(status) ==> ip == old(ip) + |EncNode(l)| + |EncNode(r)|
      decreases code.Length - ip, 1
    {
      hide EncNode, ExprValue;
      AtSplit(code[..], ip, EncNode(l), EncNode(r));
      ghost var start, bytes := ip, code[..];
      var result: seq<long> := [];
      for i := 0 to 2
        invariant |result| == i && bytes == code[..] && ip <= code.Length
        invariant ip == start + (if i >= 1 then |EncNode(l)| else 0) + (if i == 2 then |EncNode(r)| else 0)
        invariant i >= 1 ==> ExprValue(l, values) == Val(result[0])
        invariant i == 2 ==> ExprValue(r, values) == Val(result[1])
      {
        ghost var n := if i == 0 then l else r;
        assert At(bytes, ip, EncNode(n));
        var v;
        status, v := EvalOperand(n);
        if IsError(status) {
          return;
        }
        result := result + [v];
      }
      status := CompareValues(op, result[0], result[1]);
    }

    method EvalConnective(op: word, ghost t: Logic) returns (status: int)
      requires Valid() && WfLogic(t) && ClosedLogic(t, slots) && (t.Not? || t.Connect?)
      requires op == LogicOp(t) && At(code[..], ip, EncArguments(t))
      modifies `ip
      ensures Valid() && ip <= code.Length
      ensures status == LogicValue(t, values)
      // A negation holds where its argument does not; both arguments of a connective are run in any case.
      ensures t.Not? && !IsError(LogicValue(t.a, values)) ==> status == Truth(LogicValue(t.a, values) == FALSE)
      ensures t.Connect? && !IsError(LogicValue(t.a, values)) && !IsError(LogicValue(t.b, values)) ==>
        var x, y := LogicValue(t.a, values) == TRUE, LogicValue(t.b, values) == TRUE;
        status == Truth(if op == LVM_AND then x && y else x || y)
      ensures IsError(LogicValue(t.a, values)) ==> status == LogicValue(t.a, values)
      ensures t.Connect? && IsError(LogicValue(t.b, values)) && !IsError(LogicValue(t.a, values)) ==>
        status == LogicValue(t.b, values)
      ensures !IsError(status) ==> ip == old(ip) + |EncArguments(t)|
      decreases code.Length - ip, 1
    {
      hide EncLogic, EncNode, ExprValue;
      ghost var start, bytes := ip, code[..];
      var arguments := if op == LVM_NOT then 1 else 2;
      ghost var la := |EncLogic(t.a)|;
      if arguments == 2 {
        AtSplit(bytes, ip, EncLogic(t.a), EncLogic(t.b));
      }
      var logicResult: seq<int> := [];
      for i := 0 to arguments
        invariant |logicResult| == i && bytes == code[..] && ip <= code.Length
        invariant ip == start + (if i >= 1 then la else 0) + (if i == 2 then |EncArguments(t)| - la else 0)
        invariant i >= 1 ==> LogicValue(t.a, values) == logicResult[0] && !IsError(logicResult[0])
        invariant i == 2 ==> LogicValue(t.b, values) == logicResult[1] && !IsError(logicResult[1])
      {
        ghost var arg := if i == 0 then t.a else t.b;
        assert At(bytes, ip, EncLogic(arg));
        status := EvalArgument(arg);
        if IsError(status) {
          return;
        }
        logicResult := logicResult + [status];
      }
      if op == LVM_NOT {
        status := Truth(logicResult[0] == FALSE);
      } else if op == LVM_AND {
        status := Truth(logicResult[0] == TRUE && logicResult[1] == TRUE);
      } else {
        status := Truth(logicResult[0] == TRUE || logicResult[1] == TRUE);
      }
    }

    /** Runs the program in the buffer. When the buffer starts with the encoding of a tree,
        the run returns the tree's meaning and, unless that is an error, has read exactly
        the tree's bytes. */
    method Execute(ghost t: Logic) returns (status: int)
      requires Valid() && WfLogic(t) && ClosedLogic(t, slots)
      requires At(code[..], 0, EncLogic(t))
      modifies `ip
      ensures Valid()
      ensures status == ProgramStatus(t, values)
      ensures !IsError(status) ==> ip == |EncLogic(t)|
    {
      hide Dec16, EncLogic, LogicValue;
      LogicAt(code[..], 0, t);
      ip := 0;
      status := EXECUTION_ERROR;
      var nodeType := GetWord();
      if nodeType == LVM_CMP_OP {
        var operator := GetWord();
        status := EvalLogic(operator, t);
      }
    }
  }

  function IndexOf(names: seq<string>, name: string): (i: nat)
    ensures i <= |names| && name !in names[..i]
    ensures i < |names| ==> names[i] == name
  {
    if names == [] || names[0] == name then 0 else 1 + IndexOf(names[1..], name)
  }

  lemma IndexOfUnique(names: seq<string>, name: string, i: nat)
    requires i <= |names| && (forall k | 0 <= k < i :: names[k] != name) && (i < |names| ==> names[i] == name)
    ensures IndexOf(names, name) == i
  {
    if names != [] && names[0] != name {
      IndexOfUnique(names[1..], name, i - 1);
    }
  }

  function Registered(names: seq<string>, name: string): seq<string> {
    if name in names then names else names + [name]
  }

  lemma AtIndex(code: seq<byte>, at: int, s: seq<byte>, i: int)
    requires At(code, at, s) && 0 <= i < |s|
    ensures code[at + i] == s[i]
  {
    assert code[at..at + |s|][i] == s[i];
  }

  lemma ArithAt(code: seq<byte>, at: int, n: Node)
    requires n.Arith? && At(code, at, EncNode(n))
    ensures at + 4 <= |code| && Dec16(code[at], code[at + 1]) == LVM_ARITH_OP
    ensures Dec16(code[at + 2], code[at + 3]) == n.op
    ensures At(code, at + 4, EncNode(n.left) + EncNode(n.right))
    ensures |EncNode(n)| == 4 + |EncNode(n.left)| + |EncNode(n.right)|
  {
    hide Enc16, Dec16;
    var h, l, r := EncOp(LVM_ARITH_OP, n.op), EncNode(n.left), EncNode(n.right);
    assert EncNode(n) == h + l + r;
    assert h + l + r == h + (l + r);
    AtSplit(code, at, h, l + r);
    HeadAt(code, at, LVM_ARITH_OP, n.op);
  }

  lemma LeafAt(code: seq<byte>, at: int, n: Node)
    requires n.Leaf? && At(code, at, EncNode(n))
    ensures at + 8 <= |code| && Dec16(code[at], code[at + 1]) == LVM_OPERAND
    ensures Dec16(code[at + 2], code[at + 3]) == n.operand.kind
    ensures Dec32(code[at + 4], code[at + 5], code[at + 6], code[at + 7]) == n.operand.value
    ensures |EncNode(n)| == 8
  {
    var h := EncNode(n);
    forall i | 0 <= i < 8 ensures code[at + i] == h[i] { AtIndex(code, at, h, i); }
    assert code[at + 0] == h[0];
    LeafHead(n);
  }

  lemma LeafHead(n: Node)
    requires n.Leaf?
    ensures var x := EncNode(n);
      Dec16(x[0], x[1]) == LVM_OPERAND && Dec16(x[2], x[3]) == n.operand.kind
      && Dec32(x[4], x[5], x[6], x[7]) == n.operand.value
  {
    var x := EncNode(n);
    NodeHead(n, []);
    assert x + [] == x;
  }

  function LogicOp(t: Logic): word
    requires !t.LogicJunk?
  {
    if t.Not? then LVM_NOT else t.op
  }

  function EncArguments(t: Logic): seq<byte>
    requires !t.LogicJunk?
  {
    match t
    case Connect(_, a, b) => EncLogic(a) + EncLogic(b)
    case Not(a) => EncLogic(a)
    case Compare(_, l, r) => EncNode(l) + EncNode(r)
  }

  lemma LogicAt(code: seq<byte>, at: int, t: Logic)
    requires WfLogic(t) && At(code, at, EncLogic(t))
    ensures at + 2 <= |code|
    ensures Dec16(code[at], code[at + 1]) == (if t.LogicJunk? then t.nodeType else LVM_CMP_OP)
    ensures !t.LogicJunk? ==>
      at + 4 <= |code| && Dec16(code[at + 2], code[at + 3]) == LogicOp(t)
      && At(code, at + 4, EncArguments(t)) && |EncLogic(t)| == 4 + |EncArguments(t)|
  {
    if t.LogicJunk? {
      JunkAt(code, at, t.nodeType);
    } else {
      var h, a := EncOp(LVM_CMP_OP, LogicOp(t)), EncArguments(t);
      LogicHead(t);
      AtSplit(code, at, h, a);
      HeadAt(code, at, LVM_CMP_OP, LogicOp(t));
    }
  }

  lemma LogicHead(t: Logic)
    requires !t.LogicJunk?
    ensures EncLogic(t) == EncOp(LVM_CMP_OP, LogicOp(t)) + EncArguments(t)
  {
  }

  lemma HeadAt(code: seq<byte>, at: int, nodeType: word, op: word)
    requires At(code, at, EncOp(nodeType, op))
    ensures Dec16(code[at], code[at + 1]) == nodeType
    ensures Dec16(code[at + 2], code[at + 3]) == op
  {
    AtSplit(code, at, Enc16(nodeType), Enc16(op));
    JunkAt(code, at, nodeType);
    JunkAt(code, at + 2, op);
  }

  lemma JunkAt(code: seq<byte>, at: int, ty: word)
    requires At(code, at, Enc16(ty))
    ensures at + 2 <= |code| && Dec16(code[at], code[at + 1]) == ty
  {
    AtIndex(code, at, Enc16(ty), 0);
    AtIndex(code, at, Enc16(ty), 1);
    Dec16Enc16(ty);
  }
}
