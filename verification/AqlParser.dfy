/** The recursive-descent parser for AQL conditions. It compiles infix to prefix in place:
    operands are appended, and an operator is inserted before them by shifting bytes.

    Every method works on any tokens. Its last postconditions say what it does when a given
    piece of syntax stands at the parser's position and the code has room for it. */
module AqlParser {
  import opened Bytes
  import opened LvmCode
  import opened AqlSyntax
  import Lvm
  import opened AqlRun

  predicate Error(status: int) { status >= 3 }

  class Parser {
    const toks: seq<Token>
    const p: Lvm.Machine
    var pos: nat
    var prev: nat
    var token: Token

    ghost predicate Valid()
      reads this, p
    {
      prev <= pos <= |toks| && p.Valid()
    }

    constructor (toks: seq<Token>, p: Lvm.Machine)
      requires p.Valid()
      ensures Valid() && this.toks == toks && this.p == p && pos == 0
    {
      this.toks, this.p := toks, p;
      pos, prev, token := 0, 0, NONE;
    }

    ghost function Cx(tab: Table): Context { Context(toks, p.code.Length, p.slots, tab) }

    method Next()
      requires Valid()
      modifies `pos, `prev, `token
      ensures Valid()
      ensures token == Tok(toks, old(pos)) && prev == old(pos)
      ensures pos == if old(pos) < |toks| then old(pos) + 1 else old(pos)
    {
      prev := pos;
      token := Tok(toks, pos);
      if pos < |toks| {
        pos := pos + 1;
      }
    }

    method Rewind()
      requires Valid()
      modifies `pos
      ensures Valid()
      ensures pos == prev
    {
      pos := prev;
    }

    /** Registers a variable and appends it to the code. */
    method PutVariable(name: string, ghost tab: Table)
      requires p.Valid()
      modifies p`end, p`overrun, p`names, p.code
      ensures p.Valid()
      ensures Room(Cx(tab), old(p.State()), Lvm.Registered(old(p.names), name), 7) ==>
        p.State() == old(p.State()).Plus(EmitAtom(tab, Name(name)), Lvm.Registered(old(p.names), name))
    {
      hide EncLeaf;
      ghost var can := Room(Cx(tab), p.State(), Lvm.Registered(p.names, name), 7);
      var _ := p.RegisterVariable(name);
      p.SetVariable(name);
      if can {
        IndexOfPrefix(p.names, tab, name);
        assert p.code[..][..p.end] == p.code[..p.end];
      }
    }

    method ParseOperand(ghost a: Atom, ghost tab: Table) returns (status: int)
      requires Valid()
      modifies this, p`end, p`error, p`overrun, p`names, p.code
      ensures Valid()
      ensures status == OK || status == SYNTAX_ERROR
      ensures old(pos) <= pos && (status == OK ==> old(pos) < pos)
      ensures Tok(toks, old(pos)) == LEFT_PAREN ==> pos == old(pos) + 1
      // Strings and floats are passed over; whatever else is no operand is refused.
      ensures var t := Tok(toks, old(pos));
        !t.IDENTIFIER? && !t.INTEGER_VALUE? ==>
          && p.State() == old(p.State()) && status == if t.STRING_VALUE? || t.FLOAT_VALUE? then OK else SYNTAX_ERROR
      ensures CanAtom(Cx(tab), old(p.State()), old(pos), a) ==>
        && status == OK && pos == old(pos) + 1
        && p.State() == old(p.State()).Plus(EmitAtom(tab, a), RegAtom(old(p.names), a))
    {
      Next();
      match token {
        case IDENTIFIER(name) =>
          PutVariable(name, tab);
        case STRING_VALUE =>
        case FLOAT_VALUE =>
        case INTEGER_VALUE(v) =>
          p.SetOperand(Operand(LVM_LONG, v));
        case _ =>
          return SYNTAX_ERROR;
      }
      status := OK;
    }

    /** Moves the code behind `at` up by one operator and writes the operator into the gap;
        the steps parse_expr and parse_where take for every operator they meet. */
    method InsertOperator(at: nat, op: word) returns (savedEnd: nat)
      requires p.Valid()
      modifies p`end, p`error, p`overrun, p.code
      ensures p.Valid()
      ensures at < old(p.end) && old(p.end) + 4 < p.code.Length ==>
        savedEnd == p.end && p.State() == old(p.State()).Insert(at, OperatorBytes(op))
    {
      ghost var before, end := p.code[..], p.end;
      ghost var head := OperatorBytes(op);
      savedEnd := p.ShiftForOperator(at);
      ghost var shifted := p.code[..];
      if at < end && end + 4 < |before| {
        assert shifted[..at] == p.code[..at] == before[..at];
        assert shifted[at + 4..end + 4] == p.code[at + 4..end + 4] == before[at..end];
      }
      if IsConnective(op) {
        p.SetRelation(op);
      } else {
        p.SetOp(op);
      }
      var _ := p.SetEnd(savedEnd);
      if at < end && end + 4 < |before| {
        WriteGap(shifted, at, head, end + 4);
        assert p.code[..p.end] == p.code[..][..end + 4];
        assert before[..end][..at] == before[..at] && before[..end][at..] == before[at..end];
      }
    }

    /** The right operand of an operator: a failed attempt at a plain operand has consumed the
        opening parenthesis, so that the expression behind it is tried next. */
    method ParseArg(ghost a: Arg, ghost tab: Table) returns (status: int)
      requires Valid()
      modifies this, p`end, p`error, p`overrun, p`names, p.code
      ensures Valid()
      ensures status == OK || status == SYNTAX_ERROR
      ensures old(pos) <= pos
      ensures CanArg(Cx(tab), old(p.State()), old(pos), a) ==>
        && status == OK && pos == old(pos) + |PrintArg(a)|
        && p.State() == old(p.State()).Plus(EmitArg(tab, a), RegArg(old(p.names), a))
      decreases |toks| - pos, 5
    {
      hide PrintArg, PrintInfix, EmitArg, EmitInfix, EmitAtom, RegArg, RegInfix, RegAtom, CanArg, CanExpr, CanAtom,
           Nested, Unnested, NestedWhole;
      if CanArg(Cx(tab), p.State(), pos, a) {
        ArgStart(Cx(tab), p.State(), pos, a);
      }
      status := ParseOperand(if a.Plain? then a.atom else Number(0), tab);
      if Error(status) {
        status := ParseExpr(if a.Group? then a.inner else Infix(a, Stop), tab);
      }
    }

    /** The left operand of an operator: an expression in parentheses or a plain operand. */
    method ParseFirst(ghost e: Infix, ghost tab: Table) returns (status: int)
      requires Valid()
      modifies this, p`end, p`error, p`overrun, p`names, p.code
      ensures Valid()
      ensures status == OK || status == SYNTAX_ERROR
      ensures old(pos) <= pos && (status == OK ==> old(pos) < pos)
      ensures CanFirst(Cx(tab), old(p.State()), old(pos), e.first) ==>
        && status == OK && pos == old(pos) + |PrintFirst(e.first)|
        && p.State() == old(p.State()).Plus(EmitArg(tab, e.first), RegArg(old(p.names), e.first))
      // Every further opening parenthesis before the expression needs two closing ones.
      ensures Nested(Cx(tab), old(p.State()), old(pos), e) ==>
        Unnested(Cx(tab), old(p.State()), old(pos), e, 0, status, p.State(), pos)
      decreases |toks| - pos, 3
    {
      hide PrintInfix, EmitInfix, EmitAtom, EmitArg, RegInfix, RegAtom, RegArg, PrintFirst, CanFirst, CanExpr, CanAtom,
           AtomToken, Nested, Opens, Extra, Depth, Unnested, NestedWhole, AfterParen;
      ghost var c, s, i := Cx(tab), p.State(), pos;
      if Nested(c, s, i, e) {
        NestedInner(c, s, i, e);
      }
      if CanFirst(c, s, i, e.first) {
        FirstStart(c, s, i, e.first);
      }
      Next();
      if token == LEFT_PAREN {
        status := ParseParenthesised(e, tab, s, i);
      } else {
        Rewind();
        status := ParseOperand(if e.first.Plain? then e.first.atom else Number(0), tab);
      }
    }

    /** An opening parenthesis has been read: one of the expression `e` or one more. */
    method ParseParenthesised(ghost e: Infix, ghost tab: Table, ghost s: Lvm.Snap, ghost i: nat) returns (status: int)
      requires Valid() && pos == i + 1 && p.State() == s && Tok(toks, i) == LEFT_PAREN
      modifies this, p`end, p`error, p`overrun, p`names, p.code
      ensures Valid()
      ensures status == OK || status == SYNTAX_ERROR
      ensures old(pos) <= pos
      ensures CanFirst(Cx(tab), s, i, e.first) ==>
        && status == OK && pos == i + |PrintFirst(e.first)|
        && p.State() == s.Plus(EmitArg(tab, e.first), RegArg(s.names, e.first))
      ensures Nested(Cx(tab), s, i, e) ==> Unnested(Cx(tab), s, i, e, 0, status, p.State(), pos)
      decreases |toks| - pos, 5
    {
      hide PrintInfix, EmitInfix, EmitArg, RegInfix, RegArg, PrintFirst, CanFirst, CanExpr, Nested, Opens, Depth,
           Unnested, NestedWhole, AfterParen;
      ghost var c, inner := Cx(tab), e;
      if CanFirst(c, s, i, e.first) {
        NotNested(c, s, i, e);
        FirstStart(c, s, i, e.first);
        inner := e.first.inner;
      }
      if Nested(c, s, i, e) {
        NestedInner(c, s, i, e);
      }
      status := ParseExpr(inner, tab);
      if Nested(c, s, i, e) {
        UnnestFirst(c, s, i, e, status, p.State(), pos);
      }
      if Error(status) {
        return;
      }
      Next();
      status := if token != RIGHT_PAREN then SYNTAX_ERROR else OK;
    }

    method ParseExpr(ghost e: Infix, ghost tab: Table) returns (status: int)
      requires Valid()
      modifies this, p`end, p`error, p`overrun, p`names, p.code
      ensures Valid()
      ensures status == OK || status == SYNTAX_ERROR
      ensures old(pos) <= pos
      ensures CanExpr(Cx(tab), old(p.State()), old(pos), e) ==>
        && status == OK && pos == AfterParen(toks, old(pos) + |PrintInfix(e)|)
        && p.State() == old(p.State()).Plus(EmitInfix(tab, e), RegInfix(old(p.names), e))
      // Every further opening parenthesis before the expression needs two closing ones; one more is read.
      ensures NestedWhole(Cx(tab), old(p.State()), old(pos), e) ==>
        Unnested(Cx(tab), old(p.State()), old(pos), e, 1, status, p.State(), pos)
      decreases |toks| - pos, 4
    {
      hide PrintInfix, EmitInfix, EmitAtom, EmitArg, RegInfix, RegAtom, RegArg, PrintFirst, CanFirst, CanExpr, CanAtom,
           ExprLoop, AtomToken, AfterParen, Tok, Nested, Unnested, NestedWhole, Extra, Opens;
      ghost var c, start, i := Cx(tab), p.State(), pos;
      if CanExpr(c, start, i, e) {
        ExprStart(c, start, i, e);
      }
      var savedEnd := p.end;
      status := ParseFirst(e, tab);
      if NestedWhole(c, start, i, e) {
        UnnestExpr(c, start, i, e, status, p.State(), pos);
      }
      if Error(status) {
        return;
      }
      status := ParseOperators(savedEnd, c, start, i, e);
    }

    /** The operator `op` has been read: compiles its right operand and inserts it at `at`. */
    method ParseOperation(at: nat, op: OpToken, ghost c: Context, ghost start: Lvm.Snap, ghost i: nat, ghost e: Infix,
                          ghost rest: Tail, ghost emitted: seq<byte>)
      returns (status: int, savedEnd: nat, ghost emitted': seq<byte>)
      requires Valid() && c == Cx(c.tab)
      modifies this, p`end, p`error, p`overrun, p`names, p.code
      ensures Valid()
      ensures status == OK || status == SYNTAX_ERROR
      ensures old(pos) <= pos
      ensures rest.More? && op == rest.op && old(pos) > 0
              && ExprLoop(c, start, i, e, old(p.State()), old(pos) - 1, rest, emitted, at) ==>
        status == OK && ExprLoop(c, start, i, e, p.State(), pos, rest.rest, emitted', savedEnd)
      decreases |toks| - pos, 6
    {
      hide PrintInfix, EmitInfix, EmitAtom, RegInfix, CanArg, ExprLoop, PrintArg, EmitArg, RegArg, OpCode, Tok,
           OperatorBytes;
      ghost var s, j := p.State(), pos;
      ghost var can := rest.More? && op == rest.op && j > 0 && ExprLoop(c, start, i, e, s, j - 1, rest, emitted, at);
      savedEnd, emitted' := 0, [];
      if can {
        ExprNext(c, start, i, e, s, j - 1, rest, emitted, at);
        emitted' := ExprStep(c, start, i, e, s, j - 1, rest, emitted, at);
      }
      status := ParseArg(if rest.More? then rest.arg else e.first, c.tab);
      if Error(status) {
        return;
      }
      savedEnd := InsertOperator(at, OpCode(op));
    }

    /** The loop over an expression's operators. */
    method ParseOperators(saved: nat, ghost c: Context, ghost start: Lvm.Snap, ghost i: nat, ghost e: Infix)
      returns (status: int)
      requires Valid() && c == Cx(c.tab)
      modifies this, p`end, p`error, p`overrun, p`names, p.code
      ensures Valid()
      ensures status == OK || status == SYNTAX_ERROR
      ensures old(pos) <= pos
      ensures ExprLoop(c, start, i, e, old(p.State()), old(pos), e.tail, EmitArg(c.tab, e.first), saved) ==>
        && status == OK && pos == AfterParen(toks, i + |PrintInfix(e)|)
        && p.State() == start.Plus(EmitInfix(c.tab, e), RegInfix(start.names, e))
      ensures !IsOp(Tok(toks, old(pos))) ==>
        status == OK && pos == AfterParen(toks, old(pos)) && p.State() == old(p.State())
      decreases |toks| - pos, 2
    {
      hide PrintInfix, EmitInfix, EmitAtom, RegInfix, CanArg, ExprLoop, PrintArg, EmitArg, RegArg, OpCode, OperatorBytes;
      ghost var rest, emitted := e.tail, EmitArg(c.tab, e.first);
      ghost var can := ExprLoop(c, start, i, e, p.State(), pos, rest, emitted, saved);
      var savedEnd := saved;
      while true
        invariant Valid() && old(pos) <= pos
        invariant can ==> ExprLoop(c, start, i, e, p.State(), pos, rest, emitted, savedEnd)
        invariant !IsOp(Tok(toks, old(pos))) ==> pos == old(pos) && p.State() == old(p.State())
        decreases |toks| - pos
      {
        if can {
          ExprNext(c, start, i, e, p.State(), pos, rest, emitted, savedEnd);
        }
        Next();
        var op := token;
        if op == RIGHT_PAREN {
          break;
        }
        if !IsOp(op) {
          savedEnd := p.end;
          Rewind();
          break;
        }
        status, savedEnd, emitted := ParseOperation(savedEnd, op, c, start, i, e, rest, emitted);
        if Error(status) {
          return;
        }
        if can {
          rest := rest.rest;
        }
      }
      status := OK;
    }

    /** Reserves a gap for the comparison operator. */
    method ReserveGap(ghost left: Infix, ghost cmp: CmpToken, ghost tab: Table) returns (at: nat, ghost gap: seq<byte>)
      requires Valid()
      modifies p`end, p`error
      ensures Valid() && at == old(p.end)
      ensures TooFew(Cx(tab), old(p.State()), pos, left) ==> NestedWhole(Cx(tab), p.State(), pos, left)
      ensures CanLeft(Cx(tab), old(p.State()), pos, left, cmp) || LacksCmp(Cx(tab), old(p.State()), pos, left) ==>
        && |gap| == 4 && p.State() == old(p.State()).Plus(gap, old(p.names)) && CanExpr(Cx(tab), p.State(), pos, left)
        && at + 4 + |EmitInfix(tab, left)| < p.code.Length && old(p.State()).end == |old(p.State()).code|
    {
      hide EmitInfix, RegInfix, PrintInfix, Here, CanExpr, NestedWhole, TooFew;
      ghost var s0 := p.State();
      at := p.JumpToOperand();
      gap := [];
      if TooFew(Cx(tab), s0, pos, left) {
        TooFewRoom(Cx(tab), s0, pos, left);
        gap := p.code[at..p.end];
        TooFewBehind(Cx(tab), s0, pos, left, gap);
        assert p.code[..p.end] == s0.code + gap;
      }
      if CanLeft(Cx(tab), s0, pos, left, cmp) || LacksCmp(Cx(tab), s0, pos, left) {
        gap := p.code[at..p.end];
        assert p.code[..p.end] == s0.code + gap;
        LeftStart(Cx(tab), s0, pos, left, gap);
      }
    }

    /** Writes the comparison operator into its gap and goes back to the end. */
    method FillGap(op: word, end: nat, ghost base: seq<byte>, ghost gap: seq<byte>, ghost body: seq<byte>)
      requires Valid()
      modifies p`end, p`error, p`overrun, p.code
      ensures Valid()
      ensures old(p.end) == |base| && |gap| == 4 && end == |base| + 4 + |body| < p.code.Length
              && old(p.code[..])[..end] == base + gap + body ==>
        p.end == end && p.overrun == old(p.overrun) && p.code[..end] == base + (EncOp(LVM_CMP_OP, op) + body)
    {
      hide EncOp;
      ghost var before := p.code[..];
      ghost var fits := p.end == |base| && |gap| == 4 && end == |base| + 4 + |body| < |before|
                                && before[..end] == base + gap + body;
      p.SetRelation(op);
      var _ := p.SetEnd(end);
      if fits {
        GapFilled(before, base, gap, body, EncOp(LVM_CMP_OP, op));
        assert p.code[..end] == p.code[..][..end];
      }
    }

    /** The left side has been compiled behind the gap at `at`: reads the operator and fills the gap. */
    method ParseCmp(at: nat, ghost s0: Lvm.Snap, ghost i: nat, ghost left: Infix, ghost cmp: CmpToken,
                    ghost gap: seq<byte>, ghost tab: Table)
      returns (status: int)
      requires Valid()
      modifies this, p`end, p`error, p`overrun, p`names, p.code
      ensures Valid()
      ensures status == OK || status == SYNTAX_ERROR
      ensures old(pos) <= pos
      ensures LeftRead(Cx(tab), s0, i, left, gap, at, old(p.State()), old(pos)) && Tok(toks, old(pos)) == cmp ==>
        && status == OK && pos == old(pos) + 1
        && p.State() == s0.Plus(EncOp(LVM_CMP_OP, CmpCode(cmp)) + EmitInfix(tab, left), RegInfix(s0.names, left))
      ensures LeftRead(Cx(tab), s0, i, left, gap, at, old(p.State()), old(pos)) && !IsCmp(Tok(toks, old(pos))) ==>
        && status == SYNTAX_ERROR && pos == ItemEnd(toks, i, Broken(left))
        && p.State() == Compiled(s0, s0.code, RegInfix(s0.names, left))
    {
      hide EmitInfix, RegInfix, PrintInfix, EncOp, CmpCode;
      ghost var body, code, read := EmitInfix(tab, left), p.code[..], LeftRead(Cx(tab), s0, i, left, gap, at, p.State(), pos);
      assert read ==> code[..p.end] == s0.code + gap + body;
      assert read ==> p.code[..at] == p.code[..p.end][..at] == s0.code;
      var savedEnd := p.SetEnd(at);
      Next();
      if !IsCmp(token) {
        return SYNTAX_ERROR;
      }
      FillGap(CmpCode(token), savedEnd, s0.code, gap, body);
      status := OK;
    }

    /** Reserves a gap for the comparison operator, compiles the left side behind it, and goes
        back to fill the gap. */
    method ParseLeft(ghost left: Infix, ghost cmp: CmpToken, ghost tab: Table) returns (status: int)
      requires Valid()
      modifies this, p`end, p`error, p`overrun, p`names, p.code
      ensures Valid()
      ensures status == OK || status == SYNTAX_ERROR
      ensures old(pos) <= pos
      ensures CanLeft(Cx(tab), old(p.State()), old(pos), left, cmp) ==>
        && status == OK && pos == old(pos) + |PrintInfix(left)| + 1
        && p.State() == old(p.State()).Plus(EncOp(LVM_CMP_OP, CmpCode(cmp)) + EmitInfix(tab, left),
                                            RegInfix(old(p.names), left))
      ensures LacksCmp(Cx(tab), old(p.State()), old(pos), left) ==>
        && status == SYNTAX_ERROR && pos == ItemEnd(toks, old(pos), Broken(left))
        && p.State() == Compiled(old(p.State()), old(p.State()).code, RegInfix(old(p.names), left))
      ensures TooFew(Cx(tab), old(p.State()), old(pos), left) ==> status == SYNTAX_ERROR
    {
      hide EmitInfix, RegInfix, PrintInfix, EncOp, CmpCode, CanExpr, CanLeft, LacksCmp, NestedWhole, Unnested, TooFew,
           LeftRead, ItemEnd, AfterParen;
      ghost var c, s0, i := Cx(tab), p.State(), pos;
      var savedEnd, gap := ReserveGap(left, cmp, tab);
      ghost var s1 := p.State();
      status := ParseExpr(left, tab);
      if TooFew(c, s0, i, left) {
        TooFewFails(c, s0, i, left, s1, status, p.State(), pos);
      }
      if CanLeft(c, s0, i, left, cmp) || LacksCmp(c, s0, i, left) {
        LeftIsRead(c, s0, i, left, cmp, gap, savedEnd, s1, p.State(), pos);
      }
      if Error(status) {
        return;
      }
      status := ParseCmp(savedEnd, s0, i, left, cmp, gap, tab);
    }

    method ParseComparison(ghost x: Comparison, ghost tab: Table) returns (status: int)
      requires Valid()
      modifies this, p`end, p`error, p`overrun, p`names, p.code
      ensures Valid()
      ensures status == OK || status == SYNTAX_ERROR
      ensures old(pos) <= pos
      ensures CanComparison(Cx(tab), old(p.State()), old(pos), x) ==>
        && status == OK && pos == AfterParen(toks, old(pos) + |PrintComparison(x)|)
        && p.State() == old(p.State()).Plus(EmitComparison(tab, x), RegComparison(old(p.names), x))
      // One that fails leaves the code as it was, but not the variables.
      ensures LacksCmp(Cx(tab), old(p.State()), old(pos), x.left) ==>
        && status == SYNTAX_ERROR && pos == ItemEnd(toks, old(pos), Broken(x.left))
        && p.State() == Compiled(old(p.State()), old(p.State()).code, RegInfix(old(p.names), x.left))
      ensures TooFew(Cx(tab), old(p.State()), old(pos), x.left) ==> status == SYNTAX_ERROR
    {
      hide EmitInfix, EmitComparison, RegInfix, RegComparison, PrintInfix, PrintComparison, EncOp, CmpCode, CanExpr,
           CanLeft, CanComparison, LacksCmp, Nested, NestedWhole, TooFew, ItemEnd;
      if CanComparison(Cx(tab), p.State(), pos, x) {
        ComparisonStart(Cx(tab), p.State(), pos, x);
      }
      status := ParseLeft(x.left, x.cmp, tab);
      if Error(status) {
        return;
      }
      status := ParseExpr(x.right, tab);
    }

    /** Compiles a condition. A comparison that fails behind a connective ends the parser with
        the status 0, which is no error. */
    method ParseWhere(ghost w: Where, ghost tab: Table) returns (status: int)
      requires Valid()
      modifies this, p`end, p`error, p`overrun, p`names, p.code
      ensures Valid()
      ensures old(pos) <= pos
      ensures CanWhere(Cx(tab), old(p.State()), old(pos), w) ==>
        && status == Outcome(w.rest)
        && (status != SYNTAX_ERROR ==>
              pos == WhereEnd(toks, old(pos), w) && p.State() == AfterWhere(Cx(tab), old(p.State()), w))
      // The first comparison's failure is an error, also one in parentheses of its own.
      ensures LacksCmp(Cx(tab), old(p.State()), old(pos), w.first.left) ==> status == SYNTAX_ERROR
      ensures TooFew(Cx(tab), old(p.State()), old(pos), w.first.left) ==> status == SYNTAX_ERROR
      decreases |toks| - pos, 5
    {
      hide CanWhere, CanComparison, CanChain, EmitComparison, RegComparison, PrintComparison, CodeChain, RegChain,
           Outcome, ChainEnd, TooFew, LacksCmp, ItemEnd;
      if CanWhere(Cx(tab), p.State(), pos, w) {
        WhereStart(Cx(tab), p.State(), pos, w);
      }
      status := ParseComparison(w.first, tab);
      if Error(status) {
        return SYNTAX_ERROR;
      }
      status := ParseChain(w.rest, tab);
    }

    /** The loop over the connectives. */
    method ParseChain(ghost t: Chain, ghost tab: Table) returns (status: int)
      requires Valid()
      modifies this, p`end, p`error, p`overrun, p`names, p.code
      ensures Valid()
      ensures old(pos) <= pos
      ensures CanChain(Cx(tab), old(p.State()), old(pos), t) && old(p.end) > 0 ==>
        && status == Outcome(t)
        && (status != SYNTAX_ERROR ==>
              pos == ChainEnd(toks, old(pos), t) && p.State() == AfterChain(Cx(tab), old(p.State()), t))
      decreases |toks| - pos, 4
    {
      hide ChainLoop, CodeChain, RegChain, ChainEnd, Outcome, CanChain, CanItem, ItemEnd, AfterItem, AfterChain,
           ItemOutcome, ConnCode, ConnBytes, OperatorBytes;
      ghost var c, s0, i0, rest := Cx(tab), p.State(), pos, t;
      ghost var can := CanChain(c, s0, i0, t) && p.end > 0;
      if can {
        LoopStarts(c, s0, i0, t);
      }
      var savedEnd := 0;
      while true
        invariant Valid() && old(pos) <= pos
        invariant can ==> ChainLoop(c, s0, i0, t, p.State(), pos, rest, savedEnd)
        decreases |toks| - pos
      {
        if can && rest.Link? {
          LoopNext(c, s0, i0, t, p.State(), pos, rest, savedEnd);
        } else if can {
          LoopEnds(c, s0, i0, t, p.State(), pos, savedEnd);
        }
        Next();
        if !IsConnector(token) {
          Rewind();
          break;
        }
        ConnectiveBytes(token);
        savedEnd := InsertOperator(savedEnd, ConnCode(token));
        status := ParseBehind(if rest.Link? then rest.item else Compared(NOTHING), tab);
        if status != OK {
          return;
        }
        if can {
          rest := rest.rest;
        }
      }
      status := OK;
    }

    /** What stands behind a connective: a condition in parentheses or a comparison. */
    method ParseBehind(ghost item: Item, ghost tab: Table) returns (status: int)
      requires Valid()
      modifies this, p`end, p`error, p`overrun, p`names, p.code
      ensures Valid()
      ensures old(pos) <= pos
      ensures status == OK || status == 0 || status == SYNTAX_ERROR
      // A failure is an error if and only if it is in parentheses.
      ensures status == 0 ==> Tok(toks, old(pos)) != LEFT_PAREN
      ensures status == SYNTAX_ERROR ==> Tok(toks, old(pos)) == LEFT_PAREN
      ensures CanItem(Cx(tab), old(p.State()), old(pos), item) ==>
        && status == ItemOutcome(item)
        && (status != SYNTAX_ERROR ==>
              pos == ItemEnd(toks, old(pos), item) && p.State() == AfterItem(Cx(tab), old(p.State()), item))
      decreases |toks| - pos, 2
    {
      hide CanItem, CanWhere, CanComparison, LacksCmp, TooFew, Closed, WhereEnd, AfterParen, EmitComparison,
           RegComparison, PrintComparison, CodeWhere, RegWhere, EmitInfix, PrintInfix, RegInfix;
      if CanItem(Cx(tab), p.State(), pos, item) {
        ItemStart(Cx(tab), p.State(), pos, item);
      }
      Next();
      if token == LEFT_PAREN {
        status := ParseGroup(if item.Enclosed? || item.Unclosed? then item.inner else Where(NOTHING, Last), tab);
        return;
      }
      Rewind();
      ghost var x := match item
        case Compared(x) => x
        case Broken(e) => Comparison(e, EQUAL, e)
        case _ => NOTHING;
      status := ParseComparison(x, tab);
      if Error(status) {
        status := 0;
      }
    }

    /** An opening parenthesis has been read. The comparison that the condition behind it ends with
        reads a closing one, so that another is needed then. */
    method ParseGroup(ghost w: Where, ghost tab: Table) returns (status: int)
      requires Valid()
      modifies this, p`end, p`error, p`overrun, p`names, p.code
      ensures Valid()
      ensures old(pos) <= pos
      ensures status == OK || status == SYNTAX_ERROR
      ensures CanWhere(Cx(tab), old(p.State()), old(pos), w) ==>
        && status == (if Closed(toks, old(pos), w) then OK else SYNTAX_ERROR)
        && (status == OK ==>
              pos == WhereEnd(toks, old(pos), w) + 1 && p.State() == AfterWhere(Cx(tab), old(p.State()), w))
      ensures TooFew(Cx(tab), old(p.State()), old(pos), w.first.left) ==> status == SYNTAX_ERROR
      decreases |toks| - pos, 6
    {
      hide CanWhere, AfterWhere, WhereEnd, Outcome, TooFew;
      status := ParseWhere(w, tab);
      if Error(status) {
        return SYNTAX_ERROR;
      }
      Next();
      status := if token == RIGHT_PAREN then OK else SYNTAX_ERROR;
    }
  }
}
