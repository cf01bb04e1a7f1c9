/** Runs of the AQL parser, seen as values: what must hold for a piece of syntax to be compiled,
    and the states its loops pass through. */
module AqlRun {
  import opened Bytes
  import opened LvmCode
  import opened AqlSyntax
  import Lvm

  /** What stays fixed in a run: the tokens, the buffer's size, the number of variable slots, and
      the variables there are at the end of the run, in the order of their registration. */
  datatype Context = Context(toks: seq<Token>, size: nat, slots: nat, tab: Table)

  // ----- Tokens at a position

  function Tok(toks: seq<Token>, i: nat): Token { if i < |toks| then toks[i] else NONE }

  ghost predicate Here(toks: seq<Token>, at: int, s: seq<Token>) {
    0 <= at && at + |s| <= |toks| && toks[at..at + |s|] == s
  }

  lemma HereSplit(toks: seq<Token>, at: int, s: seq<Token>, t: seq<Token>)
    ensures Here(toks, at, s + t) <==> Here(toks, at, s) && Here(toks, at + |s|, t)
  {
    if Here(toks, at, s + t) {
      assert toks[at..at + |s|] == toks[at..at + |s + t|][..|s|];
      assert toks[at + |s|..at + |s| + |t|] == toks[at..at + |s + t|][|s|..];
    }
    if Here(toks, at, s) && Here(toks, at + |s|, t) {
      assert toks[at..at + |s + t|] == toks[at..at + |s|] + toks[at + |s|..at + |s| + |t|];
    }
  }

  lemma FirstToken(toks: seq<Token>, i: nat, t: Token)
    requires Here(toks, i, [t])
    ensures i < |toks| && toks[i] == t
  {
    assert toks[i..i + 1] == [t];
  }

  /** Where parsing goes on when an expression's tokens end at `i`: a closing parenthesis
      there is read as one more operator and ends the expression too. */
  function AfterParen(toks: seq<Token>, i: nat): nat { if Tok(toks, i) == RIGHT_PAREN then i + 1 else i }

  // ----- Room for a piece of syntax

  /** The code has room for `n` bytes and more, and the variables `names` are a start of all. */
  predicate Room(c: Context, s: Lvm.Snap, names: seq<string>, n: int) {
    names <= c.tab && |c.tab| <= c.slots && s.end == |s.code| && s.end + n < c.size
  }

  ghost predicate CanAtom(c: Context, s: Lvm.Snap, i: nat, a: Atom) {
    Tok(c.toks, i) == AtomToken(a) && Room(c, s, RegAtom(s.names, a), 7)
  }

  /** An operand may fill the buffer to its last byte; behind an inserted operator one must be left. */
  function Slack(e: Infix): (r: int)
    ensures 0 <= r <= 1
    decreases e
  {
    if e.tail.Stop? then ArgSlack(e.first) else 0
  }

  function ArgSlack(a: Arg): (r: int)
    ensures 0 <= r <= 1
    decreases a
  {
    match a case Plain(_) => 1 case Group(e) => Slack(e)
  }

  ghost predicate CanFirst(c: Context, s: Lvm.Snap, i: nat, a: Arg) {
    Here(c.toks, i, PrintFirst(a)) && Room(c, s, RegArg(s.names, a), |EmitArg(c.tab, a)| - ArgSlack(a))
  }

  ghost predicate CanArg(c: Context, s: Lvm.Snap, i: nat, a: Arg) {
    Here(c.toks, i, PrintArg(a)) && Room(c, s, RegArg(s.names, a), |EmitArg(c.tab, a)|)
  }

  ghost predicate CanExpr(c: Context, s: Lvm.Snap, i: nat, e: Infix) {
    && Here(c.toks, i, PrintInfix(e)) && !IsOp(Tok(c.toks, i + |PrintInfix(e)|))
    && Room(c, s, RegInfix(s.names, e), |EmitInfix(c.tab, e)| - Slack(e))
  }

  // ----- Tables

  lemma RegInfixExtends(tab: seq<string>, e: Infix)
    ensures tab <= RegInfix(tab, e)
    decreases e
  {
    RegArgExtends(tab, e.first);
    RegTailExtends(RegArg(tab, e.first), e.tail);
  }

  lemma RegTailExtends(tab: seq<string>, t: Tail)
    ensures tab <= RegTail(tab, t)
    decreases t
  {
    if t.More? {
      RegArgExtends(tab, t.arg);
      RegTailExtends(RegArg(tab, t.arg), t.rest);
    }
  }

  lemma RegArgExtends(tab: seq<string>, a: Arg)
    ensures tab <= RegArg(tab, a)
    decreases a
  {
    if a.Group? {
      RegInfixExtends(tab, a.inner);
    }
  }

  lemma IndexOfPrefix(names: seq<string>, tab: seq<string>, name: string)
    requires names <= tab && name in names
    ensures Lvm.IndexOf(tab, name) == Lvm.IndexOf(names, name)
  {
    var i := Lvm.IndexOf(names, name);
    Lvm.IndexOfUnique(tab, name, i);
  }

  // ----- Code

  function OperatorBytes(op: word): (s: seq<byte>)
    ensures |s| == 4
  {
    EncOp(if IsConnective(op) then LVM_CMP_OP else LVM_ARITH_OP, op)
  }

  lemma ConnectiveBytes(k: ConnToken)
    ensures OperatorBytes(ConnCode(k)) == ConnBytes(k)
  {
    assert IsConnective(ConnCode(k));
  }

  lemma ArithBytes(op: OpToken)
    ensures OperatorBytes(OpCode(op)) == EncOp(LVM_ARITH_OP, OpCode(op))
  {
    assert !IsConnective(OpCode(op));
  }

  lemma WriteGap(code: seq<byte>, at: nat, head: seq<byte>, n: nat)
    requires at + |head| <= n <= |code|
    ensures Overwrite(code, at, head)[..n] == code[..at] + head + code[at + |head|..n]
  {
  }

  lemma Cut(u: seq<byte>, v: seq<byte>, code: seq<byte>)
    requires code == u + v
    ensures code[..|u|] == u && code[|u|..] == v
  {
  }

  /** Writing the operator into the gap that was left for it. */
  lemma GapFilled(code: seq<byte>, base: seq<byte>, gap: seq<byte>, body: seq<byte>, head: seq<byte>)
    requires |gap| == |head| && |base| + |gap| + |body| <= |code|
    requires code[..|base| + |gap| + |body|] == base + gap + body
    ensures Overwrite(code, |base|, head)[..|base| + |gap| + |body|] == base + (head + body)
  {
    var n := |base| + |gap| + |body|;
    WriteGap(code, |base|, head, n);
    assert code[..|base|] == code[..n][..|base|] == base;
    assert code[|base| + |gap|..n] == code[..n][|base| + |gap|..] == body;
  }

  // ----- Operands

  lemma ArgStart(c: Context, s: Lvm.Snap, i: nat, a: Arg)
    requires CanArg(c, s, i, a)
    ensures a.Plain? ==>
      && CanAtom(c, s, i, a.atom) && |PrintArg(a)| == 1
      && EmitArg(c.tab, a) == EmitAtom(c.tab, a.atom) && RegArg(s.names, a) == RegAtom(s.names, a.atom)
    ensures a.Group? ==>
      && Tok(c.toks, i) == LEFT_PAREN && CanExpr(c, s, i + 1, a.inner)
      && EmitArg(c.tab, a) == EmitInfix(c.tab, a.inner) && RegArg(s.names, a) == RegInfix(s.names, a.inner)
      && AfterParen(c.toks, i + 1 + |PrintInfix(a.inner)|) == i + |PrintArg(a)|
  {
    hide PrintInfix, EmitInfix, RegInfix, EmitAtom, RegAtom, Here;
    match a {
      case Plain(atom) =>
        FirstToken(c.toks, i, AtomToken(atom));
      case Group(e) =>
        GroupHere(c.toks, i, PrintInfix(e), [RIGHT_PAREN]);
    }
  }

  lemma FirstStart(c: Context, s: Lvm.Snap, i: nat, a: Arg)
    requires CanFirst(c, s, i, a)
    ensures a.Plain? ==>
      && CanAtom(c, s, i, a.atom) && Tok(c.toks, i) != LEFT_PAREN && |PrintFirst(a)| == 1
      && EmitArg(c.tab, a) == EmitAtom(c.tab, a.atom) && RegArg(s.names, a) == RegAtom(s.names, a.atom)
    ensures a.Group? ==>
      && Tok(c.toks, i) == LEFT_PAREN && CanExpr(c, s, i + 1, a.inner)
      && EmitArg(c.tab, a) == EmitInfix(c.tab, a.inner) && RegArg(s.names, a) == RegInfix(s.names, a.inner)
      && AfterParen(c.toks, i + 1 + |PrintInfix(a.inner)|) == i + |PrintFirst(a)| - 1 < |c.toks|
      && c.toks[i + |PrintFirst(a)| - 1] == RIGHT_PAREN
  {
    hide PrintInfix, EmitInfix, RegInfix, EmitAtom, RegAtom, Here;
    match a {
      case Plain(atom) =>
        FirstToken(c.toks, i, AtomToken(atom));
      case Group(e) =>
        GroupHere(c.toks, i, PrintInfix(e), [RIGHT_PAREN, RIGHT_PAREN]);
        SecondToken(c.toks, i + 1 + |PrintInfix(e)|, RIGHT_PAREN, RIGHT_PAREN);
    }
  }

  lemma SecondToken(toks: seq<Token>, i: nat, t: Token, u: Token)
    requires Here(toks, i, [t, u])
    ensures i + 1 < |toks| && toks[i + 1] == u
  {
    assert toks[i + 1] == toks[i..i + 2][1];
  }

  lemma GroupHere(toks: seq<Token>, i: nat, s: seq<Token>, t: seq<Token>)
    requires Here(toks, i, [LEFT_PAREN] + s + t) && t != [] && t[0] == RIGHT_PAREN
    ensures i + 1 + |s| < |toks| && toks[i] == LEFT_PAREN && Here(toks, i + 1, s) && toks[i + 1 + |s|] == RIGHT_PAREN
    ensures Here(toks, i + 1 + |s|, t)
  {
    HereSplit(toks, i, [LEFT_PAREN] + s, t);
    HereSplit(toks, i, [LEFT_PAREN], s);
    FirstToken(toks, i, LEFT_PAREN);
    assert toks[i + 1 + |s|] == toks[i + 1 + |s|..i + 1 + |s| + |t|][0];
  }

  // ----- The loop over an expression's operators

  /** The loop started at `i0` in the state `s0`; the operators `rest` are left. Either nothing
      but the first operand has been emitted, or `at` is the end of the code. */
  ghost predicate ExprLoop(c: Context, s0: Lvm.Snap, i0: nat, e: Infix, s: Lvm.Snap, i: nat, rest: Tail,
                           emitted: seq<byte>, at: nat)
  {
    && CanExpr(c, s0, i0, e)
    && Here(c.toks, i, PrintTail(rest)) && i + |PrintTail(rest)| == i0 + |PrintInfix(e)|
    && RegTail(s.names, rest) == RegInfix(s0.names, e)
    && s == s0.Plus(emitted, s.names)
    && if at == s0.end then rest == e.tail && emitted == EmitArg(c.tab, e.first)
       else e.tail.More? && at == s.end && emitted + EmitTail(c.tab, rest) == EmitInfix(c.tab, e)
  }

  lemma ExprStart(c: Context, s0: Lvm.Snap, i0: nat, e: Infix)
    requires CanExpr(c, s0, i0, e)
    ensures CanFirst(c, s0, i0, e.first)
    ensures var emitted := EmitArg(c.tab, e.first);
      ExprLoop(c, s0, i0, e, s0.Plus(emitted, RegArg(s0.names, e.first)), i0 + |PrintFirst(e.first)|, e.tail, emitted,
               s0.end)
  {
    HereSplit(c.toks, i0, PrintFirst(e.first), PrintTail(e.tail));
    RegTailExtends(RegArg(s0.names, e.first), e.tail);
  }

  lemma TailHere(toks: seq<Token>, i: nat, rest: Tail)
    requires rest.More? && Here(toks, i, PrintTail(rest))
    ensures i < |toks| && toks[i] == rest.op
    ensures Here(toks, i + 1, PrintArg(rest.arg)) && Here(toks, i + 1 + |PrintArg(rest.arg)|, PrintTail(rest.rest))
    ensures |PrintTail(rest)| == 1 + |PrintArg(rest.arg)| + |PrintTail(rest.rest)|
  {
    var h, a, t := [rest.op], PrintArg(rest.arg), PrintTail(rest.rest);
    assert PrintTail(rest) == h + a + t;
    hide PrintTail, PrintArg;
    HereSplit(toks, i, h + a, t);
    HereSplit(toks, i, h, a);
    FirstToken(toks, i, rest.op);
  }

  /** Before a turn of the loop: what comes next, or that the expression is complete. */
  lemma ExprNext(c: Context, s0: Lvm.Snap, i0: nat, e: Infix, s: Lvm.Snap, i: nat, rest: Tail, emitted: seq<byte>,
                 at: nat)
    requires ExprLoop(c, s0, i0, e, s, i, rest, emitted, at)
    ensures rest.More? ==>
      && i < |c.toks| && Tok(c.toks, i) == rest.op && CanArg(c, s, i + 1, rest.arg)
      && at < s.end + |EmitArg(c.tab, rest.arg)| && s.end + |EmitArg(c.tab, rest.arg)| + 4 < c.size
    ensures rest.Stop? ==>
      && !IsOp(Tok(c.toks, i)) && i == i0 + |PrintInfix(e)|
      && s == s0.Plus(EmitInfix(c.tab, e), RegInfix(s0.names, e))
  {
    if rest.More? {
      TailHere(c.toks, i, rest);
      RegTailExtends(RegArg(s.names, rest.arg), rest.rest);
    } else {
      assert emitted + EmitTail(c.tab, rest) == emitted;
    }
  }

  /** A turn of the loop: the right operand is appended and the operator inserted. */
  lemma EmitMore(tab: Table, e: Infix, rest: Tail)
    requires rest.More?
    ensures EmitTail(tab, rest) == OperatorBytes(OpCode(rest.op)) + EmitArg(tab, rest.arg) + EmitTail(tab, rest.rest)
    ensures rest == e.tail ==>
      EmitInfix(tab, e)
      == OperatorBytes(OpCode(rest.op)) + EmitArg(tab, e.first) + EmitArg(tab, rest.arg) + EmitTail(tab, rest.rest)
  {
    ArithBytes(rest.op);
  }

  lemma ExprStep(c: Context, s0: Lvm.Snap, i0: nat, e: Infix, s: Lvm.Snap, i: nat, rest: Tail, emitted: seq<byte>,
                 at: nat)
    returns (emitted': seq<byte>)
    requires rest.More? && ExprLoop(c, s0, i0, e, s, i, rest, emitted, at)
    ensures at <= |s.code|
    ensures var s1 := s.Plus(EmitArg(c.tab, rest.arg), RegArg(s.names, rest.arg));
      var s' := s1.Insert(at, OperatorBytes(OpCode(rest.op)));
      ExprLoop(c, s0, i0, e, s', i + 1 + |PrintArg(rest.arg)|, rest.rest, emitted', s'.end)
  {
    hide PrintTail, PrintArg, EmitArg, EmitTail, EmitInfix, OperatorBytes, Here, RegInfix;
    var h, a, t := OperatorBytes(OpCode(rest.op)), EmitArg(c.tab, rest.arg), EmitTail(c.tab, rest.rest);
    TailHere(c.toks, i, rest);
    ArithBytes(rest.op);
    EmitMore(c.tab, e, rest);
    if at == s0.end {
      emitted' := h + emitted + a;
      InsertFirst(s0.code, emitted, a, h);
    } else {
      emitted' := emitted + h + a;
      InsertLater(s0.code, emitted, a, h);
      assert emitted + (h + a + t) == emitted' + t;
    }
  }

  lemma InsertFirst(base: seq<byte>, emitted: seq<byte>, a: seq<byte>, h: seq<byte>)
    ensures var code := base + emitted + a; code[..|base|] + h + code[|base|..] == base + (h + emitted + a)
  {
    Cut(base, emitted + a, base + emitted + a);
  }

  lemma InsertLater(base: seq<byte>, emitted: seq<byte>, a: seq<byte>, h: seq<byte>)
    ensures var code, at := base + emitted + a, |base| + |emitted|;
      code[..at] + h + code[at..] == base + (emitted + h + a)
  {
    Cut(base + emitted, a, base + emitted + a);
  }

  // ----- Comparisons

  predicate NoCmp(t: Token) { !IsOp(t) && !IsCmp(t) && t != RIGHT_PAREN }

  /** A left side stands at `i`, and its comparison operator behind it. */
  ghost predicate CanLeft(c: Context, s: Lvm.Snap, i: nat, left: Infix, cmp: CmpToken) {
    && Here(c.toks, i, PrintInfix(left)) && Tok(c.toks, i + |PrintInfix(left)|) == cmp
    && Room(c, s, RegInfix(s.names, left), 4 + |EmitInfix(c.tab, left)|)
  }

  /** An expression stands at `i` that neither goes on nor is followed by a comparison operator. */
  ghost predicate LacksCmp(c: Context, s: Lvm.Snap, i: nat, e: Infix) {
    && Here(c.toks, i, PrintInfix(e)) && NoCmp(Tok(c.toks, i + |PrintInfix(e)|))
    && Room(c, s, RegInfix(s.names, e), 4 + |EmitInfix(c.tab, e)|)
  }

  ghost predicate CanComparison(c: Context, s: Lvm.Snap, i: nat, x: Comparison) {
    && Here(c.toks, i, PrintComparison(x)) && !IsOp(Tok(c.toks, i + |PrintComparison(x)|))
    && Room(c, s, RegComparison(s.names, x), |EmitComparison(c.tab, x)| - Slack(x.right))
  }

  /** Behind a gap of four bytes, an expression can be compiled that is followed as given. */
  lemma LeftStart(c: Context, s: Lvm.Snap, i: nat, left: Infix, gap: seq<byte>)
    requires Here(c.toks, i, PrintInfix(left)) && !IsOp(Tok(c.toks, i + |PrintInfix(left)|))
    requires Room(c, s, RegInfix(s.names, left), 4 + |EmitInfix(c.tab, left)|) && |gap| == 4
    ensures CanExpr(c, s.Plus(gap, s.names), i, left)
  {
  }

  /** The left side that stood at `i` has been compiled behind the gap at `at`, in the state `s0`. */
  ghost predicate LeftRead(c: Context, s0: Lvm.Snap, i: nat, left: Infix, gap: seq<byte>, at: nat, s: Lvm.Snap, pos: nat) {
    && |gap| == 4 && at == s0.end == |s0.code| && s0.end + 4 + |EmitInfix(c.tab, left)| < c.size
    && pos == i + |PrintInfix(left)| && s == s0.Plus(gap, s0.names).Plus(EmitInfix(c.tab, left), RegInfix(s0.names, left))
  }

  lemma LeftIsRead(c: Context, s0: Lvm.Snap, i: nat, left: Infix, cmp: CmpToken, gap: seq<byte>, at: nat, s1: Lvm.Snap,
                   s: Lvm.Snap, pos: nat)
    requires CanLeft(c, s0, i, left, cmp) || LacksCmp(c, s0, i, left)
    requires |gap| == 4 && s1 == s0.Plus(gap, s0.names) && at == s0.end == |s0.code|
    requires at + 4 + |EmitInfix(c.tab, left)| < c.size
    requires s == s1.Plus(EmitInfix(c.tab, left), RegInfix(s1.names, left))
    requires pos == AfterParen(c.toks, i + |PrintInfix(left)|)
    ensures LeftRead(c, s0, i, left, gap, at, s, pos) && pos == i + |PrintInfix(left)|
    ensures CanLeft(c, s0, i, left, cmp) ==> Tok(c.toks, pos) == cmp
    ensures LacksCmp(c, s0, i, left) ==> !IsCmp(Tok(c.toks, pos))
  {
    hide EmitInfix, RegInfix, PrintInfix, Here, Room;
  }

  lemma ComparisonStart(c: Context, s: Lvm.Snap, i: nat, x: Comparison)
    requires CanComparison(c, s, i, x)
    ensures CanLeft(c, s, i, x.left, x.cmp)
    ensures var s' := s.Plus(EncOp(LVM_CMP_OP, CmpCode(x.cmp)) + EmitInfix(c.tab, x.left), RegInfix(s.names, x.left));
      && CanExpr(c, s', i + |PrintInfix(x.left)| + 1, x.right)
      && s'.Plus(EmitInfix(c.tab, x.right), RegInfix(s'.names, x.right))
         == s.Plus(EmitComparison(c.tab, x), RegComparison(s.names, x))
    ensures |PrintComparison(x)| == |PrintInfix(x.left)| + 1 + |PrintInfix(x.right)|
  {
    var l, m, r := PrintInfix(x.left), [x.cmp], PrintInfix(x.right);
    assert PrintComparison(x) == l + m + r;
    HereSplit(c.toks, i, l + m, r);
    HereSplit(c.toks, i, l, m);
    FirstToken(c.toks, i + |l|, x.cmp);
    RegInfixExtends(RegInfix(s.names, x.left), x.right);
    var h, a, b := EncOp(LVM_CMP_OP, CmpCode(x.cmp)), EmitInfix(c.tab, x.left), EmitInfix(c.tab, x.right);
    assert s.code + (h + a) + b == s.code + (h + a + b);
  }

  // ----- Parentheses before an expression

  function Opens(toks: seq<Token>, i: nat): nat
    decreases |toks| - i
  {
    if Tok(toks, i) == LEFT_PAREN then 1 + Opens(toks, i + 1) else 0
  }

  function Closes(toks: seq<Token>, i: nat): nat
    decreases |toks| - i
  {
    if Tok(toks, i) == RIGHT_PAREN then 1 + Closes(toks, i + 1) else 0
  }

  /** The parentheses an expression itself begins with. */
  function Depth(a: Arg): nat { if a.Group? then 1 + Depth(a.inner.first) else 0 }

  /** How many more stand at `i`. */
  function Extra(toks: seq<Token>, i: nat, e: Infix): int { Opens(toks, i) - Depth(e.first) }

  /** How many closing parentheses follow the expression behind them. */
  function Closing(toks: seq<Token>, i: nat, e: Infix): nat
    requires Extra(toks, i, e) >= 0
  {
    Closes(toks, i + Extra(toks, i, e) + |PrintInfix(e)|)
  }

  /** Any number of opening parentheses stands at `i`, then an expression, then any number of closing
      ones. While they may still be too few, no operator follows them that the parser would reach. */
  ghost predicate Nested(c: Context, s: Lvm.Snap, i: nat, e: Infix) {
    var n := Extra(c.toks, i, e);
    && n > 0 && Here(c.toks, i + n, PrintInfix(e))
    && Room(c, s, RegInfix(s.names, e), |EmitInfix(c.tab, e)| - Slack(e))
    && var m := Closing(c.toks, i, e);
      m >= 2 * n || m % 2 == 1 || !IsOp(Tok(c.toks, i + n + |PrintInfix(e)| + m))
  }

  /** No operator follows two closing parentheses for every opening one either. */
  ghost predicate NestedWhole(c: Context, s: Lvm.Snap, i: nat, e: Infix) {
    && Nested(c, s, i, e)
    && var n, m := Extra(c.toks, i, e), Closing(c.toks, i, e);
      m == 2 * n ==> !IsOp(Tok(c.toks, i + n + |PrintInfix(e)| + m))
  }

  lemma {:induction false} ClosesAt(toks: seq<Token>, j: nat, k: nat)
    requires k <= Closes(toks, j)
    ensures Tok(toks, j + k) == RIGHT_PAREN <==> k < Closes(toks, j)
    decreases k
  {
    if k > 0 {
      ClosesAt(toks, j + 1, k - 1);
    }
  }

  lemma {:induction false} DepthHere(toks: seq<Token>, i: nat, a: Arg)
    requires Here(toks, i, PrintFirst(a))
    ensures Opens(toks, i) == Depth(a)
    decreases a
  {
    match a {
      case Plain(atom) =>
        FirstToken(toks, i, AtomToken(atom));
      case Group(e) =>
        GroupHere(toks, i, PrintInfix(e), [RIGHT_PAREN, RIGHT_PAREN]);
        HereSplit(toks, i + 1, PrintFirst(e.first), PrintTail(e.tail));
        DepthHere(toks, i + 1, e.first);
    }
  }

  /** An expression that begins where it is read is not behind further parentheses. */
  lemma NotNested(c: Context, s: Lvm.Snap, i: nat, e: Infix)
    requires CanFirst(c, s, i, e.first)
    ensures !Nested(c, s, i, e)
  {
    hide PrintInfix, EmitInfix, EmitArg, PrintFirst, RegInfix, Room;
    DepthHere(c.toks, i, e.first);
  }

  /** Behind the first of the opening parentheses. */
  lemma NestedInner(c: Context, s: Lvm.Snap, i: nat, e: Infix)
    requires Nested(c, s, i, e)
    ensures Tok(c.toks, i) == LEFT_PAREN && Extra(c.toks, i + 1, e) == Extra(c.toks, i, e) - 1 >= 0
    ensures Closing(c.toks, i + 1, e) == Closing(c.toks, i, e)
    ensures Extra(c.toks, i, e) > 1 ==> NestedWhole(c, s, i + 1, e)
    ensures Extra(c.toks, i, e) == 1 ==> CanExpr(c, s, i + 1, e)
  {
    hide PrintInfix, EmitInfix, RegInfix, Room, Depth;
    var n, m := Extra(c.toks, i, e), Closing(c.toks, i, e);
    var j := i + n + |PrintInfix(e)|;
    ClosesAt(c.toks, j, 0);
    ClosesAt(c.toks, j, m);
  }

  /** What becomes of it when the parser is to read `n` pairs of closing parentheses and at most `more`
      further ones: every opening parenthesis needs two. */
  ghost predicate Unnested(c: Context, s: Lvm.Snap, i: nat, e: Infix, more: nat, status: int, t: Lvm.Snap, pos: nat)
    requires Extra(c.toks, i, e) >= 0
  {
    var n, m := Extra(c.toks, i, e), Closing(c.toks, i, e);
    && status == (if m >= 2 * n then OK else SYNTAX_ERROR)
    && (m >= 2 * n ==>
          && t == s.Plus(EmitInfix(c.tab, e), RegInfix(s.names, e))
          && pos == i + n + |PrintInfix(e)| + (if m > 2 * n then 2 * n + more else 2 * n))
  }

  /** The inner expression has been read up to `pos`, and then what follows it. */
  lemma UnnestFirst(c: Context, s: Lvm.Snap, i: nat, e: Infix, status: int, t: Lvm.Snap, pos: nat)
    requires Nested(c, s, i, e) && Extra(c.toks, i, e) > 0 && Extra(c.toks, i + 1, e) >= 0
    requires if Extra(c.toks, i, e) > 1 then Unnested(c, s, i + 1, e, 1, status, t, pos)
             else status == OK && pos == AfterParen(c.toks, i + 1 + |PrintInfix(e)|)
                  && t == s.Plus(EmitInfix(c.tab, e), RegInfix(s.names, e))
    ensures status != OK ==> Unnested(c, s, i, e, 0, SYNTAX_ERROR, t, pos)
    ensures status == OK && Tok(c.toks, pos) == RIGHT_PAREN ==> Unnested(c, s, i, e, 0, OK, t, pos + 1)
    ensures status == OK && Tok(c.toks, pos) != RIGHT_PAREN ==>
      forall end: nat :: Unnested(c, s, i, e, 0, SYNTAX_ERROR, t, end)
  {
    hide PrintInfix, EmitInfix, RegInfix, Nested, Closes, Tok, Depth, Opens;
    NestedInner(c, s, i, e);
    var n, m := Extra(c.toks, i, e), Closing(c.toks, i, e);
    var j := i + n + |PrintInfix(e)|;
    ClosesAt(c.toks, j, 0);
    if m >= 2 * n - 2 {
      ClosesAt(c.toks, j, 2 * n - 2);
    }
    if m >= 2 * n - 1 {
      ClosesAt(c.toks, j, 2 * n - 1);
    }
  }

  /** And then one more closing parenthesis, if there is one. */
  lemma UnnestExpr(c: Context, s: Lvm.Snap, i: nat, e: Infix, status: int, t: Lvm.Snap, pos: nat)
    requires NestedWhole(c, s, i, e) && (Nested(c, s, i, e) ==> Unnested(c, s, i, e, 0, status, t, pos))
    ensures status == OK || status == SYNTAX_ERROR
    ensures status == SYNTAX_ERROR ==> Unnested(c, s, i, e, 1, status, t, pos)
    ensures status == OK ==> !IsOp(Tok(c.toks, pos)) && Unnested(c, s, i, e, 1, OK, t, AfterParen(c.toks, pos))
  {
    hide PrintInfix, EmitInfix, RegInfix, Closes, Here, Room, Depth, Opens;
    var n, m := Extra(c.toks, i, e), Closing(c.toks, i, e);
    if m >= 2 * n {
      ClosesAt(c.toks, i + n + |PrintInfix(e)|, 2 * n);
    }
  }

  /** An expression stands at `i` behind more opening parentheses than the closing ones allow. */
  ghost predicate TooFew(c: Context, s: Lvm.Snap, i: nat, e: Infix) {
    var n := Extra(c.toks, i, e);
    && n > 0 && Closing(c.toks, i, e) < 2 * n
    && Nested(c, s.Plus([0, 0, 0, 0], s.names), i, e)
  }

  lemma TooFewRoom(c: Context, s: Lvm.Snap, i: nat, e: Infix)
    requires TooFew(c, s, i, e)
    ensures s.end == |s.code| && s.end + 4 < c.size
  {
    hide PrintInfix, EmitInfix, RegInfix, Here;
  }

  lemma TooFewFails(c: Context, s: Lvm.Snap, i: nat, e: Infix, s': Lvm.Snap, status: int, t: Lvm.Snap, pos: nat)
    requires TooFew(c, s, i, e) && Unnested(c, s', i, e, 1, status, t, pos)
    ensures status == SYNTAX_ERROR
  {
    hide PrintInfix, EmitInfix, RegInfix, Nested, Extra, Closing;
  }

  lemma TooFewBehind(c: Context, s: Lvm.Snap, i: nat, e: Infix, gap: seq<byte>)
    requires TooFew(c, s, i, e) && |gap| == 4
    ensures NestedWhole(c, s.Plus(gap, s.names), i, e)
  {
    hide PrintInfix, EmitInfix, RegInfix, Here;
  }

  // ----- Conditions

  /** Where the parser goes on behind the condition at `i`: a closing parenthesis that follows a
      comparison is read with it. */
  function WhereEnd(toks: seq<Token>, i: nat, w: Where): (j: nat)
    ensures j >= i
    decreases w
  {
    ChainEnd(toks, AfterParen(toks, i + |PrintComparison(w.first)|), w.rest)
  }

  function ChainEnd(toks: seq<Token>, i: nat, t: Chain): (j: nat)
    ensures j >= i
    decreases t
  {
    match t
    case Last => i
    case Link(_, item, rest) => ChainEnd(toks, ItemEnd(toks, i + 1, item), rest)
  }

  /** Behind a broken comparison, the token in place of its operator has been read. */
  function ItemEnd(toks: seq<Token>, i: nat, item: Item): (j: nat)
    ensures j >= i
    decreases item
  {
    match item
    case Compared(x) => AfterParen(toks, i + |PrintComparison(x)|)
    case Enclosed(w) => WhereEnd(toks, i + 1, w) + 1
    case Broken(e) =>
      var j := i + |PrintInfix(e)|;
      if j < |toks| then j + 1 else j
    case Unclosed(w) => WhereEnd(toks, i + 1, w)
  }

  /** The parser reads the tokens from `i` on as the condition `w`. */
  ghost predicate WhereAt(toks: seq<Token>, i: nat, w: Where)
    decreases w
  {
    var j := i + |PrintComparison(w.first)|;
    Here(toks, i, PrintComparison(w.first)) && !IsOp(Tok(toks, j)) && ChainAt(toks, AfterParen(toks, j), w.rest)
  }

  ghost predicate ChainAt(toks: seq<Token>, i: nat, t: Chain)
    decreases t
  {
    match t
    case Last => !IsConnector(Tok(toks, i))
    case Link(k, item, rest) =>
      && Tok(toks, i) == k && ItemAt(toks, i + 1, item)
      && if ItemOutcome(item) == OK then ChainAt(toks, ItemEnd(toks, i + 1, item), rest) else rest.Last?
  }

  ghost predicate ItemAt(toks: seq<Token>, i: nat, item: Item)
    decreases item
  {
    match item
    case Compared(x) =>
      && Tok(toks, i) != LEFT_PAREN && Here(toks, i, PrintComparison(x))
      && !IsOp(Tok(toks, i + |PrintComparison(x)|))
    case Enclosed(w) =>
      Tok(toks, i) == LEFT_PAREN && WhereAt(toks, i + 1, w) && Closed(toks, i + 1, w)
    case Broken(e) =>
      && Tok(toks, i) != LEFT_PAREN && Here(toks, i, PrintInfix(e))
      && NoCmp(Tok(toks, i + |PrintInfix(e)|))
    case Unclosed(w) =>
      Tok(toks, i) == LEFT_PAREN && WhereAt(toks, i + 1, w) && !Closed(toks, i + 1, w)
  }

  /** A closing parenthesis follows what the parser reads of the condition, unless it has given up. */
  predicate Closed(toks: seq<Token>, i: nat, w: Where) {
    Outcome(w.rest) != SYNTAX_ERROR && Tok(toks, WhereEnd(toks, i, w)) == RIGHT_PAREN
  }

  // ----- Room for a condition

  /** How far behind the code's end the buffer must reach to compile a condition. */
  function WhereNeed(tab: Table, w: Where): (n: int)
    ensures 19 <= n
    decreases w
  {
    |EmitComparison(tab, w.first)| + Max(-Slack(w.first.right), ChainNeed(tab, w.rest))
  }

  function ChainNeed(tab: Table, t: Chain): (n: int)
    ensures if t.Last? then n == -1 else 16 <= n
    decreases t
  {
    if t.Last? then -1 else 4 + Max(ItemNeed(tab, t.item), ItemSize(tab, t.item) + ChainNeed(tab, t.rest))
  }

  function ItemNeed(tab: Table, item: Item): (n: int)
    ensures 12 <= n
    decreases item
  {
    match item
    case Compared(x) => |EmitComparison(tab, x)| - Slack(x.right)
    case Enclosed(w) => WhereNeed(tab, w)
    case Broken(e) => 4 + |EmitInfix(tab, e)|
    case Unclosed(w) => WhereNeed(tab, w)
  }

  function Max(a: int, b: int): int { if a < b then b else a }

  ghost predicate CanWhere(c: Context, s: Lvm.Snap, i: nat, w: Where) {
    WhereAt(c.toks, i, w) && Room(c, s, RegWhere(s.names, w), WhereNeed(c.tab, w))
  }

  ghost predicate CanChain(c: Context, s: Lvm.Snap, i: nat, t: Chain) {
    ChainAt(c.toks, i, t) && Room(c, s, RegChain(s.names, t), ChainNeed(c.tab, t))
  }

  ghost predicate CanItem(c: Context, s: Lvm.Snap, i: nat, item: Item) {
    ItemAt(c.toks, i, item) && Room(c, s, RegItem(s.names, item), ItemNeed(c.tab, item))
  }

  // ----- The parser's steps through a condition

  lemma RegComparisonExtends(tab: seq<string>, c: Comparison)
    ensures tab <= RegComparison(tab, c)
  {
    RegInfixExtends(tab, c.left);
    RegInfixExtends(RegInfix(tab, c.left), c.right);
  }

  lemma {:induction false} RegWhereExtends(tab: seq<string>, w: Where)
    ensures tab <= RegWhere(tab, w)
    decreases w
  {
    RegComparisonExtends(tab, w.first);
    RegChainExtends(RegComparison(tab, w.first), w.rest);
  }

  lemma {:induction false} RegChainExtends(tab: seq<string>, t: Chain)
    ensures tab <= RegChain(tab, t)
    decreases t
  {
    if t.Link? {
      RegItemExtends(tab, t.item);
      RegChainExtends(RegItem(tab, t.item), t.rest);
    }
  }

  lemma {:induction false} RegItemExtends(tab: seq<string>, item: Item)
    ensures tab <= RegItem(tab, item)
    decreases item
  {
    match item {
      case Compared(x) => RegComparisonExtends(tab, x);
      case Enclosed(w) => RegWhereExtends(tab, w);
      case Broken(e) => RegInfixExtends(tab, e);
      case Unclosed(w) => RegWhereExtends(tab, w);
    }
  }

  /** The first comparison can be compiled, and the chain behind it. */
  lemma WhereStart(c: Context, s: Lvm.Snap, i: nat, w: Where)
    requires CanWhere(c, s, i, w)
    ensures CanComparison(c, s, i, w.first)
    ensures CanChain(c, s.Plus(EmitComparison(c.tab, w.first), RegComparison(s.names, w.first)),
                     AfterParen(c.toks, i + |PrintComparison(w.first)|), w.rest)
  {
    hide EmitComparison, RegComparison, PrintComparison, Here, ChainAt, Slack;
    RegChainExtends(RegComparison(s.names, w.first), w.rest);
  }

  /** A connective comes next, and can be inserted at `at`; behind it comes the item. */
  lemma LinkStart(c: Context, s: Lvm.Snap, i: nat, t: Chain, at: nat)
    requires CanChain(c, s, i, t) && t.Link? && at < |s.code|
    ensures i < |c.toks| && Tok(c.toks, i) == t.conn && s.end == |s.code| && s.end + 4 < c.size
    ensures CanItem(c, s.Insert(at, ConnBytes(t.conn)), i + 1, t.item)
  {
    hide ItemAt, ChainAt, RegItem, RegChain, ItemNeed, ItemSize, ConnBytes;
    RegChainExtends(RegItem(s.names, t.item), t.rest);
    LinkAt(c, s, i, t);
  }

  lemma LinkAt(c: Context, s: Lvm.Snap, i: nat, t: Chain)
    requires ChainAt(c.toks, i, t) && t.Link?
    ensures Tok(c.toks, i) == t.conn && ItemAt(c.toks, i + 1, t.item)
    ensures RegChain(s.names, t) == RegChain(RegItem(s.names, t.item), t.rest)
    ensures ItemOutcome(t.item) == OK ==> ChainAt(c.toks, ItemEnd(c.toks, i + 1, t.item), t.rest)
    ensures ItemOutcome(t.item) != OK ==> t.rest.Last?
  {
    hide ItemAt, RegItem, ItemEnd;
  }

  /** The state after a condition or a part of it has been compiled. */
  function Compiled(s: Lvm.Snap, code: seq<byte>, names: seq<string>): Lvm.Snap {
    Lvm.Snap(|code|, code, names, s.overrun)
  }

  function AfterWhere(c: Context, s: Lvm.Snap, w: Where): Lvm.Snap {
    Compiled(s, CodeWhere(c.tab, s.code, w), RegWhere(s.names, w))
  }

  function AfterChain(c: Context, s: Lvm.Snap, t: Chain): Lvm.Snap {
    Compiled(s, CodeChain(c.tab, s.code, 0, t), RegChain(s.names, t))
  }

  function AfterItem(c: Context, s: Lvm.Snap, item: Item): Lvm.Snap {
    Compiled(s, CodeItem(c.tab, s.code, item), RegItem(s.names, item))
  }

  /** Behind the item, the rest of the chain can be compiled, to the same code. */
  lemma LinkNext(c: Context, s: Lvm.Snap, i: nat, t: Chain, at: nat)
    requires CanChain(c, s, i, t) && t.Link? && at < |s.code| && ItemOutcome(t.item) == OK
    ensures var s' := AfterItem(c, s.Insert(at, ConnBytes(t.conn)), t.item);
      && CanChain(c, s', ItemEnd(c.toks, i + 1, t.item), t.rest) && |s.code| + 4 < |s'.code|
      && CodeChain(c.tab, s'.code, |s.code| + 4, t.rest) == CodeChain(c.tab, s.code, at, t)
      && RegChain(s'.names, t.rest) == RegChain(s.names, t)
  {
    hide ItemAt, ChainAt, ItemEnd, RegItem, RegChain, CodeItem, ItemNeed, ItemSize, ConnBytes;
    LinkAt(c, s, i, t);
  }

  /** And so does one that ends the chain. */
  lemma LinkEnds(c: Context, s: Lvm.Snap, i: nat, t: Chain, at: nat)
    requires CanChain(c, s, i, t) && t.Link? && at < |s.code| && ItemOutcome(t.item) != OK
    ensures var s' := AfterItem(c, s.Insert(at, ConnBytes(t.conn)), t.item);
      && Outcome(t) == ItemOutcome(t.item) && ChainEnd(c.toks, i, t) == ItemEnd(c.toks, i + 1, t.item)
      && CodeChain(c.tab, s.code, at, t) == s'.code && RegChain(s.names, t) == s'.names
  {
    hide ItemAt, ChainAt, ItemEnd, RegItem, CodeItem, ConnBytes;
    LinkAt(c, s, i, t);
  }

  /** The loop over the connectives started in the state `s0` at `i0` with the chain `t` to come; `rest`
      is left, and the next connective goes to `at`. */
  ghost predicate ChainLoop(c: Context, s0: Lvm.Snap, i0: nat, t: Chain, s: Lvm.Snap, i: nat, rest: Chain, at: nat) {
    && CanChain(c, s, i, rest) && at < |s.code| && s.overrun == s0.overrun
    && CodeChain(c.tab, s.code, at, rest) == CodeChain(c.tab, s0.code, 0, t)
    && RegChain(s.names, rest) == RegChain(s0.names, t)
    && ChainEnd(c.toks, i, rest) == ChainEnd(c.toks, i0, t) && Outcome(rest) == Outcome(t)
  }

  lemma LoopStarts(c: Context, s0: Lvm.Snap, i0: nat, t: Chain)
    requires CanChain(c, s0, i0, t) && s0.end > 0
    ensures ChainLoop(c, s0, i0, t, s0, i0, t, 0)
  {
    hide ChainAt, RegChain, CodeChain, ChainNeed, ChainEnd, Outcome;
  }

  /** Before a turn of the loop: the chain is complete, or a connective comes next. */
  lemma LoopEnds(c: Context, s0: Lvm.Snap, i0: nat, t: Chain, s: Lvm.Snap, i: nat, at: nat)
    requires ChainLoop(c, s0, i0, t, s, i, Last, at)
    ensures !IsConnector(Tok(c.toks, i)) && i == ChainEnd(c.toks, i0, t) && Outcome(t) == OK
    ensures s == AfterChain(c, s0, t)
  {
    assert ChainEnd(c.toks, i, Last) == i;
    hide ItemAt, ItemEnd, CodeItem, RegItem, ConnBytes;
  }

  lemma LoopNext(c: Context, s0: Lvm.Snap, i0: nat, t: Chain, s: Lvm.Snap, i: nat, rest: Chain, at: nat)
    requires ChainLoop(c, s0, i0, t, s, i, rest, at) && rest.Link?
    ensures i < |c.toks| && Tok(c.toks, i) == rest.conn && at < |s.code| && s.end == |s.code| && s.end + 4 < c.size
    ensures CanItem(c, s.Insert(at, ConnBytes(rest.conn)), i + 1, rest.item)
    ensures var s1 := s.Insert(at, ConnBytes(rest.conn));
      var s2, j := AfterItem(c, s1, rest.item), ItemEnd(c.toks, i + 1, rest.item);
      if ItemOutcome(rest.item) == OK then ChainLoop(c, s0, i0, t, s2, j, rest.rest, s1.end)
      else
        && Outcome(t) == ItemOutcome(rest.item) && j == ChainEnd(c.toks, i0, t)
        && s2 == AfterChain(c, s0, t)
  {
    hide CanItem, CanChain, ItemEnd, CodeItem, CodeChain, RegItem, RegChain, ConnBytes, ItemOutcome;
    LinkStart(c, s, i, rest, at);
    if ItemOutcome(rest.item) == OK {
      LinkNext(c, s, i, rest, at);
    } else {
      LinkEnds(c, s, i, rest, at);
    }
  }

  /** What the parser is to find behind a connective. */
  lemma ItemStart(c: Context, s: Lvm.Snap, i: nat, item: Item)
    requires CanItem(c, s, i, item)
    ensures i < |c.toks| && (Tok(c.toks, i) == LEFT_PAREN <==> item.Enclosed? || item.Unclosed?)
    ensures item.Compared? ==> CanComparison(c, s, i, item.comparison)
    ensures item.Broken? ==> LacksCmp(c, s, i, item.expr)
    ensures item.Enclosed? ==> CanWhere(c, s, i + 1, item.inner) && Closed(c.toks, i + 1, item.inner)
    ensures item.Unclosed? ==> CanWhere(c, s, i + 1, item.inner) && !Closed(c.toks, i + 1, item.inner)
  {
    hide WhereAt, Closed, EmitComparison, EmitInfix, PrintInfix, PrintComparison, RegInfix, RegComparison, RegWhere,
         WhereNeed;
  }

  /** A comparison where the parser is in no particular one. */
  const NOTHING: Comparison := Comparison(Infix(Plain(Number(0)), Stop), EQUAL, Infix(Plain(Number(0)), Stop))

  // ----- Written conditions

  /** Nothing in the condition ends badly, and no comparison behind a connective begins with a parenthesis. */
  predicate Written(t: Chain): (b: bool)
    ensures b ==> Outcome(t) == OK
    decreases t
  {
    match t
    case Last => true
    case Link(_, Compared(x), rest) => x.left.first.Plain? && Written(rest)
    case Link(_, Enclosed(w), rest) => Written(w.rest) && Written(rest)
    case _ => false
  }

  /** What follows the written condition at `j` ends it. */
  predicate Followed(toks: seq<Token>, j: nat, t: Chain) {
    (EndsOpen(t) ==> !IsOp(Tok(toks, j))) && !IsConnector(Tok(toks, Behind(toks, j, t)))
  }

  function Behind(toks: seq<Token>, j: nat, t: Chain): nat { if EndsOpen(t) then AfterParen(toks, j) else j }

  /** The parser reads a written condition as that condition. */
  lemma {:induction false} WhereWritten(toks: seq<Token>, i: nat, w: Where)
    requires Written(w.rest) && Here(toks, i, PrintWhere(w)) && Followed(toks, i + |PrintWhere(w)|, w.rest)
    ensures WhereAt(toks, i, w) && WhereEnd(toks, i, w) == Behind(toks, i + |PrintWhere(w)|, w.rest)
    decreases w
  {
    hide PrintComparison, PrintChain, Followed, Behind, AfterParen, Written, ChainAt, ChainEnd;
    HereSplit(toks, i, PrintComparison(w.first), PrintChain(w.rest));
    RestWritten(toks, i + |PrintComparison(w.first)|, w.rest, true);
    RestEnds(toks, i + |PrintComparison(w.first)|, w.rest);
  }

  lemma RestEnds(toks: seq<Token>, i: nat, t: Chain)
    ensures t.Last? ==> |PrintChain(t)| == 0 && Behind(toks, i, t) == AfterParen(toks, i)
  {
  }

  /** Behind a comparison or an enclosed condition. */
  lemma {:induction false} RestWritten(toks: seq<Token>, i: nat, t: Chain, compared: bool)
    requires Written(t) && Here(toks, i, PrintChain(t))
    requires if t.Link? || compared then Followed(toks, i + |PrintChain(t)|, t) else !IsConnector(Tok(toks, i))
    ensures compared ==> !IsOp(Tok(toks, i))
    ensures var i' := if compared then AfterParen(toks, i) else i;
      && ChainAt(toks, i', t)
      && ChainEnd(toks, i', t) == if t.Link? then Behind(toks, i + |PrintChain(t)|, t) else i'
    decreases t
  {
    hide PrintComparison, PrintWhere, PrintChain, PrintItem, Here, ItemAt, ItemEnd;
    RestEnds(toks, i, t);
    if t.Link? {
      LinkWritten(toks, i, t);
      var j := i + 1 + |PrintItem(t.item)|;
      RestEnds(toks, j, t.rest);
      RestWritten(toks, j, t.rest, t.item.Compared?);
      ItemWritten(toks, i + 1, t.item);
    }
  }

  lemma {:induction false} ItemWritten(toks: seq<Token>, i: nat, item: Item)
    requires (item.Compared? && item.comparison.left.first.Plain?) || (item.Enclosed? && Written(item.inner.rest))
    requires Here(toks, i, PrintItem(item)) && (item.Compared? ==> !IsOp(Tok(toks, i + |PrintItem(item)|)))
    ensures ItemAt(toks, i, item)
    ensures var j := i + |PrintItem(item)|; ItemEnd(toks, i, item) == if item.Compared? then AfterParen(toks, j) else j
    decreases item
  {
    hide PrintComparison, PrintWhere, PrintItem, Here, WhereAt, WhereEnd, Followed, Behind;
    match item {
      case Compared(x) =>
        ComparedWritten(toks, i, x);
      case Enclosed(w) =>
        EnclosedWritten(toks, i, w);
        WhereWritten(toks, i + 1, w);
    }
  }

  lemma LinkWritten(toks: seq<Token>, i: nat, t: Chain)
    requires t.Link? && Here(toks, i, PrintChain(t))
    ensures Tok(toks, i) == t.conn && |PrintChain(t)| == 1 + |PrintItem(t.item)| + |PrintChain(t.rest)|
    ensures Here(toks, i + 1, PrintItem(t.item)) && Here(toks, i + 1 + |PrintItem(t.item)|, PrintChain(t.rest))
  {
    var k, item, rest := [t.conn], PrintItem(t.item), PrintChain(t.rest);
    assert PrintChain(t) == k + item + rest;
    hide PrintChain, PrintItem;
    HereSplit(toks, i, k + item, rest);
    HereSplit(toks, i, k, item);
    FirstToken(toks, i, t.conn);
  }

  lemma ComparedWritten(toks: seq<Token>, i: nat, x: Comparison)
    requires x.left.first.Plain? && Here(toks, i, PrintItem(Compared(x)))
    ensures Tok(toks, i) != LEFT_PAREN && PrintItem(Compared(x)) == PrintComparison(x)
  {
    assert PrintComparison(x)[0] == PrintInfix(x.left)[0] == PrintFirst(x.left.first)[0];
    assert toks[i] == toks[i..i + |PrintComparison(x)|][0];
  }

  lemma EnclosedWritten(toks: seq<Token>, i: nat, w: Where)
    requires Here(toks, i, PrintItem(Enclosed(w)))
    ensures Tok(toks, i) == LEFT_PAREN && Here(toks, i + 1, PrintWhere(w))
    ensures var j := i + 1 + |PrintWhere(w)|;
      && Followed(toks, j, w.rest) && Tok(toks, Behind(toks, j, w.rest)) == RIGHT_PAREN
      && i + |PrintItem(Enclosed(w))| == Behind(toks, j, w.rest) + 1
  {
    var s, t := PrintWhere(w), if EndsOpen(w.rest) then [RIGHT_PAREN, RIGHT_PAREN] else [RIGHT_PAREN];
    hide PrintWhere;
    GroupHere(toks, i, s, t);
    if EndsOpen(w.rest) {
      SecondToken(toks, i + 1 + |s|, RIGHT_PAREN, RIGHT_PAREN);
    }
  }
}
