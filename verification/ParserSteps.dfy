/** What each production of the parser achieves on printed input, as relations between parser states. */
module FinshParserSteps {
  import opened Common
  import opened FinshMachine
  import opened FinshSyntax
  import opened FinshGrammar
  import opened FinshNodeTable
  import opened FinshBuild

  /** Tokens still to be read, the node table, and the error variable. */
  datatype PState = PState(rest: seq<Token>, nodes: seq<Cell>, error: int)

  datatype Ctx = Ctx(names: Names, symbols: Symbols)

  /** An expression expected on the input, and the tokens after it. */
  datatype Goal = NoGoal | Goal(e: Expr, rest: seq<Token>)

  /** The input starts with the goal, printed for level `level`, and there is room for its tree. */
  ghost predicate Ready(s: PState, g: Ctx, goal: Goal, level: int) {
    && goal.Goal? && s.rest == Print(goal.e, g.names) + goal.rest
    && goal.rest != [] && TokenLevel(goal.rest[0]) < level
    && Level(goal.e) >= level && Printable(goal.e) && Named(goal.e, g.names, g.symbols)
    && Clean(s.nodes) && Size(goal.e) <= Free(s.nodes)
  }

  /** A tree for `e` was planted, and nothing else in the table changed. */
  ghost predicate Grew(s: PState, s': PState, e: Expr, r: int, n: Node) {
    && s'.error == s.error && r == Ref(n) && n.Node? && n.sibling == Nil && Denotes(n, e)
    && Planted(s.nodes, s'.nodes, n) && Grown(s.nodes, s'.nodes, Size(e))
  }

  /** The root of a planted tree is in use. */
  lemma GrewUsed(s: PState, s': PState, e: Expr, r: int, n: Node)
    requires Grew(s, s', e, r, n)
    ensures n.Node? && r == Ref(n) && 0 <= r < |s'.nodes| && s'.nodes[r].kind != Unknown
    ensures Clean(s'.nodes) && Free(s'.nodes) == Free(s.nodes) - Size(e)
  {
    SlotsUsed(s'.nodes, n);
  }

  /** The input plays no part in it. */
  lemma GrewRest(s: PState, s': PState, a: PState, b: PState, e: Expr, r: int, n: Node)
    requires Grew(s, s', e, r, n) && a.nodes == s.nodes && a.error == s.error && b.nodes == s'.nodes && b.error == s'.error
    ensures Grew(a, b, e, r, n)
  {
  }

  /** The goal was read and its tree built. */
  ghost predicate Built(s: PState, s': PState, goal: Goal, r: int, n: Node) {
    goal.Goal? && s'.rest == goal.rest && Grew(s, s', goal.e, r, n)
  }

  /** One token was read. */
  ghost predicate Shifted(s: PState, t: Token, s': PState) {
    s' == s.(rest := if s.rest == [] then [] else s.rest[1..]) && t == if s.rest == [] then Eof else s.rest[0]
  }

  /** The result of `make_sys_node` on two planted trees. */
  ghost predicate Made(s: PState, s': PState, kind: Kind, n1: Node, n2: Node, r: int) {
    && s'.rest == s.rest && s'.error == s.error
    && 0 <= r < |s.nodes| && s.nodes[r].kind == Unknown && n1.Node? && 0 <= n1.slot < |s.nodes|
    && s'.nodes == Linked(s.nodes, r, kind, n1, n2)
  }

  /** The trees of two operands, built one after the other and joined. */
  lemma JoinTwo(s: PState, s1: PState, s2: PState, s3: PState, l: Expr, x: Expr, e: Expr, r1: int, n1: Node, r2: int, n2: Node, kind: Kind, r: int)
    requires Grew(s, s1, l, r1, n1) && Grew(s1.(rest := s1.rest), s2, x, r2, n2) && Made(s2, s3, kind, n1, n2, r)
    requires (e.Binary? && e.l == l && e.r == x && kind == Op(e.op)) || (e.Assign? && e.l == l && e.r == x && kind == Assignment)
    ensures Grew(s, s3, e, r, Joined(r, kind, n1, n2))
  {
    hide Planted, Grown, Slots, Printable;
    PlantedApart(s.nodes, s1.nodes, s2.nodes, n1, n2);
    PlantedGrown(s.nodes, s1.nodes, s2.nodes, n1, Size(x));
    PlantedEarlier(s.nodes, s1.nodes, s2.nodes, n2, Size(l));
    GrownTwice(s.nodes, s1.nodes, s2.nodes, Size(l), Size(x));
    Join(s.nodes, s2.nodes, r, kind, n1, n2, Size(l) + Size(x));
    assert Denotes(n1.(sibling := n2), l);
  }

  /** The tree of one operand, put under a unary node. */
  lemma JoinOne(s: PState, s1: PState, s2: PState, x: Expr, e: Expr, r1: int, n1: Node, kind: Kind, r: int)
    requires Grew(s, s1, x, r1, n1) && Made(s1, s2, kind, n1, Nil, r)
    requires match e
             case Complement(y) => y == x && kind == Bitwise
             case Deref(y) => y == x && kind == GetValue
             case AddrOf(y) => y == x && kind == GetAddr
             case Step(prefix, op, a) => x == Var(a) && kind == (if prefix then PreStep(op) else PostStep(op))
             case Apply(f, args) => x == f && args == [] && kind == Func
             case _ => false
    ensures Grew(s, s2, e, r, Joined(r, kind, n1, Nil))
  {
    assert Slots(Nil) == {};
    Join(s.nodes, s1.nodes, r, kind, n1, Nil, Size(x));
    assert n1.(sibling := Nil) == n1;
    if e.Apply? { assert DenotesAll(Nil, []) && Sizes([]) == 0; }
  }

  /** The same with the right operand built before the left one, as for a sign or an initial value. */
  lemma JoinSwapped(s: PState, s1: PState, s2: PState, s3: PState, l: Expr, x: Expr, e: Expr, r1: int, n1: Node, r2: int, n2: Node, kind: Kind, r: int)
    requires Grew(s, s1, x, r2, n2) && Grew(s1, s2, l, r1, n1) && Made(s2, s3, kind, n1, n2, r)
    requires (e.Binary? && e.l == l && e.r == x && kind == Op(e.op)) || (e.Assign? && e.l == l && e.r == x && kind == Assignment)
    ensures Grew(s, s3, e, r, Joined(r, kind, n1, n2))
  {
    hide Planted, Grown, Slots;
    PlantedApart(s.nodes, s1.nodes, s2.nodes, n2, n1);
    PlantedGrown(s.nodes, s1.nodes, s2.nodes, n2, Size(l));
    PlantedEarlier(s.nodes, s1.nodes, s2.nodes, n1, Size(x));
    GrownTwice(s.nodes, s1.nodes, s2.nodes, Size(x), Size(l));
    Join(s.nodes, s2.nodes, r, kind, n1, n2, Size(x) + Size(l));
    assert Denotes(n1.(sibling := n2), l);
  }

  /** A leaf was built after an operand; both are in use, and an entry is left for what joins them. */
  lemma SwappedRoom(s: PState, s1: PState, s2: PState, l: Expr, x: Expr, r1: int, n1: Node, r2: int, n2: Node)
    requires Grew(s, s1, x, r2, n2) && Grew(s1, s2, l, r1, n1) && Size(x) + Size(l) < Free(s.nodes)
    ensures n1.Node? && n2.Node? && r1 == Ref(n1) && r2 == Ref(n2)
    ensures 0 <= r1 < |s2.nodes| && s2.nodes[r1].kind != Unknown && Clean(s2.nodes) && 0 < Free(s2.nodes)
  {
    GrewUsed(s, s1, x, r2, n2);
    GrewUsed(s1, s2, l, r1, n1);
  }

  /** Behind a sign: an operand on the input, and room for its tree, a zero and a subtraction. */
  ghost predicate SignReady(s: PState, g: Ctx, signed: Goal) {
    Ready(s, g, signed, 7) && Size(signed.e) + 2 <= Free(s.nodes)
  }

  /** What a signed operand means: `+` adds nothing, `-` subtracts from zero. */
  function SignedExpr(t: Token, e: Expr): Expr {
    if t == Minus then Binary(Sub, Const(0), e) else e
  }

  /** The symbols after the declaration of a variable. */
  function Declared(s: Symbols, name: string, addr: Word): Symbols {
    s.(vars := s.vars[name := addr])
  }

  /** Behind `type name =`: the initial value, printed, and room for its tree, the name and the assignment. */
  ghost predicate InitReady(s: PState, g: Ctx, e: Expr, rest: seq<Token>) {
    Ready(s, g, Goal(e, [Semicolon] + rest), 0) && Size(e) + 2 <= Free(s.nodes)
  }

  // ----- the loop of a binary level -----

  /** Between two operators: `done` is built, `todo` is still on the input, and `t` has just been read. */
  ghost predicate InLoop(s0: PState, s: PState, t: Token, g: Ctx, goal: Goal, k: int, done: Expr, todo: seq<(BinOp, Expr)>, r: int, n: Node) {
    && goal.Goal? && [t] + s.rest == PrintOps(todo, g.names) + goal.rest && goal.rest != [] && TokenLevel(goal.rest[0]) < k
    && Fold(done, todo) == goal.e && OpsReady(todo, k, g.names, g.symbols) && Size(done) + OpsSize(todo) <= Free(s0.nodes)
    && Grew(s0, s, done, r, n)
  }

  lemma BaseReady(s: PState, g: Ctx, goal: Goal, k: int)
    requires Ready(s, g, goal, k) && 1 <= k <= 6
    ensures goal.Goal? && Ready(s, g, Goal(Base(goal.e, k), PrintOps(Ops(goal.e, k), g.names) + goal.rest), k + 1)
  {
    Spine(goal.e, k, g.names);
    SpineReady(goal.e, k, g.names, g.symbols);
    NextOpLevel(Ops(goal.e, k), k, g, goal.rest);
  }

  lemma NextOpLevel(ops: seq<(BinOp, Expr)>, k: int, g: Ctx, rest: seq<Token>)
    requires OpsReady(ops, k, g.names, g.symbols) && rest != [] && TokenLevel(rest[0]) < k
    ensures var after := PrintOps(ops, g.names) + rest; after != [] && TokenLevel(after[0]) < k + 1
    ensures ops != [] ==> (PrintOps(ops, g.names) + rest)[0] == OpToken(ops[0].0) && TokenLevel(OpToken(ops[0].0)) == k
  {
    if ops != [] { OpTokenLevel(ops[0].0); }
  }

  lemma LoopStart(s0: PState, s1: PState, s2: PState, t: Token, g: Ctx, goal: Goal, k: int, r: int, n: Node)
    requires Ready(s0, g, goal, k) && 1 <= k <= 6
    requires Built(s0, s1, Goal(Base(goal.e, k), PrintOps(Ops(goal.e, k), g.names) + goal.rest), r, n) && Shifted(s1, t, s2)
    ensures InLoop(s0, s2, t, g, goal, k, Base(goal.e, k), Ops(goal.e, k), r, n)
  {
    Spine(goal.e, k, g.names);
    SpineReady(goal.e, k, g.names, g.symbols);
  }

  lemma LoopOperand(s0: PState, s: PState, t: Token, g: Ctx, goal: Goal, k: int, done: Expr, todo: seq<(BinOp, Expr)>, r: int, n: Node)
    requires InLoop(s0, s, t, g, goal, k, done, todo, r, n) && TokenLevel(t) == k && 1 <= k <= 6
    ensures todo != [] && OpOf(t) == todo[0].0 && goal.Goal?
    ensures Ready(s, g, Goal(todo[0].1, PrintOps(todo[1..], g.names) + goal.rest), k + 1)
  {
    hide Print, Printable, Named;
    NextOpLevel(todo, k, g, goal.rest);
    assert ([t] + s.rest)[0] == t && ([t] + s.rest)[1..] == s.rest;
    assert todo != [];
    var more := PrintOps(todo[1..], g.names) + goal.rest;
    assert PrintOps(todo, g.names) + goal.rest == [OpToken(todo[0].0)] + (Print(todo[0].1, g.names) + more);
    assert forall i :: 0 <= i < |todo[1..]| ==> todo[1..][i] == todo[i + 1];
    NextOpLevel(todo[1..], k, g, goal.rest);
  }

  /** Both operands are in use, and there is an entry left for their operator. */
  lemma LoopRoom(s0: PState, s: PState, t: Token, g: Ctx, goal: Goal, k: int, done: Expr, todo: seq<(BinOp, Expr)>, r: int, n: Node,
                 s1: PState, goal1: Goal, r2: int, n2: Node)
    requires InLoop(s0, s, t, g, goal, k, done, todo, r, n) && todo != [] && goal1.Goal? && goal1.e == todo[0].1 && Built(s, s1, goal1, r2, n2)
    ensures n.Node? && r == Ref(n) && r2 == Ref(n2) && 0 <= r < |s1.nodes| && s1.nodes[r].kind != Unknown && 0 <= r2
    ensures Clean(s1.nodes) && 0 < Free(s1.nodes)
  {
    GrewUsed(s0, s, done, r, n);
    GrewUsed(s, s1, todo[0].1, r2, n2);
  }

  lemma LoopJoin(s0: PState, s: PState, t: Token, g: Ctx, goal: Goal, k: int, done: Expr, todo: seq<(BinOp, Expr)>, r: int, n: Node,
                 s1: PState, r2: int, n2: Node, s2: PState, r': int, t': Token, s3: PState)
    requires InLoop(s0, s, t, g, goal, k, done, todo, r, n) && todo != []
    requires Built(s, s1, Goal(todo[0].1, PrintOps(todo[1..], g.names) + goal.rest), r2, n2)
    requires Made(s1, s2, Op(todo[0].0), n, n2, r') && Shifted(s2, t', s3)
    ensures InLoop(s0, s3, t', g, goal, k, Binary(todo[0].0, done, todo[0].1), todo[1..], r', Joined(r', Op(todo[0].0), n, n2))
  {
    hide Grew, Print, Printable, Named;
    var e := Binary(todo[0].0, done, todo[0].1);
    JoinTwo(s0, s, s1, s2, done, todo[0].1, e, r, n, r2, n2, Op(todo[0].0), r');
    GrewRest(s0, s2, s0, s3, e, r', Joined(r', Op(todo[0].0), n, n2));
    assert forall i :: 0 <= i < |todo[1..]| ==> todo[1..][i] == todo[i + 1];
    assert goal.rest != [] && s2.rest != [] && [t'] + s3.rest == s2.rest;
  }

  lemma LoopEnd(s0: PState, s: PState, t: Token, g: Ctx, goal: Goal, k: int, done: Expr, todo: seq<(BinOp, Expr)>, r: int, n: Node)
    requires InLoop(s0, s, t, g, goal, k, done, todo, r, n) && TokenLevel(t) != k && 1 <= k <= 6
    ensures Built(s0, s.(rest := [t] + s.rest), goal, r, n)
  {
    NextOpLevel(todo, k, g, goal.rest);
    assert ([t] + s.rest)[0] == t;
    assert todo == [];
    assert PrintOps(todo, g.names) + goal.rest == goal.rest;
  }

  // ----- assignment -----

  lemma AssignLeft(s: PState, g: Ctx, goal: Goal)
    requires Ready(s, g, goal, 0)
    ensures goal.Goal? && goal.rest != [] && goal.rest[0] != Equals
    ensures goal.e.Assign? ==> Ready(s, g, Goal(goal.e.l, [Equals] + Print(goal.e.r, g.names) + goal.rest), 1)
    ensures !goal.e.Assign? ==> Ready(s, g, goal, 1)
  {
    if goal.e.Assign? {
      var after := [Equals] + Print(goal.e.r, g.names) + goal.rest;
      assert Print(goal.e, g.names) + goal.rest == Print(goal.e.l, g.names) + after;
      assert after[0] == Equals;
    }
  }

  lemma AssignRight(s: PState, g: Ctx, goal: Goal, s1: PState, r1: int, n1: Node, t: Token, s2: PState)
    requires Ready(s, g, goal, 0) && goal.e.Assign?
    requires Built(s, s1, Goal(goal.e.l, [Equals] + Print(goal.e.r, g.names) + goal.rest), r1, n1) && Shifted(s1, t, s2)
    ensures t == Equals && Ready(s2, g, Goal(goal.e.r, goal.rest), 0)
  {
    AfterHead(Equals, Print(goal.e.r, g.names), goal.rest);
    GrewUsed(s, s1, goal.e.l, r1, n1);
    RightReady(s, g, goal, s2);
  }

  lemma AfterHead(t: Token, a: seq<Token>, rest: seq<Token>)
    ensures ([t] + a + rest)[0] == t && ([t] + a + rest)[1..] == a + rest
  {
  }

  lemma RightReady(s: PState, g: Ctx, goal: Goal, s2: PState)
    requires Ready(s, g, goal, 0) && goal.e.Assign?
    requires s2.rest == Print(goal.e.r, g.names) + goal.rest && Clean(s2.nodes) && Free(s2.nodes) == Free(s.nodes) - Size(goal.e.l)
    ensures Ready(s2, g, Goal(goal.e.r, goal.rest), 0)
  {
  }

  lemma AssignDone(s: PState, g: Ctx, goal: Goal, s1: PState, r1: int, n1: Node, t: Token, s2: PState, s3: PState, r2: int, n2: Node, s4: PState, r: int)
    requires Ready(s, g, goal, 0) && goal.e.Assign?
    requires Built(s, s1, Goal(goal.e.l, [Equals] + Print(goal.e.r, g.names) + goal.rest), r1, n1) && Shifted(s1, t, s2)
    requires Built(s2, s3, Goal(goal.e.r, goal.rest), r2, n2) && Made(s3, s4, Assignment, n1, n2, r)
    ensures Built(s, s4, goal, r, Joined(r, Assignment, n1, n2))
  {
    JoinTwo(s, s2, s3, s4, goal.e.l, goal.e.r, goal.e, r1, n1, r2, n2, Assignment, r);
  }

  /** A token put back. */
  lemma PutBack(s: PState, t: Token, s': PState)
    requires Shifted(s, t, s') && s.rest != []
    ensures s'.(rest := [t] + s'.rest) == s
  {
    assert [s.rest[0]] + s.rest[1..] == s.rest;
  }

  /** A statement does not start with a semicolon. */
  lemma StatementReady(s: PState, g: Ctx, e: Expr, rest: seq<Token>, t: Token, s1: PState)
    requires Ready(s, g, Goal(e, [Semicolon] + rest), 0) && Shifted(s, t, s1)
    ensures t != Semicolon && s1.(rest := [t] + s1.rest) == s
  {
    FirstToken(e, g.names);
    PutBack(s, t, s1);
  }

  // ----- unary operators -----

  /** The operand of a prefix operator. */
  function PrefixOperand(e: Expr): Expr {
    match e
    case Complement(x) => x
    case Deref(x) => x
    case AddrOf(x) => x
    case Step(_, _, a) => Var(a)
    case _ => e
  }

  function PrefixToken(e: Expr): Token {
    match e
    case Complement(_) => Tilde
    case Deref(_) => Star
    case AddrOf(_) => Ampersand
    case Step(_, op, _) => if op == Add then Increment else Decrement
    case _ => Bad
  }

  function PrefixKind(e: Expr): Kind {
    match e
    case Complement(_) => Bitwise
    case Deref(_) => GetValue
    case AddrOf(_) => GetAddr
    case Step(_, op, _) => PreStep(op)
    case _ => Unknown
  }

  /** The node kind of a prefix operator token, or Unknown. */
  function PrefixOf(t: Token): Kind {
    match t
    case Tilde => Bitwise
    case Star => GetValue
    case Ampersand => GetAddr
    case Increment => PreStep(Add)
    case Decrement => PreStep(Sub)
    case _ => Unknown
  }

  lemma UnaryReady(s: PState, g: Ctx, goal: Goal, t: Token, s1: PState)
    requires Ready(s, g, goal, 7) && Shifted(s, t, s1)
    ensures goal.Goal? && t != LeftParen && t != Plus && t != Minus && Level(goal.e) >= 7
    ensures Level(goal.e) > 7 ==> PrefixOf(t) == Unknown
    ensures Level(goal.e) == 7 ==> t == PrefixToken(goal.e) && PrefixOf(t) == PrefixKind(goal.e) != Unknown
    ensures Level(goal.e) == 7 ==> Ready(s1, g, Goal(PrefixOperand(goal.e), goal.rest), 7)
    ensures Level(goal.e) > 7 ==> (t.Number? || t.Identifier?) && Ready(s, g, goal, 8)
  {
    FirstToken(goal.e, g.names);
    var p := Print(goal.e, g.names);
    assert s.rest[0] == p[0] && s.rest[1..] == p[1..] + goal.rest;
    if Level(goal.e) == 7 {
      assert p == [PrefixToken(goal.e)] + Print(PrefixOperand(goal.e), g.names);
      assert p[1..] == Print(PrefixOperand(goal.e), g.names);
    }
  }

  lemma UnaryDone(s: PState, g: Ctx, goal: Goal, t: Token, s1: PState, s2: PState, r1: int, n1: Node, s3: PState, r: int)
    requires Ready(s, g, goal, 7) && Level(goal.e) == 7 && Shifted(s, t, s1)
    requires Built(s1, s2, Goal(PrefixOperand(goal.e), goal.rest), r1, n1) && Made(s2, s3, PrefixKind(goal.e), n1, Nil, r)
    ensures Built(s, s3, goal, r, Joined(r, PrefixKind(goal.e), n1, Nil))
  {
    JoinOne(s, s2, s3, PrefixOperand(goal.e), goal.e, r1, n1, PrefixKind(goal.e), r);
  }

  // ----- lists of expressions -----

  /** Trees for `es` were planted as a chain. */
  ghost predicate GrewAll(s: PState, s': PState, es: seq<Expr>, r: int, n: Node) {
    && s'.error == s.error && r == Ref(n) && DenotesAll(n, es)
    && Planted(s.nodes, s'.nodes, n) && Grown(s.nodes, s'.nodes, Sizes(es))
  }

  lemma GrewAllRest(s: PState, s': PState, b: PState, es: seq<Expr>, r: int, n: Node)
    requires GrewAll(s, s', es, r, n) && b.nodes == s'.nodes && b.error == s'.error
    ensures GrewAll(s, b, es, r, n)
  {
  }

  ghost predicate AllReady(es: seq<Expr>, g: Ctx) {
    forall i :: 0 <= i < |es| ==> Printable(es[i]) && Named(es[i], g.names, g.symbols)
  }

  lemma {:induction false} SizesSnoc(es: seq<Expr>, e: Expr)
    ensures Sizes(es + [e]) == Sizes(es) + Size(e)
  {
    var all := es + [e];
    if es == [] {
      assert all[1..] == [];
    } else {
      assert all[1..] == es[1..] + [e];
      SizesSnoc(es[1..], e);
    }
  }

  /** One more expression at the end of the chain. */
  lemma GrewNext(s: PState, s1: PState, es: seq<Expr>, r: int, n: Node, s2: PState, e: Expr, r2: int, m: Node, s3: PState)
    requires es != [] && GrewAll(s, s1, es, r, n) && Grew(s1, s2, e, r2, m)
    requires 0 <= LastSlot(n) < |s2.nodes| && s3.error == s2.error
    requires s3.nodes == s2.nodes[LastSlot(n) := s2.nodes[LastSlot(n)].(sibling := r2)]
    ensures GrewAll(s, s3, es + [e], r, Append(n, m)) && LastSlot(Append(n, m)) == m.slot
  {
    assert Denotes(n, es[0]);
    AppendPlanted(s.nodes, s1.nodes, s2.nodes, n, m, Sizes(es), Size(e), s3.nodes);
    AppendDenotes(n, es, m, e);
    SizesSnoc(es, e);
    PlantedApart(s.nodes, s1.nodes, s2.nodes, n, m);
    PlantedGrown(s.nodes, s1.nodes, s2.nodes, n, Size(e));
    AppendHolds(s2.nodes, n, m, s3.nodes);
  }

  lemma GrewFirst(s: PState, s': PState, e: Expr, r: int, n: Node)
    requires Grew(s, s', e, r, n)
    ensures GrewAll(s, s', [e], r, n) && LastSlot(n) == r
  {
    assert [e][1..] == [] && DenotesAll(Nil, []) && Sizes([e]) == Size(e);
  }

  /** The node a chain ends with is in use. */
  lemma LastUsed(s: PState, s': PState, es: seq<Expr>, r: int, n: Node)
    requires es != [] && GrewAll(s, s', es, r, n)
    ensures 0 <= LastSlot(n) < |s'.nodes| && s'.nodes[LastSlot(n)].kind != Unknown && 0 <= r
  {
    assert Denotes(n, es[0]);
    LastSlotIn(n);
    SlotsUsed(s'.nodes, n);
  }

  // ----- parameters -----

  /** A parameter list on the input, and what follows it. */
  datatype ListGoal = NoList | ListGoal(es: seq<Expr>, rest: seq<Token>)

  ghost predicate ListReady(s: PState, g: Ctx, goal: ListGoal) {
    && goal.ListGoal? && goal.es != [] && s.rest == PrintArgs(goal.es, g.names) + goal.rest
    && goal.rest != [] && goal.rest[0] == RightParen
    && AllReady(goal.es, g) && Clean(s.nodes) && Sizes(goal.es) <= Free(s.nodes)
  }

  /** What follows the first `i` parameters. */
  function Following(g: Ctx, goal: ListGoal, i: int): seq<Token>
    requires goal.ListGoal? && 0 <= i <= |goal.es|
  {
    (if i < |goal.es| then [Comma] + PrintArgs(goal.es[i..], g.names) else []) + goal.rest
  }

  lemma FirstParam(s: PState, g: Ctx, goal: ListGoal)
    requires ListReady(s, g, goal)
    ensures goal.ListGoal? && goal.es != [] && Ready(s, g, Goal(goal.es[0], Following(g, goal, 1)), 0)
  {
    PrintArgsStep(g, goal, 0);
    assert goal.es[0..] == goal.es;
    SizesParts(goal.es, 0);
  }

  lemma {:induction false} SizesParts(es: seq<Expr>, i: int)
    requires 0 <= i < |es|
    ensures Sizes(es[..i]) + Size(es[i]) <= Sizes(es)
  {
    if i == 0 {
      assert es[..0] == [];
    } else {
      assert es[..i][1..] == es[1..][..i - 1];
      SizesParts(es[1..], i - 1);
    }
  }

  lemma PrintArgsStep(g: Ctx, goal: ListGoal, i: int)
    requires goal.ListGoal? && 0 <= i < |goal.es| && goal.rest != [] && goal.rest[0] == RightParen
    ensures PrintArgs(goal.es[i..], g.names) + goal.rest == Print(goal.es[i], g.names) + Following(g, goal, i + 1)
    ensures Following(g, goal, i + 1) != [] && Following(g, goal, i + 1)[0] == if i + 1 < |goal.es| then Comma else RightParen
  {
    assert goal.es[i..][1..] == goal.es[i + 1..];
  }

  /** The first `i` parameters are built, and `t` has just been read. */
  ghost predicate InList(s0: PState, s: PState, t: Token, g: Ctx, goal: ListGoal, i: int, r: int, n: Node) {
    && ListReady(s0, g, goal) && 1 <= i <= |goal.es| && [t] + s.rest == Following(g, goal, i)
    && GrewAll(s0, s, goal.es[..i], r, n)
  }

  lemma ListStart(s0: PState, s1: PState, t: Token, s2: PState, g: Ctx, goal: ListGoal, r: int, n: Node)
    requires ListReady(s0, g, goal) && Built(s0, s1, Goal(goal.es[0], Following(g, goal, 1)), r, n) && Shifted(s1, t, s2)
    ensures InList(s0, s2, t, g, goal, 1, r, n) && LastSlot(n) == r
  {
    PrintArgsStep(g, goal, 0);
    GrewFirst(s0, s1, goal.es[0], r, n);
    assert goal.es[..1] == [goal.es[0]];
  }

  lemma ListNext(s0: PState, s: PState, t: Token, g: Ctx, goal: ListGoal, i: int, r: int, n: Node)
    requires InList(s0, s, t, g, goal, i, r, n)
    ensures t == Comma <==> i < |goal.es|
    ensures t == Comma ==> Ready(s, g, Goal(goal.es[i], Following(g, goal, i + 1)), 0)
    ensures t != Comma ==> GrewAll(s0, s.(rest := [t] + s.rest), goal.es, r, n) && [t] + s.rest == goal.rest
  {
    hide Print, PrintArgs, Printable, Named;
    if i < |goal.es| {
      var more := PrintArgs(goal.es[i..], g.names) + goal.rest;
      assert Following(g, goal, i) == [Comma] + more;
      SameHead(t, s.rest, Comma, more);
      PrintArgsStep(g, goal, i);
      SizesParts(goal.es, i);
    } else {
      assert Following(g, goal, i) == goal.rest && goal.es[..i] == goal.es;
      assert ([t] + s.rest)[0] == t;
    }
  }

  lemma ListAppend(s0: PState, s: PState, t: Token, g: Ctx, goal: ListGoal, i: int, r: int, n: Node,
                   s1: PState, r2: int, m: Node, s2: PState, t': Token, s3: PState)
    requires InList(s0, s, t, g, goal, i, r, n) && i < |goal.es|
    requires Built(s, s1, Goal(goal.es[i], Following(g, goal, i + 1)), r2, m)
    requires 0 <= LastSlot(n) < |s1.nodes| && s2 == Followed(s1, 0, LastSlot(n), r2)
    requires Shifted(s2, t', s3)
    ensures InList(s0, s3, t', g, goal, i + 1, r, Append(n, m)) && LastSlot(Append(n, m)) == r2
  {
    hide Following, Grew, GrewAll, Print, PrintArgs, Printable, Named;
    PrintArgsStep(g, goal, i);
    GrewUsed(s, s1, goal.es[i], r2, m);
    GrewNext(s0, s, goal.es[..i], r, n, s1, goal.es[i], r2, m, s2);
    assert goal.es[..i + 1] == goal.es[..i] + [goal.es[i]];
    GrewAllRest(s0, s2, s3, goal.es[..i + 1], r, Append(n, m));
  }

  // ----- postfix chains -----

  /** Between two suffixes: `done` is built, `todo` is still on the input, and `t` has just been read. */
  ghost predicate InPostfix(s0: PState, s: PState, t: Token, g: Ctx, goal: Goal, done: Expr, todo: seq<Suffix>, r: int, n: Node) {
    && goal.Goal? && [t] + s.rest == PrintSuffixes(todo, g.names) + goal.rest && goal.rest != [] && TokenLevel(goal.rest[0]) < 8
    && SuffixFold(done, todo) == goal.e && SuffixesReady(done, todo, g.names, g.symbols)
    && Size(done) + SuffixesSize(todo) <= Free(s0.nodes) && Grew(s0, s, done, r, n)
  }

  lemma PostfixStart(s0: PState, s1: PState, t: Token, s2: PState, g: Ctx, goal: Goal, r: int, n: Node)
    requires Ready(s0, g, goal, 8)
    requires s1.rest == PrintSuffixes(Suffixes(goal.e), g.names) + goal.rest && Grew(s0, s1, Primary(goal.e), r, n)
    requires Shifted(s1, t, s2)
    ensures goal.Goal? && InPostfix(s0, s2, t, g, goal, Primary(goal.e), Suffixes(goal.e), r, n)
  {
    PostfixSpine(goal.e, g.names, g.symbols);
    PutBack(s1, t, s2);
  }

  /** The token just read tells the next suffix. */
  lemma SuffixTokens(t: Token, tail: seq<Token>, xs: seq<Suffix>, rest: seq<Token>, names: Names)
    requires [t] + tail == PrintSuffixes(xs, names) + rest && rest != [] && TokenLevel(rest[0]) < 8
    ensures TokenLevel(t) == 8 <==> xs != []
    ensures xs == [] ==> [t] + tail == rest
    ensures xs != [] && xs[0].Bump? ==> t == (if xs[0].op == Add then Increment else Decrement) && tail == PrintSuffixes(xs[1..], names) + rest
    ensures xs != [] && xs[0].Params? ==> t == LeftParen && tail == PrintArgs(xs[0].args, names) + Closing(xs[1..], rest, names)
  {
    if xs == [] {
      assert PrintSuffixes(xs, names) + rest == rest;
      assert rest[0] == t;
    } else {
      var more := PrintSuffixes(xs[1..], names);
      if xs[0].Params? {
        Regroup(PrintArgs(xs[0].args, names), more, rest);
        SameHead(t, tail, LeftParen, PrintArgs(xs[0].args, names) + Closing(xs[1..], rest, names));
      } else {
        var u := if xs[0].op == Add then Increment else Decrement;
        LeafShifted([u], more, rest);
        assert ([t] + tail)[0] == t && ([t] + tail)[1..] == tail;
      }
    }
  }

  lemma Regroup(a: seq<Token>, more: seq<Token>, rest: seq<Token>)
    ensures ([LeftParen] + a + [RightParen]) + more + rest == [LeftParen] + (a + ([RightParen] + (more + rest)))
  {
  }

  lemma SameHead(t: Token, tail: seq<Token>, u: Token, v: seq<Token>)
    requires [t] + tail == [u] + v
    ensures t == u && tail == v
  {
    assert ([t] + tail)[0] == t && ([t] + tail)[1..] == tail && ([u] + v)[1..] == v;
  }

  /** What follows the parameters of a call. */
  function Closing(xs: seq<Suffix>, rest: seq<Token>, names: Names): seq<Token> {
    [RightParen] + (PrintSuffixes(xs, names) + rest)
  }

  lemma PostfixEnd(s0: PState, s: PState, t: Token, g: Ctx, goal: Goal, done: Expr, todo: seq<Suffix>, r: int, n: Node)
    requires InPostfix(s0, s, t, g, goal, done, todo, r, n) && TokenLevel(t) != 8
    ensures Built(s0, s.(rest := [t] + s.rest), goal, r, n)
  {
    SuffixTokens(t, s.rest, todo, goal.rest, g.names);
  }

  /** A suffix was added to the tree and the next token read. */
  lemma PostfixStep(s0: PState, s: PState, t: Token, g: Ctx, goal: Goal, done: Expr, todo: seq<Suffix>, r: int, n: Node,
                    s1: PState, r': int, n': Node, t': Token, s2: PState)
    requires InPostfix(s0, s, t, g, goal, done, todo, r, n) && todo != []
    requires Grew(s0, s1, Suffixed(done, todo[0]), r', n') && s1.rest == PrintSuffixes(todo[1..], g.names) + goal.rest
    requires Shifted(s1, t', s2)
    ensures InPostfix(s0, s2, t', g, goal, Suffixed(done, todo[0]), todo[1..], r', n')
  {
    PutBack(s1, t', s2);
    SuffixedSize(done, todo[0], g);
    assert SuffixesReady(Suffixed(done, todo[0]), todo[1..], g.names, g.symbols);
  }

  lemma SuffixedSize(e: Expr, x: Suffix, g: Ctx)
    requires SuffixReady(e, x, g.names, g.symbols)
    ensures Size(Suffixed(e, x)) == Size(e) + SuffixSize(x)
  {
  }

  /** The expression so far is in use, and there is an entry left for the next suffix. */
  lemma PostfixRoom(s0: PState, s: PState, t: Token, g: Ctx, goal: Goal, done: Expr, todo: seq<Suffix>, r: int, n: Node)
    requires InPostfix(s0, s, t, g, goal, done, todo, r, n) && TokenLevel(t) == 8
    ensures todo != [] && 0 <= r < |s.nodes| && s.nodes[r].kind != Unknown && Clean(s.nodes) && SuffixSize(todo[0]) <= Free(s.nodes)
    ensures t == Increment ==> todo[0] == Bump(Add) && s.rest == PrintSuffixes(todo[1..], g.names) + goal.rest
    ensures t == Decrement ==> todo[0] == Bump(Sub) && s.rest == PrintSuffixes(todo[1..], g.names) + goal.rest
    ensures t == LeftParen ==> todo[0].Params?
  {
    GrewUsed(s0, s, done, r, n);
    SuffixTokens(t, s.rest, todo, goal.rest, g.names);
    assert SuffixReady(done, todo[0], g.names, g.symbols);
  }

  /** After the parameters, the function is still in use, and there is an entry left for the call. */
  lemma CallRoom(s0: PState, s: PState, f: Expr, r: int, n: Node, s1: PState, args: seq<Expr>, r2: int, n2: Node)
    requires Grew(s0, s, f, r, n) && GrewAll(s, s1, args, r2, n2) && 1 + Sizes(args) <= Free(s.nodes)
    ensures n.Node? && r == Ref(n) && r2 == Ref(n2) && 0 <= r < |s1.nodes| && s1.nodes[r].kind != Unknown
    ensures Clean(s1.nodes) && 0 < Free(s1.nodes)
  {
    GrewUsed(s0, s, f, r, n);
  }

  /** `++` or `--` behind a variable. */
  lemma BumpDone(s0: PState, s: PState, t: Token, g: Ctx, goal: Goal, done: Expr, todo: seq<Suffix>, r: int, n: Node, s1: PState, r': int)
    requires InPostfix(s0, s, t, g, goal, done, todo, r, n) && todo != [] && todo[0].Bump?
    requires Made(s, s1, PostStep(todo[0].op), n, Nil, r')
    ensures Grew(s0, s1, Suffixed(done, todo[0]), r', Joined(r', PostStep(todo[0].op), n, Nil))
  {
    JoinOne(s0, s, s1, done, Suffixed(done, todo[0]), r, n, PostStep(todo[0].op), r');
  }

  /** The parameters are next on the input: none, or a list. */
  lemma ParamsReady(s0: PState, s: PState, t: Token, g: Ctx, goal: Goal, done: Expr, todo: seq<Suffix>, r: int, n: Node, t1: Token, s1: PState)
    requires InPostfix(s0, s, t, g, goal, done, todo, r, n) && t == LeftParen && Shifted(s, t1, s1)
    ensures goal.Goal? && todo != [] && todo[0].Params? && (t1 == RightParen <==> todo[0].args == [])
    ensures t1 == RightParen ==> s1.rest == PrintSuffixes(todo[1..], g.names) + goal.rest
    ensures t1 != RightParen ==> s1.(rest := [t1] + s1.rest) == s
    ensures t1 != RightParen ==> ListReady(s, g, ListGoal(todo[0].args, Closing(todo[1..], goal.rest, g.names)))
    ensures Closing(todo[1..], goal.rest, g.names)[0] == RightParen && Closing(todo[1..], goal.rest, g.names)[1..] == PrintSuffixes(todo[1..], g.names) + goal.rest
    ensures Grew(s0, s, done, r, n) && 1 + Sizes(todo[0].args) <= Free(s.nodes) && Suffixed(done, todo[0]) == Apply(done, todo[0].args)
    ensures s1.nodes == s.nodes && s1.error == s.error
  {
    PostfixRoom(s0, s, t, g, goal, done, todo, r, n);
    SuffixTokens(t, s.rest, todo, goal.rest, g.names);
    assert todo[0].Params?;
    var args, after := todo[0].args, Closing(todo[1..], goal.rest, g.names);
    ParamsFirst(args, after, g.names, s.rest);
    PutBack(s, t1, s1);
    assert SuffixReady(done, todo[0], g.names, g.symbols);
    assert SuffixesSize(todo) == SuffixSize(todo[0]) + SuffixesSize(todo[1..]);
  }

  lemma ParamsFirst(args: seq<Expr>, after: seq<Token>, names: Names, tokens: seq<Token>)
    requires tokens == PrintArgs(args, names) + after && after != [] && after[0] == RightParen
    requires forall i :: 0 <= i < |args| ==> Printable(args[i])
    ensures tokens != [] && (tokens[0] == RightParen <==> args == [])
    ensures args == [] ==> tokens[1..] == after[1..]
  {
    hide Print, PrintArgs, Printable;
    NoArgs(names);
    HeadOf(PrintArgs(args, names), after, tokens);
    if args != [] {
      FirstToken(args[0], names);
      ArgsHead(args, names);
    }
  }

  lemma HeadOf(a: seq<Token>, b: seq<Token>, all: seq<Token>)
    requires all == a + b && b != []
    ensures all != [] && all[0] == (if a == [] then b[0] else a[0]) && (a == [] ==> all == b)
  {
  }

  lemma NoArgs(names: Names)
    ensures PrintArgs([], names) == []
  {
  }

  /** Parameters start like the first one. */
  lemma ArgsHead(args: seq<Expr>, names: Names)
    requires args != [] && Print(args[0], names) != []
    ensures PrintArgs(args, names) != [] && PrintArgs(args, names)[0] == Print(args[0], names)[0]
  {
  }

  /** A call with parameters. */
  lemma CallDone(s0: PState, s: PState, f: Expr, r: int, n: Node, s1: PState, args: seq<Expr>, r2: int, n2: Node, s2: PState, s3: PState, r': int)
    requires Grew(s0, s, f, r, n) && GrewAll(s, s1, args, r2, n2) && s2 == s1.(rest := s2.rest) && Made(s2, s3, Func, n, n2, r')
    ensures Grew(s0, s3, Apply(f, args), r', Joined(r', Func, n, n2))
  {
    PlantedApart(s0.nodes, s.nodes, s1.nodes, n, n2);
    PlantedGrown(s0.nodes, s.nodes, s1.nodes, n, Sizes(args));
    PlantedEarlier(s0.nodes, s.nodes, s1.nodes, n2, Size(f));
    GrownTwice(s0.nodes, s.nodes, s1.nodes, Size(f), Sizes(args));
    Join(s0.nodes, s1.nodes, r', Func, n, n2, Size(f) + Sizes(args));
    CallDenotes(r', f, n, args, n2);
  }

  lemma CallDenotes(r: int, f: Expr, n: Node, args: seq<Expr>, n2: Node)
    requires n.Node? && n.sibling == Nil && Denotes(n, f) && DenotesAll(n2, args)
    ensures Denotes(Joined(r, Func, n, n2), Apply(f, args))
  {
    assert Denotes(n.(sibling := n2), f);
  }

  // ----- primaries -----

  /** The token of a leaf expression. */
  ghost predicate LeafToken(e: Expr, t: Token, s: Symbols) {
    match e
    case Const(w) => t == Number(w)
    case Var(a) => t.Identifier? && Lookup(s, t.name) == Some(VarSymbol(a))
    case SysVar(a) => t.Identifier? && Lookup(s, t.name) == Some(SysVarSymbol(a))
    case Syscall(f) => t.Identifier? && Lookup(s, t.name) == Some(SyscallSymbol(f))
    case _ => false
  }

  lemma LeafPrints(e: Expr, names: Names, s: Symbols)
    requires Level(e) == 9 && Named(e, names, s)
    ensures |Print(e, names)| == 1 && LeafToken(e, Print(e, names)[0], s) && Size(e) == 1
  {
  }

  lemma PrimaryReady(s: PState, g: Ctx, goal: Goal, t: Token, s1: PState)
    requires Ready(s, g, goal, 8) && Shifted(s, t, s1)
    ensures goal.Goal? && s1.rest == PrintSuffixes(Suffixes(goal.e), g.names) + goal.rest && Clean(s1.nodes) && 0 < Free(s1.nodes)
    ensures LeafToken(Primary(goal.e), t, g.symbols)
  {
    var p := Primary(goal.e);
    PostfixSpine(goal.e, g.names, g.symbols);
    LeafPrints(p, g.names, g.symbols);
    LeafShifted(Print(p, g.names), PrintSuffixes(Suffixes(goal.e), g.names), goal.rest);
  }

  lemma LeafShifted(p: seq<Token>, more: seq<Token>, rest: seq<Token>)
    requires |p| == 1
    ensures (p + more + rest)[0] == p[0] && (p + more + rest)[1..] == more + rest
  {
  }

  /** The kind of a leaf expression's node. */
  function LeafKind(e: Expr): Kind {
    match e
    case Const(w) => Value(w)
    case Var(a) => Id(VarSymbol(a))
    case SysVar(a) => Id(SysVarSymbol(a))
    case Syscall(f) => Id(SyscallSymbol(f))
    case _ => Unknown
  }

  /** Is there a free entry? */
  ghost predicate HasRoom(s: PState) {
    Clean(s.nodes) && 0 < Free(s.nodes)
  }

  /** A node without children was planted. */
  ghost predicate LeafMade(s: PState, s': PState, kind: Kind, r: int, n: Node) {
    && n == Node(r, kind, VOID, false, Nil, Nil) && 0 <= r && s'.error == s.error
    && Planted(s.nodes, s'.nodes, n) && Grown(s.nodes, s'.nodes, 1)
  }

  lemma LeafGrew(s: PState, s': PState, e: Expr, r: int, n: Node)
    requires LeafKind(e) != Unknown && LeafMade(s, s', LeafKind(e), r, n)
    ensures Grew(s, s', e, r, n)
  {
  }

  /** The token of a leaf tells the kind of its node. */
  lemma LeafTokenKind(e: Expr, t: Token, s: Symbols)
    requires LeafToken(e, t, s)
    ensures t.Identifier? || t.Number?
    ensures t.Number? ==> LeafKind(e) == Value(t.w)
    ensures t.Identifier? ==> Lookup(s, t.name).Some? && LeafKind(e) == Id(Lookup(s, t.name).value)
  {
  }

  /** The operand built, there is an entry left for the operator above it. */
  lemma UnaryRoom(s: PState, g: Ctx, goal: Goal, t: Token, s1: PState, s2: PState, r1: int, n1: Node)
    requires Ready(s, g, goal, 7) && Level(goal.e) == 7 && Shifted(s, t, s1)
    requires Built(s1, s2, Goal(PrefixOperand(goal.e), goal.rest), r1, n1)
    ensures 0 <= r1 < |s2.nodes| && s2.nodes[r1].kind != Unknown && Clean(s2.nodes) && 0 < Free(s2.nodes)
  {
    GrewUsed(s1, s2, PrefixOperand(goal.e), r1, n1);
  }

  lemma AssignRoom(s: PState, goal: Goal, s1: PState, r1: int, n1: Node, s2: PState, s3: PState, r2: int, n2: Node)
    requires goal.Goal? && goal.e.Assign? && Size(goal.e) <= Free(s.nodes)
    requires Grew(s, s1, goal.e.l, r1, n1) && s2.nodes == s1.nodes && s2.error == s1.error && Grew(s2, s3, goal.e.r, r2, n2)
    ensures 0 <= r1 < |s3.nodes| && s3.nodes[r1].kind != Unknown && Clean(s3.nodes) && 0 < Free(s3.nodes)
  {
    GrewUsed(s, s1, goal.e.l, r1, n1);
    GrewUsed(s2, s3, goal.e.r, r2, n2);
  }

  // ----- statement lists -----

  ghost predicate ProgramReady(s: PState, g: Ctx, es: seq<Expr>) {
    s.rest == PrintProgram(es, g.names) && AllReady(es, g) && Clean(s.nodes) && Sizes(es) <= Free(s.nodes)
  }

  /** The first `i` statements are built, and `t` has just been read. */
  ghost predicate InProgram(s0: PState, s: PState, t: Token, g: Ctx, es: seq<Expr>, i: int, root: int, n: Node, last: int) {
    && ProgramReady(s0, g, es) && 0 <= i <= |es| && [t] + s.rest == PrintProgram(es[i..], g.names)
    && GrewAll(s0, s, es[..i], root, n) && last == LastSlot(n)
  }

  lemma ProgramStart(s0: PState, g: Ctx, es: seq<Expr>, t: Token, s: PState)
    requires ProgramReady(s0, g, es) && Shifted(s0, t, s)
    ensures InProgram(s0, s, t, g, es, 0, NULL, Nil, NULL)
  {
    assert es[0..] == es && es[..0] == [] && PrintProgram(es, g.names) != [];
    assert Slots(Nil) == {};
    PutBack(s0, t, s);
  }

  lemma ProgramNext(s0: PState, s: PState, t: Token, g: Ctx, es: seq<Expr>, i: int, root: int, n: Node, last: int)
    requires InProgram(s0, s, t, g, es, i, root, n, last)
    ensures t == Eof <==> i == |es|
    ensures i == |es| ==> es[..i] == es
    ensures i < |es| ==> !t.Bad? && !t.TypeName? && t != Unsigned
    ensures i < |es| ==> Ready(s.(rest := [t] + s.rest), g, Goal(es[i], [Semicolon] + PrintProgram(es[i + 1..], g.names)), 0)
    ensures root == NULL <==> i == 0
    ensures i > 0 ==> 0 <= last < |s.nodes|
  {
    assert ([t] + s.rest)[0] == t;
    if i < |es| {
      FirstToken(es[i], g.names);
      assert es[i..][0] == es[i] && es[i..][1..] == es[i + 1..];
      SizesParts(es, i);
      assert s.(rest := [t] + s.rest).nodes == s.nodes;
    }
    if i > 0 {
      LastUsed(s0, s, es[..i], root, n);
    } else {
      assert n == Nil;
    }
  }

  /** The first statement of a line. */
  lemma ProgramFirst(s0: PState, s: PState, t: Token, g: Ctx, es: seq<Expr>, s1: PState, r: int, m: Node, t': Token, s2: PState)
    requires InProgram(s0, s, t, g, es, 0, NULL, Nil, NULL) && es != []
    requires Grew(s.(rest := [t] + s.rest), s1, es[0], r, m) && s1.rest == PrintProgram(es[1..], g.names) && Shifted(s1, t', s2)
    ensures InProgram(s0, s2, t', g, es, 1, r, m, r)
  {
    GrewFromStart(s0, s, es[..0], s1, es[0], r, m);
    GrewFirst(s0, s1, es[0], r, m);
    assert es[..1] == [es[0]];
    assert PrintProgram(es[1..], g.names) != [];
    PutBack(s1, t', s2);
  }

  /** Planting nothing first makes no difference. */
  lemma GrewFromStart(s0: PState, s: PState, none: seq<Expr>, s1: PState, e: Expr, r: int, m: Node)
    requires none == [] && GrewAll(s0, s, none, NULL, Nil) && Grew(s, s1, e, r, m)
    ensures Grew(s0, s1, e, r, m)
  {
    assert Sizes(none) == 0;
    PlantedEarlier(s0.nodes, s.nodes, s1.nodes, m, 0);
    GrownTwice(s0.nodes, s.nodes, s1.nodes, 0, Size(e));
  }

  /** `x` is linked behind `last`, if there is a root. */
  ghost function Followed(s: PState, root: int, last: int, x: int): PState {
    if root != NULL && 0 <= last < |s.nodes| then s.(nodes := s.nodes[last := s.nodes[last].(sibling := x)]) else s
  }

  /** A statement was read and linked, and the next token read. */
  lemma ProgramStep(s0: PState, s: PState, t: Token, g: Ctx, es: seq<Expr>, i: int, root: int, n: Node, last: int,
                    s1: PState, r: int, m: Node, s2: PState, t': Token, s3: PState)
    requires InProgram(s0, s, t, g, es, i, root, n, last) && i < |es|
    requires Grew(s.(rest := [t] + s.rest), s1, es[i], r, m) && s1.rest == PrintProgram(es[i + 1..], g.names)
    requires (root == NULL <==> i == 0) && (i > 0 ==> 0 <= last < |s1.nodes|)
    requires s2 == Followed(s1, root, last, r) && Shifted(s2, t', s3)
    ensures InProgram(s0, s3, t', g, es, i + 1, if i == 0 then r else root, Append(n, m), r)
  {
    if i == 0 {
      assert n == Nil;
      ProgramFirst(s0, s, t, g, es, s1, r, m, t', s3);
    } else {
      ProgramAppend(s0, s, t, g, es, i, root, n, last, s1, r, m, s2, t', s3);
    }
  }

  lemma ProgramAppend(s0: PState, s: PState, t: Token, g: Ctx, es: seq<Expr>, i: int, root: int, n: Node, last: int,
                      s1: PState, r: int, m: Node, s2: PState, t': Token, s3: PState)
    requires InProgram(s0, s, t, g, es, i, root, n, last) && 0 < i < |es|
    requires Grew(s.(rest := [t] + s.rest), s1, es[i], r, m) && s1.rest == PrintProgram(es[i + 1..], g.names)
    requires 0 <= last < |s1.nodes| && s2 == s1.(nodes := s1.nodes[last := s1.nodes[last].(sibling := r)]) && Shifted(s2, t', s3)
    ensures InProgram(s0, s3, t', g, es, i + 1, root, Append(n, m), r)
  {
    hide GrewAll, Print;
    GrewNext(s0, s, es[..i], root, n, s1, es[i], r, m, s2);
    assert es[..i + 1] == es[..i] + [es[i]];
    assert PrintProgram(es[i + 1..], g.names) != [];
    PutBack(s2, t', s3);
    GrewAllRest(s0, s2, s3, es[..i + 1], root, Append(n, m));
  }
}
