/** Compiled expressions compute what they mean, within a stack bound read off the tree. */
module FinshCorrectness {
  import opened FinshMachine
  import opened FinshSyntax
  import opened FinshCompiler

  // ----- intended code -----

  /** Pushing a result on a stack. */
  function Push(s: seq<Word>, r: (Word, Memory)): State {
    State(s + [r.0], r.1)
  }

  lemma Exec1(env: Env, i: Instr, s: State)
    ensures Exec(env, [i], s) == ExecInstr(env, i, s)
  {
    assert [i][1..] == [];
  }

  lemma ExecThen(env: Env, a: seq<Instr>, i: Instr, s: State)
    ensures Exec(env, a + [i], s) == ExecInstr(env, i, Exec(env, a, s))
  {
    ExecConcat(env, a, [i], s);
    Exec1(env, i, Exec(env, a, s));
  }

  /** The code pushes `r.0` on `s` and leaves memory `r.1`. */
  ghost predicate Yields(env: Env, code: seq<Instr>, s: seq<Word>, m: Memory, r: (Word, Memory)) {
    Exec(env, code, State(s, m)) == Push(s, r)
  }

  lemma YieldsOne(env: Env, i: Instr, s: seq<Word>, m: Memory, w: Word)
    requires ExecInstr(env, i, State(s, m)) == State(s + [w], m)
    ensures Yields(env, [i], s, m, (w, m))
  {
    Exec1(env, i, State(s, m));
  }

  lemma YieldsThen(env: Env, a: seq<Instr>, i: Instr, s: seq<Word>, m: Memory, r: (Word, Memory))
    requires Yields(env, a, s, m, r) && (i == Not || i == LdStack)
    ensures Yields(env, a + [i], s, m, (if i == Not then env.not(r.0) else Load(r.1, r.0), r.1))
  {
    ExecThen(env, a, i, State(s, m));
    assert (s + [r.0])[..|s|] == s;
  }

  lemma YieldsBin(env: Env, a: seq<Instr>, b: seq<Instr>, op: BinOp, s: seq<Word>, m: Memory, p: (Word, Memory), q: (Word, Memory))
    requires Yields(env, a, s, m, p) && Yields(env, b, s + [p.0], p.1, q)
    ensures Yields(env, a + b + [Bin(op)], s, m, (env.bin(op, p.0, q.0), q.1))
  {
    ExecConcat(env, a, b, State(s, m));
    ExecThen(env, a + b, Bin(op), State(s, m));
    var t := s + [p.0] + [q.0];
    assert t[..|t| - 2] == s;
  }

  lemma YieldsStore(env: Env, a: seq<Instr>, b: seq<Instr>, s: seq<Word>, m: Memory, p: (Word, Memory), q: (Word, Memory))
    requires Yields(env, a, s, m, p) && Yields(env, b, s + [p.0], p.1, q)
    ensures Yields(env, a + b + [St, LdStack], s, m, (q.0, Store(q.1, p.0, q.0)))
  {
    ExecConcat(env, a, b, State(s, m));
    assert a + b + [St, LdStack] == a + b + [St] + [LdStack];
    ExecThen(env, a + b, St, State(s, m));
    ExecThen(env, a + b + [St], LdStack, State(s, m));
    StoreThenLoad(env, s, p.0, q.0, q.1);
  }

  lemma YieldsCall(env: Env, f: seq<Instr>, args: seq<Instr>, s: seq<Word>, m: Memory, p: (Word, Memory), vs: seq<Word>, m2: Memory)
    requires Yields(env, f, s, m, p) && |vs| <= 16 && Exec(env, args, State(s + [p.0], p.1)) == State(s + [p.0] + vs, m2)
    ensures Yields(env, f + args + [Call(|vs|)], s, m, env.call(p.0, Passed(vs), m2))
  {
    ExecConcat(env, f, args, State(s, m));
    ExecThen(env, f + args, Call(|vs|), State(s, m));
    CallComputes(env, s, p.0, vs, m2);
  }

  /** Running an expression's code pushes its value and leaves its memory effects, whatever is on the stack. */
  lemma {:induction false} CodeComputes(env: Env, e: Expr, s: seq<Word>, m: Memory)
    requires WellFormed(e)
    ensures Yields(env, ExprCode(e, false), s, m, Eval(env, e, m))
    decreases e, 1
  {
    match e
    case Const(w) => YieldsOne(env, Ld(w), s, m, w);
    case Var(a) => YieldsOne(env, LdValue(a), s, m, Load(m, a));
    case SysVar(a) => YieldsOne(env, LdValue(a), s, m, Load(m, a));
    case Syscall(f) => YieldsOne(env, Ld(f), s, m, f);
    case Binary(op, l, r) =>
      var p := Eval(env, l, m);
      CodeComputes(env, l, s, m);
      CodeComputes(env, r, s + [p.0], p.1);
      YieldsBin(env, ExprCode(l, false), ExprCode(r, false), op, s, m, p, Eval(env, r, p.1));
    case Complement(x) =>
      CodeComputes(env, x, s, m);
      YieldsThen(env, ExprCode(x, false), Not, s, m, Eval(env, x, m));
    case Deref(x) =>
      CodeComputes(env, x, s, m);
      YieldsThen(env, ExprCode(x, false), LdStack, s, m, Eval(env, x, m));
    case AddrOf(x) =>
      AddrComputes(env, x, s, m);
    case Assign(l, r) =>
      var p := EvalAddr(env, l, m);
      AddrComputes(env, l, s, m);
      CodeComputes(env, r, s + [p.0], p.1);
      YieldsStore(env, AddrCode(l, false), ExprCode(r, false), s, m, p, Eval(env, r, p.1));
    case Step(prefix, op, a) =>
      StepComputes(env, prefix, op, a, s, m);
    case Apply(f, args) =>
      var p := Eval(env, f, m);
      var q := EvalArgs(env, args, p.1);
      assert |args| % 256 == |args|;
      CodeComputes(env, f, s, m);
      ArgsCompute(env, args, s + [p.0], p.1);
      YieldsCall(env, ExprCode(f, false), ArgsCode(args, false), s, m, p, q.0, q.1);
  }

  lemma StoreThenLoad(env: Env, s: seq<Word>, a: Word, v: Word, m: Memory)
    ensures ExecInstr(env, LdStack, ExecInstr(env, St, State(s + [a] + [v], m))) == State(s + [v], Store(m, a, v))
  {
    LoadStored(m, a, v);
    var t := s + [a] + [v];
    assert t[..|t| - 1] == s + [a];
    assert (s + [a])[..|s|] == s;
  }

  lemma CallComputes(env: Env, s: seq<Word>, a: Word, vs: seq<Word>, m: Memory)
    requires |vs| <= 16
    ensures ExecInstr(env, Call(|vs|), State(s + [a] + vs, m)) == Push(s, env.call(a, Passed(vs), m))
  {
    var t := s + [a] + vs;
    assert t[|t| - |vs|..] == vs && t[..|t| - |vs| - 1] == s && t[|t| - |vs| - 1] == a;
  }

  lemma {:induction false} AddrComputes(env: Env, e: Expr, s: seq<Word>, m: Memory)
    requires WellFormed(e) && (LValue(e) || e.Syscall?)
    ensures Yields(env, AddrCode(e, false), s, m, EvalAddr(env, e, m))
    decreases e, 0
  {
    match e
    case Var(a) => YieldsOne(env, Ld(a), s, m, a);
    case SysVar(a) => YieldsOne(env, Ld(a), s, m, a);
    case Syscall(f) => YieldsOne(env, Ld(f), s, m, f);
    case Deref(x) => CodeComputes(env, x, s, m);
  }

  lemma PushFront(s: seq<Word>, v: Word, vs: seq<Word>)
    ensures s + [v] + vs == s + ([v] + vs)
  {
  }

  lemma {:induction false} ArgsCompute(env: Env, es: seq<Expr>, s: seq<Word>, m: Memory)
    requires forall i :: 0 <= i < |es| ==> WellFormed(es[i])
    ensures Exec(env, ArgsCode(es, false), State(s, m)) == State(s + EvalArgs(env, es, m).0, EvalArgs(env, es, m).1)
    decreases es, 0
  {
    if es == [] {
      assert s + [] == s;
    } else {
      var p := Eval(env, es[0], m);
      CodeComputes(env, es[0], s, m);
      ArgsCompute(env, es[1..], s + [p.0], p.1);
      ExecConcat(env, ExprCode(es[0], false), ArgsCode(es[1..], false), State(s, m));
      PushFront(s, p.0, EvalArgs(env, es[1..], p.1).0);
    }
  }

  /** `x++` and its kin load, change and store the variable. */
  lemma StepComputes(env: Env, prefix: bool, op: BinOp, a: Word, s: seq<Word>, m: Memory)
    ensures Exec(env, ExprCode(Step(prefix, op, a), false), State(s, m)) == Push(s, Eval(env, Step(prefix, op, a), m))
  {
    var was := Load(m, a);
    var now := env.bin(op, was, 1);
    var core := [Ld(a), LdValue(a), Ld(1), Bin(op), St];
    if prefix {
      assert ExprCode(Step(prefix, op, a), false) == core + [LdStack];
      ExecThen(env, core, LdStack, State(s, m));
      BumpComputes(env, op, a, s, m);
      LoadStored(m, a, now);
      assert (s + [a])[..|s|] == s;
    } else {
      assert ExprCode(Step(prefix, op, a), false) == [LdValue(a)] + (core + [Pop]);
      ExecConcat(env, [LdValue(a)], core + [Pop], State(s, m));
      Exec1(env, LdValue(a), State(s, m));
      ExecThen(env, core, Pop, State(s + [was], m));
      BumpComputes(env, op, a, s + [was], m);
      assert (s + [was] + [a])[..|s| + 1] == s + [was];
    }
  }

  lemma BumpComputes(env: Env, op: BinOp, a: Word, s: seq<Word>, m: Memory)
    ensures Exec(env, [Ld(a), LdValue(a), Ld(1), Bin(op), St], State(s, m)) ==
            State(s + [a], Store(m, a, env.bin(op, Load(m, a), 1)))
  {
    var c := [Ld(a)] + [LdValue(a)] + [Ld(1)];
    assert [Ld(a), LdValue(a), Ld(1), Bin(op), St] == c + [Bin(op)] + [St];
    BumpLoads(env, a, s, m);
    ExecThen(env, c, Bin(op), State(s, m));
    ExecThen(env, c + [Bin(op)], St, State(s, m));
    BumpStores(env, op, a, Load(m, a), s, m);
  }

  lemma BumpLoads(env: Env, a: Word, s: seq<Word>, m: Memory)
    ensures Exec(env, [Ld(a)] + [LdValue(a)] + [Ld(1)], State(s, m)) == State(s + [a] + [Load(m, a)] + [1], m)
  {
    Exec1(env, Ld(a), State(s, m));
    ExecThen(env, [Ld(a)], LdValue(a), State(s, m));
    ExecThen(env, [Ld(a)] + [LdValue(a)], Ld(1), State(s, m));
  }

  lemma BumpStores(env: Env, op: BinOp, a: Word, was: Word, s: seq<Word>, m: Memory)
    ensures ExecInstr(env, St, ExecInstr(env, Bin(op), State(s + [a] + [was] + [1], m))) ==
            State(s + [a], Store(m, a, env.bin(op, was, 1)))
  {
    var t := s + [a] + [was] + [1];
    assert t[..|t| - 2] == s + [a];
    var u := s + [a] + [env.bin(op, was, 1)];
    assert u[..|u| - 1] == s + [a];
  }

  // ----- when the compiler emits the intended code -----

  /** No operator, dereference or assignment has a system call as its leftmost leaf. */
  predicate Typed(e: Expr)
    decreases e, 1
  {
    match e
    case Const(_) => true
    case Var(_) => true
    case SysVar(_) => true
    case Syscall(_) => true
    case Binary(_, l, r) => DataType(l) == DWORD && Typed(l) && Typed(r)
    case Complement(x) => DataType(x) == DWORD && Typed(x)
    case Deref(x) => DataType(x) == DWORD && Typed(x)
    case AddrOf(x) => TypedAddr(x)
    case Assign(l, r) => DataType(l) == DWORD && TypedAddr(l) && Typed(r)
    case Step(_, _, _) => true
    case Apply(f, args) => Typed(f) && forall i :: 0 <= i < |args| ==> Typed(args[i])
  }

  predicate TypedAddr(e: Expr)
    decreases e, 0
  {
    e.Deref? ==> Typed(e.e)
  }

  /** The type pass drops no instruction exactly when the expression is typed. */
  lemma {:induction false} StrictIffTyped(e: Expr)
    ensures |ExprCode(e, true)| <= |ExprCode(e, false)|
    ensures ExprCode(e, true) == ExprCode(e, false) <==> Typed(e)
    ensures |ExprCode(e, true)| == |ExprCode(e, false)| <==> Typed(e)
    decreases e, 1
  {
    match e
    case Const(_) =>
    case Var(_) =>
    case SysVar(_) =>
    case Syscall(_) =>
    case Binary(_, l, r) => StrictIffTyped(l); StrictIffTyped(r);
    case Complement(x) => StrictIffTyped(x);
    case Deref(x) => StrictIffTyped(x);
    case AddrOf(x) => StrictAddr(x);
    case Assign(l, r) => StrictAddr(l); StrictIffTyped(r);
    case Step(_, _, _) =>
    case Apply(f, args) => StrictIffTyped(f); StrictArgs(args);
  }

  lemma {:induction false} StrictAddr(e: Expr)
    ensures |AddrCode(e, true)| <= |AddrCode(e, false)|
    ensures AddrCode(e, true) == AddrCode(e, false) <==> TypedAddr(e)
    ensures |AddrCode(e, true)| == |AddrCode(e, false)| <==> TypedAddr(e)
    decreases e, 0
  {
    if e.Deref? { StrictIffTyped(e.e); }
  }

  lemma {:induction false} StrictArgs(es: seq<Expr>)
    ensures |ArgsCode(es, true)| <= |ArgsCode(es, false)|
    ensures ArgsCode(es, true) == ArgsCode(es, false) <==> forall i :: 0 <= i < |es| ==> Typed(es[i])
    ensures |ArgsCode(es, true)| == |ArgsCode(es, false)| <==> forall i :: 0 <= i < |es| ==> Typed(es[i])
    decreases es, 0
  {
    if es != [] {
      StrictIffTyped(es[0]);
      StrictArgs(es[1..]);
      assert (forall i :: 0 <= i < |es| ==> Typed(es[i])) <==> Typed(es[0]) && forall i :: 0 <= i < |es[1..]| ==> Typed(es[1..][i]) by {
        assert forall i :: 0 < i < |es| ==> es[i] == es[1..][i - 1];
      }
    }
  }

  /** Compiler correctness: the type pass and the code generator turn the tree of an expression into code that
      pushes its value and leaves its effects. */
  lemma CompilerCorrect(env: Env, n: Node, e: Expr, s: seq<Word>, m: Memory)
    requires Denotes(n, e) && n.sibling == Nil && WellFormed(e) && Typed(e)
    ensures Exec(env, Code(Check(n, false)), State(s, m)) == Push(s, Eval(env, e, m))
  {
    CheckedCode(n, e);
    StrictIffTyped(e);
    CodeComputes(env, e, s, m);
    assert ExprCode(e, true) + [] == ExprCode(e, true);
  }

  /** In address position the code pushes the address instead. */
  lemma CompilerCorrectAddr(env: Env, n: Node, e: Expr, s: seq<Word>, m: Memory)
    requires Denotes(n, e) && n.sibling == Nil && WellFormed(e) && (LValue(e) || e.Syscall?) && TypedAddr(e)
    ensures Exec(env, Code(Check(n, true)), State(s, m)) == Push(s, EvalAddr(env, e, m))
  {
    CheckedAddr(n, e);
    StrictAddr(e);
    AddrComputes(env, e, s, m);
    assert AddrCode(e, true) + [] == AddrCode(e, true);
  }

  // ----- what happens otherwise -----

  /** How many binary operators and assignments are left without an instruction. */
  function Leaks(e: Expr): nat
    decreases e, 1
  {
    match e
    case Binary(_, l, r) => Leaks(l) + Leaks(r) + (if DataType(l) == DWORD then 0 else 1)
    case Complement(x) => Leaks(x)
    case Deref(x) => Leaks(x)
    case AddrOf(x) => LeaksAddr(x)
    case Assign(l, r) => LeaksAddr(l) + Leaks(r) + (if DataType(l) == DWORD then 0 else 1)
    case Apply(f, args) => Leaks(f) + LeaksAll(args)
    case _ => 0
  }

  function LeaksAddr(e: Expr): nat
    decreases e, 0
  {
    if e.Deref? then Leaks(e.e) else 0
  }

  function LeaksAll(es: seq<Expr>): nat
    decreases es, 0
  {
    if es == [] then 0 else Leaks(es[0]) + LeaksAll(es[1..])
  }

  /** Every leak is a node of its own. */
  lemma {:induction false} LeaksBounded(e: Expr)
    ensures Leaks(e) + 1 <= Size(e) && LeaksAddr(e) + 1 <= Size(e)
    decreases e, 1
  {
    match e
    case Binary(_, l, r) => LeaksBounded(l); LeaksBounded(r);
    case Complement(x) => LeaksBounded(x);
    case Deref(x) => LeaksBounded(x);
    case AddrOf(x) => LeaksBounded(x);
    case Assign(l, r) => LeaksBounded(l); LeaksBounded(r);
    case Apply(f, args) => LeaksBounded(f); LeaksAllBounded(args);
    case _ =>
  }

  lemma {:induction false} LeaksAllBounded(es: seq<Expr>)
    ensures LeaksAll(es) + |es| <= Sizes(es)
    decreases es, 0
  {
    if es != [] {
      LeaksBounded(es[0]);
      LeaksAllBounded(es[1..]);
    }
  }

  lemma {:induction false} LeaksTyped(e: Expr)
    requires Typed(e)
    ensures Leaks(e) == 0
    decreases e, 1
  {
    match e
    case Binary(_, l, r) => LeaksTyped(l); LeaksTyped(r);
    case Complement(x) => LeaksTyped(x);
    case Deref(x) => LeaksTyped(x);
    case AddrOf(x) => if x.Deref? { LeaksTyped(x.e); }
    case Assign(l, r) => LeaksTyped(r); if l.Deref? { LeaksTyped(l.e); }
    case Apply(f, args) => LeaksTyped(f); LeaksAllTyped(args);
    case _ =>
  }

  lemma {:induction false} LeaksAllTyped(es: seq<Expr>)
    requires forall i :: 0 <= i < |es| ==> Typed(es[i])
    ensures LeaksAll(es) == 0
    decreases es, 0
  {
    if es != [] {
      LeaksTyped(es[0]);
      LeaksAllTyped(es[1..]);
    }
  }

  /** The stack grows by one value, and by one more for each binary operator or assignment that has lost its instruction. */
  lemma LeakedSlots(env: Env, n: Node, e: Expr, s: seq<Word>, m: Memory)
    requires Denotes(n, e) && n.sibling == Nil && WellFormed(e)
    ensures |Exec(env, Code(Check(n, false)), State(s, m)).stack| == |s| + 1 + Leaks(e)
  {
    CheckedCode(n, e);
    assert ExprCode(e, true) + [] == ExprCode(e, true);
    CodeFits(e, true, |s|, |s| + Size(e) + 2);
    ExecHeight(env, ExprCode(e, true), State(s, m), |s| + Size(e) + 2);
  }

  /** An expression that leaks is never computed correctly, whatever the operators, calls, stack and memory. */
  lemma LeaksSpoil(env: Env, n: Node, e: Expr, s: seq<Word>, m: Memory)
    requires Denotes(n, e) && n.sibling == Nil && WellFormed(e) && Leaks(e) > 0
    ensures Exec(env, Code(Check(n, false)), State(s, m)) != Push(s, Eval(env, e, m))
  {
    LeakedSlots(env, n, e, s, m);
  }

  /** A call on the left of `+` is not added to: both operands stay on the stack. */
  lemma CallPlusOne(env: Env, n: Node, f: Word, s: seq<Word>, m: Memory)
    requires Denotes(n, Binary(Add, Apply(Syscall(f), []), Const(1))) && n.sibling == Nil
    ensures Exec(env, Code(Check(n, false)), State(s, m)) == var (r, m1) := env.call(f, [0], m); State(s + [r, 1], m1)
  {
    var call := Apply(Syscall(f), []);
    var e := Binary(Add, call, Const(1));
    CheckedCode(n, e);
    assert ExprCode(Const(1), true) == [Ld(1)] && DataType(call) == VOID;
    assert ExprCode(e, true) == ExprCode(call, true) + [Ld(1)];
    assert ExprCode(call, true) == ExprCode(call, false);
    CodeComputes(env, call, s, m);
    ExecThen(env, ExprCode(call, true), Ld(1), State(s, m));
    assert Code(Check(n, false)) == ExprCode(e, true);
    var r := env.call(f, [0], m);
    assert Eval(env, call, m) == r by {
      assert EvalArgs(env, [], m) == ([], m);
    }
    assert s + [r.0] + [1] == s + [r.0, 1];
  }

  // ----- the stack bound -----

  lemma FitsThen(a: seq<Instr>, i: Instr, d: int, max: int)
    ensures Depth(a + [i], d) == Depth1(i, Depth(a, d))
    ensures Fits(a + [i], d, max) <==> Fits(a, d, max) && Pops(i) <= Depth(a, d) && Depth1(i, Depth(a, d)) <= max
  {
    FitsConcat(a, [i], d, max);
    assert [i][1..] == [];
  }

  /** Code that fits changes the height of the stack as its instructions tell. */
  lemma {:induction false} ExecHeight(env: Env, code: seq<Instr>, s: State, max: int)
    requires Fits(code, |s.stack|, max)
    ensures |Exec(env, code, s).stack| == Depth(code, |s.stack|)
    decreases code
  {
    if code != [] {
      ExecDepth(env, code[0], s);
      ExecHeight(env, code[1..], ExecInstr(env, code[0], s), max);
    }
  }

  /** From depth `d` the code pushes `k` values and stays within `max` slots. */
  ghost predicate PushesMany(code: seq<Instr>, d: int, k: int, max: int) {
    Fits(code, d, max) && Depth(code, d) == d + k
  }

  lemma StepFits(prefix: bool, op: BinOp, a: Word, d: int, max: int)
    requires 0 <= d && d + 4 <= max
    ensures ExprCode(Step(prefix, op, a), true) == ExprCode(Step(prefix, op, a), false)
    ensures PushesMany(ExprCode(Step(prefix, op, a), false), d, 1, max)
  {
    var c := ExprCode(Step(prefix, op, a), false);
    var c0 := if prefix then [] else [LdValue(a)];
    var c1 := c0 + [Ld(a)];
    var c2 := c1 + [LdValue(a)];
    var c3 := c2 + [Ld(1)];
    var c4 := c3 + [Bin(op)];
    var c5 := c4 + [St];
    assert c == c5 + [if prefix then LdStack else Pop];
    FitsThen([], LdValue(a), d, max);
    assert [] + [LdValue(a)] == [LdValue(a)];
    FitsThen(c0, Ld(a), d, max);
    FitsThen(c1, LdValue(a), d, max);
    FitsThen(c2, Ld(1), d, max);
    FitsThen(c3, Bin(op), d, max);
    FitsThen(c4, St, d, max);
    FitsThen(c5, if prefix then LdStack else Pop, d, max);
  }

  lemma OneFits(i: Instr, d: int, max: int)
    requires Pops(i) == 0 && 0 <= d < max && Pushes(i) == 1
    ensures PushesMany([i], d, 1, max)
  {
    FitsThen([], i, d, max);
    assert [] + [i] == [i];
  }

  /** Behind an operand: the instruction, or nothing if it is dropped. */
  lemma ThenFits(a: seq<Instr>, typed: bool, i: Instr, d: int, k: int, max: int)
    requires PushesMany(a, d, k, max) && Pops(i) == 1 && Pushes(i) == 1 && 0 <= d && 1 <= k && d + k <= max
    ensures PushesMany(a + If(typed, [i]), d, k, max)
  {
    FitsThen(a, i, d, max);
    assert a + [] == a;
  }

  /** Behind two operands: the instruction that joins them, or nothing if it is dropped. */
  lemma PairFits(a: seq<Instr>, b: seq<Instr>, typed: bool, i: Instr, d: int, ka: int, kb: int, max: int)
    requires PushesMany(a, d, ka, max) && PushesMany(b, d + ka, kb, max) && Pops(i) == 2 && Pushes(i) == 1
    requires 0 <= d && 1 <= ka && 1 <= kb && d + ka + kb <= max + 1
    ensures PushesMany(a + b + If(typed, [i]), d, ka + kb - if typed then 1 else 0, max)
  {
    FitsConcat(a, b, d, max);
    FitsThen(a + b, i, d, max);
    assert a + b + [] == a + b;
  }

  lemma StoreFits(a: seq<Instr>, b: seq<Instr>, typed: bool, d: int, ka: int, kb: int, max: int)
    requires PushesMany(a, d, ka, max) && PushesMany(b, d + ka, kb, max) && 0 <= d && 1 <= ka && 1 <= kb && d + ka + kb <= max + 1
    ensures PushesMany(a + b + If(typed, [St, LdStack]), d, ka + kb - if typed then 1 else 0, max)
  {
    PairFits(a, b, typed, St, d, ka, kb, max);
    if typed {
      ThenFits(a + b + [St], true, LdStack, d, ka + kb - 1, max);
      assert a + b + [St, LdStack] == a + b + [St] + [LdStack];
    }
  }

  lemma CallFits(f: seq<Instr>, args: seq<Instr>, n: Byte, d: int, kf: int, ka: int, max: int)
    requires PushesMany(f, d, kf, max) && PushesMany(args, d + kf, ka, max) && 0 <= d && 1 <= kf && n <= ka && d + kf + ka - n <= max
    ensures PushesMany(f + args + [Call(n)], d, kf + ka - n, max)
  {
    FitsConcat(f, args, d, max);
    FitsThen(f + args, Call(n), d, max);
  }

  /** The values the code of an expression leaves: one, and those that leak if the code is strict. */
  function Left(e: Expr, strict: bool): nat { 1 + if strict then Leaks(e) else 0 }

  /** Two slots more than the tree has nodes are enough, from any depth. */
  lemma {:induction false} CodeFits(e: Expr, strict: bool, d: int, max: int)
    requires WellFormed(e) && 0 <= d && d + Size(e) + 2 <= max
    ensures PushesMany(ExprCode(e, strict), d, Left(e, strict), max)
    decreases e, 2
  {
    LeaksBounded(e);
    match e
    case Const(w) => OneFits(Ld(w), d, max);
    case Var(a) => OneFits(LdValue(a), d, max);
    case SysVar(a) => OneFits(LdValue(a), d, max);
    case Syscall(f) => OneFits(Ld(f), d, max);
    case Binary(_, _, _) => BinaryCodeFits(e, strict, d, max);
    case Complement(x) =>
      CodeFits(x, strict, d, max);
      ThenFits(ExprCode(x, strict), !strict || DataType(x) == DWORD, Not, d, Left(x, strict), max);
    case Deref(x) =>
      CodeFits(x, strict, d, max);
      ThenFits(ExprCode(x, strict), !strict || DataType(x) == DWORD, LdStack, d, Left(x, strict), max);
    case AddrOf(x) => AddrFits(x, strict, d, max);
    case Assign(_, _) => StoreCodeFits(e, strict, d, max);
    case Step(prefix, op, a) => StepFits(prefix, op, a, d, max);
    case Apply(_, _) => CallCodeFits(e, strict, d, max);
  }

  lemma {:induction false} BinaryCodeFits(e: Expr, strict: bool, d: int, max: int)
    requires e.Binary? && WellFormed(e) && 0 <= d && d + Size(e) + 2 <= max
    ensures PushesMany(ExprCode(e, strict), d, Left(e, strict), max)
    decreases e, 1
  {
    var l, r := e.l, e.r;
    LeaksBounded(e);
    LeaksBounded(l);
    CodeFits(l, strict, d, max);
    CodeFits(r, strict, d + Left(l, strict), max);
    PairFits(ExprCode(l, strict), ExprCode(r, strict), !strict || DataType(l) == DWORD, Bin(e.op), d, Left(l, strict), Left(r, strict), max);
  }

  lemma {:induction false} StoreCodeFits(e: Expr, strict: bool, d: int, max: int)
    requires e.Assign? && WellFormed(e) && 0 <= d && d + Size(e) + 2 <= max
    ensures PushesMany(ExprCode(e, strict), d, Left(e, strict), max)
    decreases e, 1
  {
    var l, r, k := e.l, e.r, 1 + if strict then LeaksAddr(e.l) else 0;
    LeaksBounded(e);
    LeaksBounded(l);
    AddrFits(l, strict, d, max);
    CodeFits(r, strict, d + k, max);
    StoreFits(AddrCode(l, strict), ExprCode(r, strict), !strict || DataType(l) == DWORD, d, k, Left(r, strict), max);
  }

  lemma {:induction false} CallCodeFits(e: Expr, strict: bool, d: int, max: int)
    requires e.Apply? && WellFormed(e) && 0 <= d && d + Size(e) + 2 <= max
    ensures PushesMany(ExprCode(e, strict), d, Left(e, strict), max)
    decreases e, 1
  {
    var f, args := e.f, e.args;
    assert |args| % 256 == |args|;
    LeaksBounded(f);
    LeaksAllBounded(args);
    CodeFits(f, strict, d, max);
    ArgsFit(args, strict, d + Left(f, strict), max);
    CallFits(ExprCode(f, strict), ArgsCode(args, strict), |args|, d, Left(f, strict), |args| + if strict then LeaksAll(args) else 0, max);
  }

  lemma {:induction false} AddrFits(e: Expr, strict: bool, d: int, max: int)
    requires WellFormed(e) && (LValue(e) || e.Syscall?) && 0 <= d && d + Size(e) + 2 <= max
    ensures PushesMany(AddrCode(e, strict), d, 1 + (if strict then LeaksAddr(e) else 0), max)
    decreases e, 0
  {
    match e
    case Var(a) => OneFits(Ld(a), d, max);
    case SysVar(a) => OneFits(Ld(a), d, max);
    case Syscall(f) => OneFits(Ld(f), d, max);
    case Deref(x) => CodeFits(x, strict, d, max);
  }

  lemma {:induction false} ArgsFit(es: seq<Expr>, strict: bool, d: int, max: int)
    requires (forall i :: 0 <= i < |es| ==> WellFormed(es[i])) && 0 <= d && d + Sizes(es) + 2 <= max
    ensures PushesMany(ArgsCode(es, strict), d, |es| + (if strict then LeaksAll(es) else 0), max)
    decreases es, 0
  {
    if es != [] {
      LeaksBounded(es[0]);
      CodeFits(es[0], strict, d, max);
      ArgsFit(es[1..], strict, d + Left(es[0], strict), max);
      FitsConcat(ExprCode(es[0], strict), ArgsCode(es[1..], strict), d, max);
    }
  }

  // ----- whole programs -----

  /** Statements in order; the last value is the result. */
  function EvalAll(env: Env, es: seq<Expr>, m: Memory): (Word, Memory)
    requires es != []
  {
    var r := Eval(env, es[0], m);
    if |es| == 1 then r else EvalAll(env, es[1..], r.1)
  }

  /** The code of a statement list: values but the last are popped. */
  function ProgramCode(es: seq<Expr>, strict: bool): seq<Instr> {
    if es == [] then []
    else if |es| == 1 then ExprCode(es[0], strict)
    else ExprCode(es[0], strict) + [Pop] + ProgramCode(es[1..], strict)
  }

  lemma {:induction false} ProgramComputes(env: Env, es: seq<Expr>, m: Memory)
    requires es != [] && forall i :: 0 <= i < |es| ==> WellFormed(es[i])
    ensures Yields(env, ProgramCode(es, false), [], m, EvalAll(env, es, m))
  {
    CodeComputes(env, es[0], [], m);
    if |es| > 1 {
      var r := Eval(env, es[0], m);
      ExecThen(env, ExprCode(es[0], false), Pop, State([], m));
      assert ([] + [r.0])[..0] == [];
      ExecConcat(env, ExprCode(es[0], false) + [Pop], ProgramCode(es[1..], false), State([], m));
      ProgramComputes(env, es[1..], r.1);
    }
  }

  /** A program of `Sizes(es)` nodes never underflows and needs at most two slots more than that. */
  lemma {:induction false} ProgramFits(es: seq<Expr>, strict: bool, d: int, max: int)
    requires es != [] && (forall i :: 0 <= i < |es| ==> WellFormed(es[i])) && 0 <= d && d + Sizes(es) + 2 <= max
    ensures PushesMany(ProgramCode(es, strict), d, 1 + (if strict then LeaksAll(es) else 0), max)
  {
    CodeFits(es[0], strict, d, max);
    LeaksBounded(es[0]);
    if |es| > 1 {
      FitsThen(ExprCode(es[0], strict), Pop, d, max);
      ProgramFits(es[1..], strict, d + Left(es[0], strict) - 1, max);
      FitsConcat(ExprCode(es[0], strict) + [Pop], ProgramCode(es[1..], strict), d, max);
    } else {
      assert es[1..] == [];
    }
  }

  lemma {:induction false} ProgramStrict(es: seq<Expr>)
    requires forall i :: 0 <= i < |es| ==> Typed(es[i])
    ensures ProgramCode(es, true) == ProgramCode(es, false)
  {
    if es != [] {
      StrictIffTyped(es[0]);
      ProgramStrict(es[1..]);
    }
  }

  /** Compiling typed expressions sets no error. */
  lemma {:induction false} TypedPasses(e: Expr)
    requires Typed(e) && WellFormed(e)
    ensures !BadStore(e)
    decreases e, 1
  {
    match e
    case Binary(_, l, r) => TypedPasses(l); TypedPasses(r);
    case Complement(x) => TypedPasses(x);
    case Deref(x) => TypedPasses(x);
    case AddrOf(x) => if x.Deref? { TypedPasses(x.e); }
    case Assign(l, r) => if l.Deref? { TypedPasses(l.e); } TypedPasses(r);
    case Apply(f, args) => TypedPasses(f); AllPass(args);
    case _ =>
  }

  lemma {:induction false} AllPass(es: seq<Expr>)
    requires forall i :: 0 <= i < |es| ==> Typed(es[i]) && WellFormed(es[i])
    ensures !BadStores(es)
    decreases es, 0
  {
    if es != [] {
      TypedPasses(es[0]);
      AllPass(es[1..]);
    }
  }

  /** A dropped complement or dereference does nothing: the result is right only where the operator would do nothing too. */
  lemma DroppedUnary(env: Env, n: Node, e: Expr, s: seq<Word>, m: Memory)
    requires (e.Complement? || e.Deref?) && Denotes(n, e) && n.sibling == Nil && WellFormed(e) && Typed(e.e) && DataType(e.e) != DWORD
    ensures Exec(env, Code(Check(n, false)), State(s, m)) == Push(s, Eval(env, e.e, m))
    ensures var r := Eval(env, e.e, m);
            Exec(env, Code(Check(n, false)), State(s, m)) == Push(s, Eval(env, e, m)) <==>
            (if e.Complement? then env.not(r.0) else Load(r.1, r.0)) == r.0
  {
    CheckedCode(n, e);
    StrictIffTyped(e.e);
    CodeComputes(env, e.e, s, m);
    assert ExprCode(e, true) + [] == ExprCode(e.e, true);
    var r := Eval(env, e.e, m);
    assert (s + [r.0])[|s|] == r.0;
    var v := Eval(env, e, m);
    assert (s + [v.0])[|s|] == v.0;
  }
}
