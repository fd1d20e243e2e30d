/** Expressions of the finsh language: their meaning, and the child/sibling trees that stand for them. */
module FinshSyntax {
  import opened FinshMachine

  /** Double-word expressions. Identifiers are resolved: a variable is its address, a system call its function. */
  datatype Expr =
    | Const(w: Word)
    | Var(addr: Word)
    | SysVar(addr: Word)
    | Syscall(fn: Word)
    | Binary(op: BinOp, l: Expr, r: Expr)
    | Complement(e: Expr)
    | Deref(e: Expr)
    | AddrOf(e: Expr)
    | Assign(l: Expr, r: Expr)
    | Step(prefix: bool, op: BinOp, addr: Word)
    | Apply(f: Expr, args: seq<Expr>)

  /** Can the expression stand where an address is wanted? */
  predicate LValue(e: Expr) {
    e.Var? || e.SysVar? || e.Deref?
  }

  /** Assignments have a left side with an address, `&` an operand with one, calls at most 16 parameters,
      and `++`/`--` add or subtract. */
  predicate WellFormed(e: Expr) {
    match e
    case Const(_) => true
    case Var(_) => true
    case SysVar(_) => true
    case Syscall(_) => true
    case Binary(_, l, r) => WellFormed(l) && WellFormed(r)
    case Complement(x) => WellFormed(x)
    case Deref(x) => WellFormed(x)
    case AddrOf(x) => (LValue(x) || x.Syscall?) && WellFormed(x)
    case Assign(l, r) => LValue(l) && WellFormed(l) && WellFormed(r)
    case Step(_, op, _) => op == Add || op == Sub
    case Apply(f, args) => WellFormed(f) && |args| <= 16 && forall i :: 0 <= i < |args| ==> WellFormed(args[i])
  }

  // ----- error codes -----

  const OK := 0
  const INVALID_TOKEN := 1
  const EXPECT_TYPE := 2
  const UNKNOWN_TYPE := 3
  const VARIABLE_EXIST := 4
  const EXPECT_OPERATOR := 5
  const MEMORY_FULL := 6
  const UNKNOWN_SYMBOL := 13
  const NULL_NODE := 14

  /** The number of tree nodes. */
  function Size(e: Expr): nat {
    match e
    case Const(_) => 1
    case Var(_) => 1
    case SysVar(_) => 1
    case Syscall(_) => 1
    case Binary(_, l, r) => 1 + Size(l) + Size(r)
    case Complement(x) => 1 + Size(x)
    case Deref(x) => 1 + Size(x)
    case AddrOf(x) => 1 + Size(x)
    case Assign(l, r) => 1 + Size(l) + Size(r)
    case Step(_, _, _) => 2
    case Apply(f, args) => 1 + Size(f) + Sizes(args)
  }

  function Sizes(es: seq<Expr>): nat {
    if es == [] then 0 else Size(es[0]) + Sizes(es[1..])
  }

  // ----- meaning -----

  /** The value of an expression and the memory after evaluating it, operands from left to right. */
  function Eval(env: Env, e: Expr, m: Memory): (Word, Memory)
    decreases e, 1
  {
    match e
    case Const(w) => (w, m)
    case Var(a) => (Load(m, a), m)
    case SysVar(a) => (Load(m, a), m)
    case Syscall(f) => (f, m)
    case Binary(op, l, r) =>
      var (a, m1) := Eval(env, l, m);
      var (b, m2) := Eval(env, r, m1);
      (env.bin(op, a, b), m2)
    case Complement(x) =>
      var (a, m1) := Eval(env, x, m);
      (env.not(a), m1)
    case Deref(x) =>
      var (a, m1) := Eval(env, x, m);
      (Load(m1, a), m1)
    case AddrOf(x) => EvalAddr(env, x, m)
    case Assign(l, r) =>
      var (a, m1) := EvalAddr(env, l, m);
      var (v, m2) := Eval(env, r, m1);
      (v, Store(m2, a, v))
    case Step(prefix, op, a) =>
      var was := Load(m, a);
      var now := env.bin(op, was, 1);
      (if prefix then now else was, Store(m, a, now))
    case Apply(f, args) =>
      var (a, m1) := Eval(env, f, m);
      var (vs, m2) := EvalArgs(env, args, m1);
      env.call(a, Passed(vs), m2)
  }

  /** The address an l-value stands for. */
  function EvalAddr(env: Env, e: Expr, m: Memory): (Word, Memory)
    decreases e, 0
  {
    match e
    case Var(a) => (a, m)
    case SysVar(a) => (a, m)
    case Syscall(f) => (f, m)
    case Deref(x) => Eval(env, x, m)
    case _ => (0, m)
  }

  function EvalArgs(env: Env, es: seq<Expr>, m: Memory): (r: (seq<Word>, Memory))
    ensures |r.0| == |es|
    decreases es, 0
  {
    if es == [] then ([], m) else
    var (v, m1) := Eval(env, es[0], m);
    var (vs, m2) := EvalArgs(env, es[1..], m1);
    ([v] + vs, m2)
  }

  // ----- trees -----

  datatype Symbol = VarSymbol(addr: Word) | SysVarSymbol(addr: Word) | SyscallSymbol(fn: Word)

  datatype Kind =
    | Unknown
    | Value(w: Word)
    | Id(sym: Symbol)
    | Op(op: BinOp)
    | Bitwise
    | GetValue
    | GetAddr
    | Assignment
    | PreStep(op: BinOp)
    | PostStep(op: BinOp)
    | Func

  const VOID := 0
  const DWORD := 3

  /** A node of the table: its slot, what it is, the `data_type` field, the address bit of `idtype`, its links. */
  datatype Node =
    | Nil
    | Node(slot: int, kind: Kind, dtype: int, addr: bool, child: Node, sibling: Node)

  /** The tree of an expression, as the parser leaves it. */
  ghost predicate Denotes(n: Node, e: Expr)
    decreases e, 1
  {
    n.Node? && n.dtype == VOID && !n.addr &&
    match e
    case Const(w) => n.kind == Value(w) && n.child == Nil
    case Var(a) => n.kind == Id(VarSymbol(a)) && n.child == Nil
    case SysVar(a) => n.kind == Id(SysVarSymbol(a)) && n.child == Nil
    case Syscall(f) => n.kind == Id(SyscallSymbol(f)) && n.child == Nil
    case Binary(op, l, r) =>
      n.kind == Op(op) && Denotes(n.child, l) && Denotes(n.child.sibling, r) && n.child.sibling.sibling == Nil
    case Complement(x) => n.kind == Bitwise && Denotes(n.child, x) && n.child.sibling == Nil
    case Deref(x) => n.kind == GetValue && Denotes(n.child, x) && n.child.sibling == Nil
    case AddrOf(x) => n.kind == GetAddr && Denotes(n.child, x) && n.child.sibling == Nil
    case Assign(l, r) =>
      n.kind == Assignment && Denotes(n.child, l) && Denotes(n.child.sibling, r) && n.child.sibling.sibling == Nil
    case Step(prefix, op, a) =>
      n.kind == (if prefix then PreStep(op) else PostStep(op)) &&
      n.child.Node? && n.child.dtype == VOID && !n.child.addr && n.child.kind == Id(VarSymbol(a)) &&
      n.child.child == Nil && n.child.sibling == Nil
    case Apply(f, args) => n.kind == Func && Denotes(n.child, f) && DenotesAll(n.child.sibling, args)
  }

  /** A sibling chain of expression trees: parameters, or statements. */
  ghost predicate DenotesAll(n: Node, es: seq<Expr>)
    decreases es, 0
  {
    if es == [] then n == Nil else Denotes(n, es[0]) && DenotesAll(n.sibling, es[1..])
  }
}
