/** The type pass and the code generator of finsh, on trees. */
module FinshCompiler {
  import opened FinshMachine
  import opened FinshSyntax

  // ----- the two passes, branch by branch -----

  /** What `finsh_type_check` passes to the first child. */
  function ChildWantsAddr(kind: Kind, isAddr: bool): bool {
    if kind.Assignment? || kind.PreStep? || kind.GetAddr? then true
    else if kind.GetValue? && isAddr then false
    else isAddr
  }

  /** The `data_type` of a leaf; a system call gets none. */
  function LeafType(kind: Kind, dtype: int): int {
    if kind.Value? || (kind.Id? && !kind.sym.SyscallSymbol?) then DWORD else dtype
  }

  /** `finsh_type_check`. */
  function Check(n: Node, isAddr: bool): Node {
    if n.Nil? then Nil else
    var c := Check(n.child, ChildWantsAddr(n.kind, isAddr));
    var addr := if n.kind.Id? && n.kind.sym.SyscallSymbol? && !n.addr then n.addr else n.addr || isAddr;
    Node(n.slot, n.kind, if c.Node? then c.dtype else LeafType(n.kind, n.dtype), addr, c, Check(n.sibling, false))
  }

  /** The length of a sibling chain. */
  function Chain(n: Node): nat {
    if n.Nil? then 0 else 1 + Chain(n.sibling)
  }

  /** The instructions `finsh_compile` emits for one node, after those of its children. */
  function Own(n: Node): seq<Instr>
    requires n.Node?
  {
    var typed := n.dtype == DWORD;
    var childVar := n.child.Node? && n.child.kind.Id? && n.child.kind.sym.VarSymbol?;
    match n.kind
    case Unknown => []
    case Value(w) => [Ld(w)]
    case Id(sym) => (match sym
      case SyscallSymbol(f) => [Ld(f)]
      case SysVarSymbol(a) => if n.addr then [Ld(a)] else [LdValue(a)]
      case VarSymbol(a) => if n.addr then [Ld(a)] else [LdValue(a)])
    case Op(op) => if typed then [Bin(op)] else []
    case Bitwise => if typed then [Not] else []
    case GetValue => if !n.addr && typed then [LdStack] else []
    case GetAddr => []
    case Assignment =>
      if n.child.Node? && (n.child.kind.Id? || n.child.kind.GetValue?) && n.child.dtype == DWORD then [St, LdStack] else []
    case PreStep(op) =>
      if childVar && typed then [LdValue(n.child.kind.sym.addr), Ld(1), Bin(op), St, LdStack] else []
    case PostStep(op) =>
      if childVar && typed then
        [Ld(n.child.kind.sym.addr), LdValue(n.child.kind.sym.addr), Ld(1), Bin(op), St, Pop]
      else []
    case Func =>
      if n.child.Node? then [Call(Chain(n.child.sibling) % 256)] else []
  }

  /** `finsh_compile`: children, the node itself, siblings. */
  function Code(n: Node): seq<Instr> {
    if n.Nil? then [] else Code(n.child) + Own(n) + Code(n.sibling)
  }

  // ----- the same on expressions -----

  /** The `data_type` an expression's root gets: that of its leftmost leaf. */
  function DataType(e: Expr): int {
    match e
    case Const(_) => DWORD
    case Var(_) => DWORD
    case SysVar(_) => DWORD
    case Syscall(_) => VOID
    case Binary(_, l, _) => DataType(l)
    case Complement(x) => DataType(x)
    case Deref(x) => DataType(x)
    case AddrOf(x) => DataType(x)
    case Assign(l, _) => DataType(l)
    case Step(_, _, _) => DWORD
    case Apply(f, _) => DataType(f)
  }

  /** What an operator contributes; nothing if `typed` is false. */
  function If(typed: bool, code: seq<Instr>): seq<Instr> {
    if typed then code else []
  }

  /** The code of an expression in value position. With `strict` off, every operator emits its
      instruction; with `strict` on, only those whose data type the type pass made double-word. */
  function ExprCode(e: Expr, strict: bool): seq<Instr>
    decreases e, 1
  {
    match e
    case Const(w) => [Ld(w)]
    case Var(a) => [LdValue(a)]
    case SysVar(a) => [LdValue(a)]
    case Syscall(f) => [Ld(f)]
    case Binary(op, l, r) => ExprCode(l, strict) + ExprCode(r, strict) + If(!strict || DataType(l) == DWORD, [Bin(op)])
    case Complement(x) => ExprCode(x, strict) + If(!strict || DataType(x) == DWORD, [Not])
    case Deref(x) => ExprCode(x, strict) + If(!strict || DataType(x) == DWORD, [LdStack])
    case AddrOf(x) => AddrCode(x, strict)
    case Assign(l, r) => AddrCode(l, strict) + ExprCode(r, strict) + If(!strict || DataType(l) == DWORD, [St, LdStack])
    case Step(prefix, op, a) =>
      if prefix then [Ld(a), LdValue(a), Ld(1), Bin(op), St, LdStack]
      else [LdValue(a), Ld(a), LdValue(a), Ld(1), Bin(op), St, Pop]
    case Apply(f, args) =>
      ExprCode(f, strict) + ArgsCode(args, strict) + [Call(|args| % 256)]
  }

  /** The code of an expression in address position. */
  function AddrCode(e: Expr, strict: bool): seq<Instr>
    decreases e, 0
  {
    match e
    case Var(a) => [Ld(a)]
    case SysVar(a) => [Ld(a)]
    case Syscall(f) => [Ld(f)]
    case Deref(x) => ExprCode(x, strict)
    case _ => []
  }

  function ArgsCode(es: seq<Expr>, strict: bool): seq<Instr>
    decreases es, 0
  {
    if es == [] then [] else ExprCode(es[0], strict) + ArgsCode(es[1..], strict)
  }

  // ----- the passes produce ExprCode -----

  lemma {:induction false} CheckType(n: Node, e: Expr, isAddr: bool)
    requires Denotes(n, e)
    ensures Check(n, isAddr).Node? && Check(n, isAddr).dtype == DataType(e)
  {
    match e
    case Const(_) =>
    case Var(_) =>
    case SysVar(_) =>
    case Syscall(_) =>
    case Binary(_, l, _) => CheckType(n.child, l, ChildWantsAddr(n.kind, isAddr));
    case Complement(x) => CheckType(n.child, x, ChildWantsAddr(n.kind, isAddr));
    case Deref(x) => CheckType(n.child, x, ChildWantsAddr(n.kind, isAddr));
    case AddrOf(x) => CheckType(n.child, x, ChildWantsAddr(n.kind, isAddr));
    case Assign(l, _) => CheckType(n.child, l, ChildWantsAddr(n.kind, isAddr));
    case Step(_, _, _) => assert Check(n.child, ChildWantsAddr(n.kind, isAddr)).dtype == DWORD;
    case Apply(f, _) => CheckType(n.child, f, ChildWantsAddr(n.kind, isAddr));
  }

  /** The code of a checked node is that of its children, its own and that of its siblings. */
  lemma Assemble(n: Node, isAddr: bool, inner: seq<Instr>, own: seq<Instr>)
    requires n.Node? && Code(Check(n.child, ChildWantsAddr(n.kind, isAddr))) == inner && Own(Check(n, isAddr)) == own
    ensures Code(Check(n, isAddr)) == inner + own + Code(Check(n.sibling, false))
  {
  }

  lemma CheckedLeaf(n: Node, e: Expr, isAddr: bool)
    requires Denotes(n, e) && (e.Const? || e.Var? || e.SysVar? || e.Syscall?)
    ensures Code(Check(n, isAddr)) ==
            (if isAddr && !e.Const? then AddrCode(e, true) else ExprCode(e, true)) + Code(Check(n.sibling, false))
  {
    var code := if isAddr && !e.Const? then AddrCode(e, true) else ExprCode(e, true);
    LeafOwn(n, e, isAddr);
    assert Code(Nil) == [];
    Assemble(n, isAddr, [], code);
    assert [] + code == code;
  }

  lemma LeafOwn(n: Node, e: Expr, isAddr: bool)
    requires Denotes(n, e) && (e.Const? || e.Var? || e.SysVar? || e.Syscall?)
    ensures Check(n.child, ChildWantsAddr(n.kind, isAddr)) == Nil && Check(n, isAddr).Node?
    ensures Own(Check(n, isAddr)) == if isAddr && !e.Const? then AddrCode(e, true) else ExprCode(e, true)
  {
  }

  /** Operators with one or two operands, in value position. */
  lemma CheckedOperator(n: Node, e: Expr, inner: seq<Instr>)
    requires Denotes(n, e) && Code(Check(n.child, ChildWantsAddr(n.kind, false))) == inner
    requires e.Binary? || e.Complement? || e.Deref? || e.AddrOf? || (e.Assign? && LValue(e.l))
    ensures e.Binary? ==> Code(Check(n, false)) == inner + If(DataType(e.l) == DWORD, [Bin(e.op)]) + Code(Check(n.sibling, false))
    ensures e.Complement? ==> Code(Check(n, false)) == inner + If(DataType(e.e) == DWORD, [Not]) + Code(Check(n.sibling, false))
    ensures e.Deref? ==> Code(Check(n, false)) == inner + If(DataType(e.e) == DWORD, [LdStack]) + Code(Check(n.sibling, false))
    ensures e.AddrOf? ==> Code(Check(n, false)) == inner + Code(Check(n.sibling, false))
    ensures e.Assign? ==> Code(Check(n, false)) == inner + If(DataType(e.l) == DWORD, [St, LdStack]) + Code(Check(n.sibling, false))
  {
    CheckType(n, e, false);
    var own := Own(Check(n, false));
    Assemble(n, false, inner, own);
    if e.Assign? {
      CheckType(n.child, e.l, true);
      assert Check(n.child, true).kind == n.child.kind;
    }
    if e.AddrOf? {
      assert inner + [] == inner;
    }
  }

  /** In value position, the two passes turn an expression's tree into its strict code. */
  lemma {:induction false} CheckedCode(n: Node, e: Expr)
    requires Denotes(n, e) && WellFormed(e)
    ensures Code(Check(n, false)) == ExprCode(e, true) + Code(Check(n.sibling, false))
    decreases e, 1
  {
    match e
    case Const(_) => CheckedLeaf(n, e, false);
    case Var(_) => CheckedLeaf(n, e, false);
    case SysVar(_) => CheckedLeaf(n, e, false);
    case Syscall(_) => CheckedLeaf(n, e, false);
    case Binary(_, l, r) =>
      CheckedCode(n.child, l);
      CheckedCode(n.child.sibling, r);
      CheckedOperator(n, e, ExprCode(l, true) + ExprCode(r, true));
    case Complement(x) =>
      CheckedCode(n.child, x);
      CheckedOperator(n, e, ExprCode(x, true));
    case Deref(x) =>
      CheckedCode(n.child, x);
      CheckedOperator(n, e, ExprCode(x, true));
    case AddrOf(x) =>
      CheckedAddr(n.child, x);
      CheckedOperator(n, e, AddrCode(x, true));
    case Assign(l, r) =>
      CheckedAddr(n.child, l);
      CheckedCode(n.child.sibling, r);
      CheckedOperator(n, e, AddrCode(l, true) + ExprCode(r, true));
    case Step(prefix, op, a) =>
      CheckedStep(n, prefix, op, a);
    case Apply(f, args) =>
      CheckedCode(n.child, f);
      CheckedArgs(n.child.sibling, args);
      CheckedCall(n, f, args);
  }

  lemma CheckedCall(n: Node, f: Expr, args: seq<Expr>)
    requires Denotes(n, Apply(f, args)) && |args| <= 16 && n.child.Node?
    requires Code(Check(n.child, false)) == ExprCode(f, true) + Code(Check(n.child.sibling, false))
    requires Code(Check(n.child.sibling, false)) == ArgsCode(args, true) && Chain(Check(n.child.sibling, false)) == |args|
    ensures Code(Check(n, false)) == ExprCode(Apply(f, args), true) + Code(Check(n.sibling, false))
  {
    CallOwn(n, |args|);
    Assemble(n, false, ExprCode(f, true) + ArgsCode(args, true), [Call(|args| % 256)]);
  }

  lemma CallOwn(n: Node, k: nat)
    requires n.Node? && n.kind == Func && n.child.Node? && Chain(Check(n.child.sibling, false)) == k
    ensures Check(n, false).Node? && Own(Check(n, false)) == [Call(k % 256)]
  {
    var c := Check(n.child, false);
    assert c.Node? && c.sibling == Check(n.child.sibling, false);
  }

  lemma CheckedStep(n: Node, prefix: bool, op: BinOp, a: Word)
    requires Denotes(n, Step(prefix, op, a))
    ensures Code(Check(n, false)) == ExprCode(Step(prefix, op, a), true) + Code(Check(n.sibling, false))
  {
    hide Check, Code, Own, Denotes;
    var first := if prefix then [Ld(a)] else [LdValue(a)];
    StepOperand(n, prefix, op, a);
    StepOwn(n, prefix, op, a);
    Assemble(n, false, first, OwnStep(prefix, op, a));
    assert first + OwnStep(prefix, op, a) == ExprCode(Step(prefix, op, a), true);
  }

  /** What `++` and `--` emit behind their operand. */
  function OwnStep(prefix: bool, op: BinOp, a: Word): seq<Instr> {
    if prefix then [LdValue(a), Ld(1), Bin(op), St, LdStack] else [Ld(a), LdValue(a), Ld(1), Bin(op), St, Pop]
  }

  lemma StepOperand(n: Node, prefix: bool, op: BinOp, a: Word)
    requires Denotes(n, Step(prefix, op, a))
    ensures n.Node? && ChildWantsAddr(n.kind, false) == prefix
    ensures Code(Check(n.child, prefix)) == if prefix then [Ld(a)] else [LdValue(a)]
  {
    CheckedLeaf(n.child, Var(a), prefix);
  }

  lemma StepOwn(n: Node, prefix: bool, op: BinOp, a: Word)
    requires Denotes(n, Step(prefix, op, a))
    ensures Own(Check(n, false)) == OwnStep(prefix, op, a)
  {
    CheckType(n, Step(prefix, op, a), false);
    assert Check(n, false).child.kind == n.child.kind;
  }

  /** In address position, they leave out the last load. */
  lemma {:induction false} CheckedAddr(n: Node, e: Expr)
    requires Denotes(n, e) && WellFormed(e) && (LValue(e) || e.Syscall?)
    ensures Code(Check(n, true)) == AddrCode(e, true) + Code(Check(n.sibling, false))
    decreases e, 0
  {
    if e.Deref? {
      CheckedCode(n.child, e.e);
      Assemble(n, true, ExprCode(e.e, true), []);
    } else {
      CheckedLeaf(n, e, true);
    }
  }

  lemma {:induction false} CheckedArgs(n: Node, es: seq<Expr>)
    requires DenotesAll(n, es) && forall i :: 0 <= i < |es| ==> WellFormed(es[i])
    ensures Code(Check(n, false)) == ArgsCode(es, true) && Chain(Check(n, false)) == |es|
    decreases es, 0
  {
    if es != [] {
      CheckedCode(n, es[0]);
      CheckedArgs(n.sibling, es[1..]);
    }
  }

  // ----- errors -----

  /** Does compiling the tree set an error: is there an assignment to something without a data type? */
  predicate Fails(n: Node) {
    n.Node? && (Fails(n.child) || OwnFails(n) || Fails(n.sibling))
  }

  predicate OwnFails(n: Node)
    requires n.Node?
  {
    n.kind == Assignment && n.child.Node? && (n.child.kind.Id? || n.child.kind.GetValue?) && n.child.dtype != DWORD
  }

  /** Has an assignment of the expression a system call as the leftmost leaf of its left side? */
  predicate BadStore(e: Expr)
    decreases e, 1
  {
    match e
    case Binary(_, l, r) => BadStore(l) || BadStore(r)
    case Complement(x) => BadStore(x)
    case Deref(x) => BadStore(x)
    case AddrOf(x) => BadStore(x)
    case Assign(l, r) => DataType(l) != DWORD || BadStore(l) || BadStore(r)
    case Apply(f, args) => BadStore(f) || BadStores(args)
    case _ => false
  }

  predicate BadStores(es: seq<Expr>)
    decreases es, 0
  {
    es != [] && (BadStore(es[0]) || BadStores(es[1..]))
  }

  /** The code generator sets an error exactly for such expressions. */
  lemma {:induction false} CheckedFails(n: Node, e: Expr, isAddr: bool)
    requires Denotes(n, e) && WellFormed(e)
    ensures Fails(Check(n, isAddr)) <==> BadStore(e) || Fails(Check(n.sibling, false))
    decreases e, 1
  {
    var a := ChildWantsAddr(n.kind, isAddr);
    match e
    case Const(_) =>
    case Var(_) =>
    case SysVar(_) =>
    case Syscall(_) =>
    case Binary(_, l, r) =>
      CheckedFails(n.child, l, a);
      CheckedFails(n.child.sibling, r, false);
    case Complement(x) => CheckedFails(n.child, x, a);
    case Deref(x) => CheckedFails(n.child, x, a);
    case AddrOf(x) => CheckedFails(n.child, x, a);
    case Assign(l, r) =>
      CheckedFails(n.child, l, a);
      CheckedFails(n.child.sibling, r, false);
      CheckType(n.child, l, a);
      StoreFails(n, isAddr);
    case Step(_, _, _) => StepPasses(n, isAddr);
    case Apply(f, args) =>
      CheckedFails(n.child, f, a);
      ArgsFail(n.child.sibling, args);
  }

  lemma StoreFails(n: Node, isAddr: bool)
    requires n.Node? && n.kind == Assignment && n.child.Node? && (n.child.kind.Id? || n.child.kind.GetValue?)
    ensures var c := Check(n.child, ChildWantsAddr(n.kind, isAddr));
            c.Node? && Check(n, isAddr).Node? && (OwnFails(Check(n, isAddr)) <==> c.dtype != DWORD)
  {
  }

  lemma StepPasses(n: Node, isAddr: bool)
    requires n.Node? && (n.kind.PreStep? || n.kind.PostStep?) && n.child.Node? && n.child.kind.Id? && n.child.child == Nil && n.child.sibling == Nil
    ensures Fails(Check(n, isAddr)) <==> Fails(Check(n.sibling, false))
  {
    var a := ChildWantsAddr(n.kind, isAddr);
    var c := Check(n.child, a);
    assert Check(Nil, ChildWantsAddr(n.child.kind, a)) == Nil && Check(Nil, false) == Nil;
    assert c.child == Nil && c.sibling == Nil;
    assert !Fails(c);
  }

  lemma {:induction false} ArgsFail(n: Node, es: seq<Expr>)
    requires DenotesAll(n, es) && forall i :: 0 <= i < |es| ==> WellFormed(es[i])
    ensures Fails(Check(n, false)) <==> BadStores(es)
    decreases es, 0
  {
    if es != [] {
      CheckedFails(n, es[0], false);
      ArgsFail(n.sibling, es[1..]);
    }
  }
}
