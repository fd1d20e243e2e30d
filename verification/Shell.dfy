/** A line typed at the finsh prompt: parsed, compiled and run. */
module FinshShell {
  import opened FinshMachine
  import opened FinshSyntax
  import opened FinshCompiler
  import opened FinshCorrectness
  import opened FinshVm
  import opened FinshNodeTable
  import opened FinshCodeGen
  import opened FinshGrammar
  import opened FinshBuild
  import opened FinshParserSteps
  import opened FinshParser

  /** Calls of well-formed expressions have at most 16 parameters. */
  lemma {:induction false} ExprCalls(e: Expr)
    requires WellFormed(e)
    ensures SmallCalls(ExprCode(e, true))
    decreases e, 1
  {
    match e
    case Binary(op, l, r) =>
      ExprCalls(l);
      ExprCalls(r);
      AlsoSmall(ExprCode(l, true), ExprCode(r, true), If(DataType(l) == DWORD, [Bin(op)]));
    case Complement(x) => ExprCalls(x); AlsoSmall(ExprCode(x, true), [], If(DataType(x) == DWORD, [Not]));
    case Deref(x) => ExprCalls(x); AlsoSmall(ExprCode(x, true), [], If(DataType(x) == DWORD, [LdStack]));
    case AddrOf(x) => AddrCalls(x);
    case Assign(l, r) =>
      AddrCalls(l);
      ExprCalls(r);
      AlsoSmall(AddrCode(l, true), ExprCode(r, true), If(DataType(l) == DWORD, [St, LdStack]));
    case Apply(f, args) =>
      ExprCalls(f);
      ArgsCalls(args);
      AlsoSmall(ExprCode(f, true), ArgsCode(args, true), [Call(|args| % 256)]);
    case _ =>
  }

  lemma AlsoSmall(a: seq<Instr>, b: seq<Instr>, c: seq<Instr>)
    requires SmallCalls(a) && SmallCalls(b) && SmallCalls(c)
    ensures SmallCalls(a + b + c) && SmallCalls(a + c)
  {
  }

  lemma {:induction false} AddrCalls(e: Expr)
    requires WellFormed(e)
    ensures SmallCalls(AddrCode(e, true))
    decreases e, 0
  {
    if e.Deref? { ExprCalls(e.e); }
  }

  lemma {:induction false} ArgsCalls(es: seq<Expr>)
    requires forall i :: 0 <= i < |es| ==> WellFormed(es[i])
    ensures SmallCalls(ArgsCode(es, true))
    decreases es, 0
  {
    if es != [] {
      ExprCalls(es[0]);
      ArgsCalls(es[1..]);
    }
  }

  lemma {:induction false} ProgramCalls(es: seq<Expr>)
    requires forall i :: 0 <= i < |es| ==> WellFormed(es[i])
    ensures SmallCalls(ProgramCode(es, true))
  {
    if es != [] {
      ExprCalls(es[0]);
      ProgramCalls(es[1..]);
    }
  }

  /** A blank table has all its entries free. */
  lemma {:induction false} BlankFree(t: seq<Cell>)
    requires forall i :: 0 <= i < |t| ==> t[i] == BLANK
    ensures Clean(t) && Free(t) == |t|
  {
    if t != [] { BlankFree(t[1..]); }
  }

  /** FINSH_NODE_MAX, FINSH_STACK_MAX, FINSH_TEXT_MAX. */
  const NODE_MAX := 16
  const STACK_MAX := 64
  const TEXT_MAX := 128

  /** What the line of the statements `es` must satisfy to be run: see `RunLine`. */
  ghost predicate Runnable(es: seq<Expr>, names: Names, symbols: Symbols) {
    && es != [] && Sizes(es) <= NODE_MAX && |Encode(ProgramCode(es, true))| <= TEXT_MAX
    && forall i :: 0 <= i < |es| ==> WellFormed(es[i]) && Printable(es[i]) && Named(es[i], names, symbols)
  }

  ghost predicate AllTyped(es: seq<Expr>) { forall i :: 0 <= i < |es| ==> Typed(es[i]) }

  /** The state after the emitted code of the statements, on an empty stack. */
  ghost function Final(env: Env, es: seq<Expr>, mem: Memory): State {
    Exec(env, ProgramCode(es, true), State([], mem))
  }

  /** `finsh_run_line`, up to the output. A printed list of statements is parsed without error; compiling it sets one
      exactly if a statement assigns to something without a data type, and then the machine is not run. If it is run,
      it ends with the emitted code's state; for typed statements slot 0 holds the value of the last one and memory is
      as after running them in order. */
  method RunLine(tokens: seq<Token>, symbols: Symbols, slots: seq<Word>, env: Env, mem: Memory, ghost names: Names, ghost es: seq<Expr>)
    returns (ran: bool, bottom: Word, mem': Memory, error: int)
    requires tokens == PrintProgram(es, names) && Runnable(es, names, symbols)
    ensures error == (if BadStores(es) then UNKNOWN_TYPE else OK) && ran == (error == OK)
    ensures !ran ==> mem' == mem
    ensures ran ==> |Final(env, es, mem).stack| == 1 + LeaksAll(es)
    ensures ran ==> bottom == Final(env, es, mem).stack[0] && mem' == Final(env, es, mem).mem
    ensures AllTyped(es) ==> ran && (bottom, mem') == EvalAll(env, es, mem)
  {
    var table := new NodeTable(NODE_MAX);
    var parser := new Parser(tokens, symbols, slots, table, names);
    BlankFree(table.nodes[..]);
    assert ProgramReady(parser.Abs(), parser.Env(), es);
    var root;
    ghost var n;
    root, n := parser.Run(es);
    error := parser.error;
    ran, bottom, mem' := false, 0, mem;
    if error == OK {
      ran, bottom, mem', error := CompileAndRun(table, root, env, mem, n, es);
    }
    if AllTyped(es) {
      TypedFinal(env, es, mem);
    }
  }

  /** Typed statements set no error and end with their last value. */
  lemma TypedFinal(env: Env, es: seq<Expr>, mem: Memory)
    requires es != [] && AllTyped(es) && forall i :: 0 <= i < |es| ==> WellFormed(es[i])
    ensures !BadStores(es) && Final(env, es, mem) == State([EvalAll(env, es, mem).0], EvalAll(env, es, mem).1)
  {
    AllPass(es);
    ProgramStrict(es);
    ProgramComputes(env, es, mem);
  }

  /** The compiler and, if it sets no error, the machine, on a tree in the node table. */
  method CompileAndRun(table: NodeTable, root: int, env: Env, mem: Memory, ghost n: Node, ghost es: seq<Expr>)
    returns (ran: bool, bottom: Word, mem': Memory, error: int)
    requires root == Ref(n) && Holds(table.nodes[..], n) && Distinct(n) && DenotesAll(n, es)
    requires es != [] && Sizes(es) + 2 <= STACK_MAX && |Encode(ProgramCode(es, true))| <= TEXT_MAX
    requires forall i :: 0 <= i < |es| ==> WellFormed(es[i])
    modifies table.nodes
    ensures error == (if BadStores(es) then UNKNOWN_TYPE else OK) && ran == (error == OK)
    ensures !ran ==> mem' == mem
    ensures ran ==> |Final(env, es, mem).stack| == 1 + LeaksAll(es)
    ensures ran ==> bottom == Final(env, es, mem).stack[0] && mem' == Final(env, es, mem).mem
  {
    var vm := new Vm(env, STACK_MAX, TEXT_MAX, mem);
    var gen := new CodeGen(table, vm.text);
    gen.Run(root, n, es);
    error := gen.error;
    ran, bottom, mem' := error == OK, 0, mem;
    if ran {
      bottom, mem' := RunText(vm, env, mem, es);
    }
  }

  /** Runs the code of the statements `es`. */
  method RunText(vm: Vm, env: Env, mem: Memory, ghost es: seq<Expr>) returns (bottom: Word, mem': Memory)
    requires vm.env == env && vm.mem == mem && vm.stack.Length == STACK_MAX && Text(vm.text[..], ProgramCode(es, true))
    requires es != [] && Sizes(es) + 2 <= STACK_MAX && forall i :: 0 <= i < |es| ==> WellFormed(es[i])
    modifies vm, vm.stack
    ensures |Final(env, es, mem).stack| == 1 + LeaksAll(es)
    ensures bottom == Final(env, es, mem).stack[0] && mem' == Final(env, es, mem).mem
  {
    ghost var code := ProgramCode(es, true);
    ProgramCalls(es);
    ProgramFits(es, true, 0, STACK_MAX);
    ExecHeight(env, code, State([], mem), STACK_MAX);
    vm.Run(code);
    assert vm.stack[..vm.sp] == Final(env, es, mem).stack;
    bottom, mem' := vm.stack[0], vm.mem;
  }
}
