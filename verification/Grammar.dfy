/** Tokens of the finsh language, and the printing of expressions that need no parentheses. */
module FinshGrammar {
  import opened Common
  import opened FinshMachine
  import opened FinshSyntax

  datatype Token =
    | LeftParen | RightParen | Comma | Semicolon
    | Star | Plus | Increment | Minus | Decrement | Slash | Percent | Equals
    | Ampersand | Bar | Caret | Tilde | ShiftLeft | ShiftRight
    | TypeName(type_: int) | Unsigned
    | Number(w: Word) | NullPointer
    | Identifier(name: string)
    | Bad | Eof

  // ----- levels: 0 is assignment, 1 to 6 the binary operators, 7 unary, 8 postfix, 9 primary -----

  function OpLevel(op: BinOp): (k: int)
    ensures 1 <= k <= 6
  {
    match op
    case Or => 1
    case Xor => 2
    case And => 3
    case Shl => 4
    case Shr => 4
    case Add => 5
    case Sub => 5
    case Mul => 6
    case Div => 6
    case Mod => 6
  }

  function OpToken(op: BinOp): Token {
    match op
    case Or => Bar
    case Xor => Caret
    case And => Ampersand
    case Shl => ShiftLeft
    case Shr => ShiftRight
    case Add => Plus
    case Sub => Minus
    case Mul => Star
    case Div => Slash
    case Mod => Percent
  }

  /** The level at which a token would continue an expression, or -1. */
  function TokenLevel(t: Token): int {
    match t
    case Equals => 0
    case Bar => 1
    case Caret => 2
    case Ampersand => 3
    case ShiftLeft => 4
    case ShiftRight => 4
    case Plus => 5
    case Minus => 5
    case Star => 6
    case Slash => 6
    case Percent => 6
    case Increment => 8
    case Decrement => 8
    case LeftParen => 8
    case _ => -1
  }

  /** The operator of a binary operator token. */
  function OpOf(t: Token): (op: BinOp)
    ensures forall o :: OpToken(o) == t ==> op == o
  {
    match t
    case Caret => Xor
    case Ampersand => And
    case ShiftLeft => Shl
    case ShiftRight => Shr
    case Plus => Add
    case Minus => Sub
    case Star => Mul
    case Slash => Div
    case Percent => Mod
    case _ => Or
  }

  lemma OpTokenLevel(op: BinOp)
    ensures TokenLevel(OpToken(op)) == OpLevel(op)
  {
  }

  function Level(e: Expr): int {
    match e
    case Assign(_, _) => 0
    case Binary(op, _, _) => OpLevel(op)
    case Complement(_) => 7
    case Deref(_) => 7
    case AddrOf(_) => 7
    case Step(prefix, _, _) => if prefix then 7 else 8
    case Apply(_, _) => 8
    case _ => 9
  }

  /** No operand needs parentheses: binary operators associate to the left, assignment to the right. */
  predicate Printable(e: Expr) {
    match e
    case Assign(l, r) => Level(l) >= 1 && Printable(l) && Printable(r)
    case Binary(op, l, r) => Level(l) >= OpLevel(op) && Level(r) > OpLevel(op) && Printable(l) && Printable(r)
    case Complement(x) => Level(x) >= 7 && Printable(x)
    case Deref(x) => Level(x) >= 7 && Printable(x)
    case AddrOf(x) => Level(x) >= 7 && Printable(x)
    case Step(_, op, _) => op == Add || op == Sub
    case Apply(f, args) => Level(f) >= 8 && Printable(f) && forall i :: 0 <= i < |args| ==> Printable(args[i])
    case _ => true
  }

  // ----- names -----

  /** The symbols a name can stand for; shell variables hide system variables, which hide system calls. */
  datatype Symbols = Symbols(vars: map<string, Word>, sysvars: map<string, Word>, syscalls: map<string, Word>)

  function Lookup(s: Symbols, name: string): Option<Symbol> {
    if name in s.vars then Some(VarSymbol(s.vars[name]))
    else if name in s.sysvars then Some(SysVarSymbol(s.sysvars[name]))
    else if name in s.syscalls then Some(SyscallSymbol(s.syscalls[name]))
    else None
  }

  type Names = Symbol -> string

  /** Every symbol of the expression is found under its name. */
  predicate Named(e: Expr, names: Names, s: Symbols) {
    match e
    case Const(_) => true
    case Var(a) => Lookup(s, names(VarSymbol(a))) == Some(VarSymbol(a))
    case SysVar(a) => Lookup(s, names(SysVarSymbol(a))) == Some(SysVarSymbol(a))
    case Syscall(f) => Lookup(s, names(SyscallSymbol(f))) == Some(SyscallSymbol(f))
    case Binary(_, l, r) => Named(l, names, s) && Named(r, names, s)
    case Complement(x) => Named(x, names, s)
    case Deref(x) => Named(x, names, s)
    case AddrOf(x) => Named(x, names, s)
    case Assign(l, r) => Named(l, names, s) && Named(r, names, s)
    case Step(_, _, a) => Lookup(s, names(VarSymbol(a))) == Some(VarSymbol(a))
    case Apply(f, args) => Named(f, names, s) && forall i :: 0 <= i < |args| ==> Named(args[i], names, s)
  }

  // ----- printing -----

  function Print(e: Expr, names: Names): seq<Token>
    decreases e, 1
  {
    match e
    case Const(w) => [Number(w)]
    case Var(a) => [Identifier(names(VarSymbol(a)))]
    case SysVar(a) => [Identifier(names(SysVarSymbol(a)))]
    case Syscall(f) => [Identifier(names(SyscallSymbol(f)))]
    case Binary(op, l, r) => Print(l, names) + [OpToken(op)] + Print(r, names)
    case Complement(x) => [Tilde] + Print(x, names)
    case Deref(x) => [Star] + Print(x, names)
    case AddrOf(x) => [Ampersand] + Print(x, names)
    case Assign(l, r) => Print(l, names) + [Equals] + Print(r, names)
    case Step(prefix, op, a) =>
      var x, t := Identifier(names(VarSymbol(a))), if op == Add then Increment else Decrement;
      if prefix then [t, x] else [x, t]
    case Apply(f, args) => Print(f, names) + [LeftParen] + PrintArgs(args, names) + [RightParen]
  }

  function PrintArgs(es: seq<Expr>, names: Names): seq<Token>
    decreases es, 0
  {
    if es == [] then []
    else if |es| == 1 then Print(es[0], names)
    else Print(es[0], names) + [Comma] + PrintArgs(es[1..], names)
  }

  // ----- left spines -----

  /** The leftmost operand of a chain of level `k` operators. */
  function Base(e: Expr, k: int): Expr {
    if e.Binary? && OpLevel(e.op) == k then Base(e.l, k) else e
  }

  /** The operators of the chain with their right operands, from left to right. */
  function Ops(e: Expr, k: int): seq<(BinOp, Expr)> {
    if e.Binary? && OpLevel(e.op) == k then Ops(e.l, k) + [(e.op, e.r)] else []
  }

  /** Applies the operators in order. */
  function Fold(e: Expr, ops: seq<(BinOp, Expr)>): Expr
    decreases ops
  {
    if ops == [] then e else Fold(Binary(ops[0].0, e, ops[0].1), ops[1..])
  }

  function PrintOps(ops: seq<(BinOp, Expr)>, names: Names): seq<Token> {
    if ops == [] then [] else [OpToken(ops[0].0)] + Print(ops[0].1, names) + PrintOps(ops[1..], names)
  }

  function OpsSize(ops: seq<(BinOp, Expr)>): nat {
    if ops == [] then 0 else 1 + Size(ops[0].1) + OpsSize(ops[1..])
  }

  lemma {:induction false} FoldSnoc(e: Expr, ops: seq<(BinOp, Expr)>, op: BinOp, r: Expr, names: Names)
    ensures Fold(e, ops + [(op, r)]) == Binary(op, Fold(e, ops), r)
    ensures PrintOps(ops + [(op, r)], names) == PrintOps(ops, names) + [OpToken(op)] + Print(r, names)
    ensures OpsSize(ops + [(op, r)]) == OpsSize(ops) + 1 + Size(r)
    decreases ops
  {
    hide Print, Size;
    var all := ops + [(op, r)];
    if ops == [] {
      assert all[1..] == [];
    } else {
      assert all[1..] == ops[1..] + [(op, r)];
      FoldSnoc(Binary(ops[0].0, e, ops[0].1), ops[1..], op, r, names);
    }
  }

  /** An expression is its spine. */
  lemma {:induction false} Spine(e: Expr, k: int, names: Names)
    ensures Fold(Base(e, k), Ops(e, k)) == e
    ensures Print(Base(e, k), names) + PrintOps(Ops(e, k), names) == Print(e, names)
    ensures Size(Base(e, k)) + OpsSize(Ops(e, k)) == Size(e)
    decreases e
  {
    if e.Binary? && OpLevel(e.op) == k {
      Spine(e.l, k, names);
      FoldSnoc(Base(e, k), Ops(e.l, k), e.op, e.r, names);
    }
  }

  /** The operands on a right side: level above `k`, printable and named. */
  ghost predicate OpsReady(ops: seq<(BinOp, Expr)>, k: int, names: Names, s: Symbols) {
    forall i :: 0 <= i < |ops| ==> OpLevel(ops[i].0) == k && Level(ops[i].1) > k && Printable(ops[i].1) && Named(ops[i].1, names, s)
  }

  lemma {:induction false} SpineReady(e: Expr, k: int, names: Names, s: Symbols)
    requires Printable(e) && Named(e, names, s) && Level(e) >= k && 1 <= k <= 6
    ensures Level(Base(e, k)) > k && Printable(Base(e, k)) && Named(Base(e, k), names, s) && OpsReady(Ops(e, k), k, names, s)
    decreases e
  {
    if e.Binary? && OpLevel(e.op) == k {
      SpineReady(e.l, k, names, s);
    }
  }

  // ----- first tokens -----

  /** Printing starts with the token of the leftmost leaf or prefix operator. */
  lemma {:induction false} FirstToken(e: Expr, names: Names)
    requires Printable(e)
    ensures Print(e, names) != [] && !Print(e, names)[0].RightParen? && !Print(e, names)[0].LeftParen?
    ensures !Print(e, names)[0].Semicolon? && !Print(e, names)[0].Eof? && !Print(e, names)[0].Bad?
    ensures !Print(e, names)[0].TypeName? && !Print(e, names)[0].Unsigned?
    ensures Level(e) >= 8 ==> Print(e, names)[0].Number? || Print(e, names)[0].Identifier?
    decreases e
  {
    match e
    case Binary(_, l, _) => FirstToken(l, names);
    case Assign(l, _) => FirstToken(l, names);
    case Apply(f, _) => FirstToken(f, names);
    case _ =>
  }

  // ----- postfix chains -----

  /** What may follow a primary: `++`, `--`, or parameters in parentheses. */
  datatype Suffix = Bump(op: BinOp) | Params(args: seq<Expr>)

  function Primary(e: Expr): Expr {
    match e
    case Apply(f, _) => Primary(f)
    case Step(prefix, _, a) => if prefix then e else Var(a)
    case _ => e
  }

  function Suffixes(e: Expr): seq<Suffix> {
    match e
    case Apply(f, args) => Suffixes(f) + [Params(args)]
    case Step(prefix, op, _) => if prefix then [] else [Bump(op)]
    case _ => []
  }

  function Suffixed(e: Expr, x: Suffix): Expr {
    match x
    case Bump(op) => if e.Var? then Step(false, op, e.addr) else e
    case Params(args) => Apply(e, args)
  }

  function SuffixFold(e: Expr, xs: seq<Suffix>): Expr
    decreases xs
  {
    if xs == [] then e else SuffixFold(Suffixed(e, xs[0]), xs[1..])
  }

  function PrintSuffix(x: Suffix, names: Names): seq<Token> {
    match x
    case Bump(op) => [if op == Add then Increment else Decrement]
    case Params(args) => [LeftParen] + PrintArgs(args, names) + [RightParen]
  }

  function PrintSuffixes(xs: seq<Suffix>, names: Names): seq<Token> {
    if xs == [] then [] else PrintSuffix(xs[0], names) + PrintSuffixes(xs[1..], names)
  }

  function SuffixSize(x: Suffix): nat {
    match x
    case Bump(_) => 1
    case Params(args) => 1 + Sizes(args)
  }

  function SuffixesSize(xs: seq<Suffix>): nat {
    if xs == [] then 0 else SuffixSize(xs[0]) + SuffixesSize(xs[1..])
  }

  /** The suffixes can be applied one after the other. */
  ghost predicate SuffixesReady(e: Expr, xs: seq<Suffix>, names: Names, s: Symbols)
    decreases xs
  {
    xs == [] || (SuffixReady(e, xs[0], names, s) && SuffixesReady(Suffixed(e, xs[0]), xs[1..], names, s))
  }

  ghost predicate SuffixReady(e: Expr, x: Suffix, names: Names, s: Symbols) {
    match x
    case Bump(op) => e.Var? && (op == Add || op == Sub)
    case Params(args) => forall i :: 0 <= i < |args| ==> Printable(args[i]) && Named(args[i], names, s)
  }

  lemma {:induction false} SuffixSnoc(e: Expr, xs: seq<Suffix>, x: Suffix, names: Names, s: Symbols)
    ensures SuffixFold(e, xs + [x]) == Suffixed(SuffixFold(e, xs), x)
    ensures SuffixesReady(e, xs + [x], names, s) <==> SuffixesReady(e, xs, names, s) && SuffixReady(SuffixFold(e, xs), x, names, s)
    decreases xs
  {
    var all := xs + [x];
    if xs == [] {
      assert all[1..] == [];
    } else {
      assert all[1..] == xs[1..] + [x];
      SuffixSnoc(Suffixed(e, xs[0]), xs[1..], x, names, s);
    }
  }

  lemma {:induction false} SuffixPrintSnoc(xs: seq<Suffix>, x: Suffix, names: Names)
    ensures PrintSuffixes(xs + [x], names) == PrintSuffixes(xs, names) + PrintSuffix(x, names)
    ensures SuffixesSize(xs + [x]) == SuffixesSize(xs) + SuffixSize(x)
  {
    var all := xs + [x];
    if xs == [] {
      assert all[1..] == [];
    } else {
      assert all[1..] == xs[1..] + [x];
      SuffixPrintSnoc(xs[1..], x, names);
    }
  }

  /** A postfix expression is its primary with its suffixes. */
  ghost predicate IsSpine(e: Expr, p: Expr, xs: seq<Suffix>, names: Names, s: Symbols) {
    && SuffixFold(p, xs) == e && SuffixesReady(p, xs, names, s)
    && Print(p, names) + PrintSuffixes(xs, names) == Print(e, names) && Size(p) + SuffixesSize(xs) == Size(e)
    && Level(p) == 9 && Printable(p) && Named(p, names, s)
  }

  lemma {:induction false} PostfixSpine(e: Expr, names: Names, s: Symbols)
    requires Printable(e) && Named(e, names, s) && Level(e) >= 8
    ensures IsSpine(e, Primary(e), Suffixes(e), names, s)
    decreases e
  {
    match e
    case Apply(f, args) =>
      PostfixSpine(f, names, s);
      SpineCall(f, args, Primary(f), Suffixes(f), names, s);
    case Step(_, op, a) =>
      assert [Bump(op)][1..] == [] && PrintSuffixes([Bump(op)], names) == PrintSuffix(Bump(op), names);
    case _ =>
  }

  lemma SpineCall(f: Expr, args: seq<Expr>, p: Expr, xs: seq<Suffix>, names: Names, s: Symbols)
    requires IsSpine(f, p, xs, names, s) && SuffixReady(f, Params(args), names, s)
    ensures IsSpine(Apply(f, args), p, xs + [Params(args)], names, s)
  {
    SuffixSnoc(p, xs, Params(args), names, s);
    SuffixPrintSnoc(xs, Params(args), names);
    var a, b, c := Print(p, names), PrintSuffixes(xs, names), PrintSuffix(Params(args), names);
    Regrouped(a, b, c);
    CallPrints(f, args, names);
  }

  lemma Regrouped(a: seq<Token>, b: seq<Token>, c: seq<Token>)
    ensures a + b + c == a + (b + c)
  {
  }

  lemma CallPrints(f: Expr, args: seq<Expr>, names: Names)
    ensures Print(Apply(f, args), names) == Print(f, names) + PrintSuffix(Params(args), names)
  {
    var a, b := Print(f, names), PrintArgs(args, names);
    assert a + [LeftParen] + b + [RightParen] == a + ([LeftParen] + b + [RightParen]);
  }

  /** A line: statements, each ended by a semicolon, and the end of input. */
  function PrintProgram(es: seq<Expr>, names: Names): seq<Token> {
    if es == [] then [Eof] else Print(es[0], names) + ([Semicolon] + PrintProgram(es[1..], names))
  }
}
