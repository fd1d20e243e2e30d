/** The code generator of finsh, from the node table into the text segment. */
module FinshCodeGen {
  import opened FinshMachine
  import opened FinshSyntax
  import opened FinshCompiler
  import opened FinshCorrectness
  import opened FinshNodeTable
  import opened FinshVm

  class CodeGen {
    const table: NodeTable
    const text: array<Byte>
    var pc: nat
    var error: int

    constructor (table: NodeTable, text: array<Byte>)
      ensures this.table == table && this.text == text && error == OK
    {
      this.table := table;
      this.text := text;
      pc, error := 0, OK;
    }

    /** The text grew by `out`, and is otherwise as it was in `t`. */
    ghost predicate Grew(t: seq<Byte>, p: nat, out: seq<Byte>)
      reads this, text
    {
      && p + |out| == pc <= text.Length == |t| && text[..p] == t[..p] && text[p..pc] == out && text[pc..] == t[pc..]
    }

    method Emit(i: Instr)
      requires pc + 1 + |Operand(i)| <= text.Length
      modifies this`pc, text
      ensures Grew(old(text[..]), old(pc), Encode([i]))
    {
      var bytes := [Opcode(i)] + Operand(i);
      assert Encode([i]) == bytes by { assert [i][1..] == []; }
      hide Encode, Operand, Opcode;
      for k := 0 to |bytes|
        invariant pc == old(pc) && text[..pc] == old(text[..pc]) && text[pc..pc + k] == bytes[..k]
        invariant forall j :: pc + k <= j < text.Length ==> text[j] == old(text[j])
      {
        text[pc + k] := bytes[k];
      }
      pc := pc + |bytes|;
    }

    method EmitAll(code: seq<Instr>)
      requires pc + |Encode(code)| <= text.Length
      modifies this`pc, text
      ensures Grew(old(text[..]), old(pc), Encode(code))
      decreases code
    {
      if code != [] {
        ghost var t, p := text[..], pc;
        EncodeConcat([code[0]], code[1..]);
        assert [code[0]] + code[1..] == code;
        Emit(code[0]);
        ghost var t1, p1 := text[..], pc;
        EmitAll(code[1..]);
        GrewTwice(t, p, Encode([code[0]]), t1, p1, Encode(code[1..]), text[..], pc);
      }
    }

    /** The number of parameters of a call: the siblings of its function. */
    method Parameters(first: int, ghost n: Node) returns (k: nat)
      requires first == Ref(n) && Holds(table.nodes[..], n)
      ensures k == Chain(n)
    {
      var sibling := first;
      ghost var rest := n;
      k := 0;
      while sibling != NULL
        invariant sibling == Ref(rest) && Holds(table.nodes[..], rest) && k + Chain(rest) == Chain(n)
        decreases rest
      {
        k := k + 1;
        sibling := table.nodes[sibling].sibling;
        rest := rest.sibling;
      }
    }

    /** The switch of `finsh_compile`. */
    method OwnCode(i: int, ghost n: Node) returns (own: seq<Instr>)
      requires n.Node? && i == n.slot && Holds(table.nodes[..], n)
      modifies this`error
      ensures own == Own(n) && error == if OwnFails(n) then UNKNOWN_TYPE else old(error)
    {
      var c := table.nodes[i];
      var typed := c.dtype == DWORD;
      var child := if c.child == NULL then Cell(Unknown, VOID, false, NULL, NULL) else table.nodes[c.child];
      var onVar := child.kind.Id? && child.kind.sym.VarSymbol?;
      own := [];
      match c.kind
      case Unknown =>
      case Value(w) => own := [Ld(w)];
      case Id(sym) =>
        match sym {
          case SyscallSymbol(f) => own := [Ld(f)];
          case SysVarSymbol(a) => own := if c.addr then [Ld(a)] else [LdValue(a)];
          case VarSymbol(a) => own := if c.addr then [Ld(a)] else [LdValue(a)];
        }
      case Op(op) => if typed { own := [Bin(op)]; }
      case Bitwise => if typed { own := [Not]; }
      case GetValue => if !c.addr && typed { own := [LdStack]; }
      case GetAddr =>
      case Assignment =>
        if child.kind.Id? || child.kind.GetValue? {
          if child.dtype == DWORD { own := [St, LdStack]; } else { error := UNKNOWN_TYPE; }
        }
      case PreStep(op) =>
        if onVar && typed {
          own := [LdValue(child.kind.sym.addr), Ld(1), Bin(op), St, LdStack];
        }
      case PostStep(op) =>
        if onVar && typed {
          own := [Ld(child.kind.sym.addr), LdValue(child.kind.sym.addr), Ld(1), Bin(op), St, Pop];
        }
      case Func =>
        if c.child != NULL {
          var parameters := Parameters(child.sibling, n.child.sibling);
          own := [Call(parameters % 256)];
        }
    }

    /** `finsh_compile`. */
    method Compile(i: int, ghost n: Node)
      requires i == Ref(n) && Holds(table.nodes[..], n) && pc + |Encode(Code(n))| <= text.Length
      modifies this`pc, this`error, text
      ensures Grew(old(text[..]), old(pc), Encode(Code(n))) && error == if Fails(n) then UNKNOWN_TYPE else old(error)
      decreases n
    {
      if i == NULL {
        return;
      }
      EncodeNode(n);
      ghost var t, p := text[..], pc;
      Compile(table.nodes[i].child, n.child);
      ghost var t1, p1 := text[..], pc;
      var own := OwnCode(i, n);
      EmitAll(own);
      GrewTwice(t, p, Encode(Code(n.child)), t1, p1, Encode(Own(n)), text[..], pc);
      ghost var t2, p2 := text[..], pc;
      Compile(table.nodes[i].sibling, n.sibling);
      GrewTwice(t, p, Encode(Code(n.child)) + Encode(Own(n)), t2, p2, Encode(Code(n.sibling)), text[..], pc);
    }

    /** Compiles one statement, cut off from the ones after it. */
    method Statement(current: int, ghost rest: Node, ghost todo: seq<Expr>)
      requires rest.Node? && todo != [] && current == Ref(rest) && DenotesAll(rest, todo) && WellFormed(todo[0]) && Distinct(rest)
      requires Holds(table.nodes[..], Check(rest, false)) && pc + |Encode(ProgramCode(todo, true))| <= text.Length
      modifies this`pc, this`error, text, table.nodes
      ensures Grew(old(text[..]), old(pc), Encode(StatementCode(todo)))
      ensures Holds(table.nodes[..], Check(rest.sibling, false))
      ensures error == if BadStore(todo[0]) then UNKNOWN_TYPE else old(error)
    {
      var sibling := table.nodes[current].sibling;
      ghost var checked, t := Check(rest, false), table.nodes[..];
      assert (|todo| > 1) == (sibling != NULL) by {
        LastStatement(t, rest, todo);
      }
      CheckSlots(rest, false);
      table.nodes[current] := table.nodes[current].(sibling := NULL);
      CutHolds(t, table.nodes[..], checked);
      CutCode(rest, todo[0]);
      ghost var text0, p := text[..], pc;
      StatementSize(todo);
      Compile(current, checked.(sibling := Nil));
      if sibling != NULL {
        ghost var text1, p1 := text[..], pc;
        Emit(Pop);
        GrewTwice(text0, p, Encode(ExprCode(todo[0], true)), text1, p1, Encode([Pop]), text[..], pc);
      }
      assert Encode([]) == [];
    }

    /** `finsh_compiler_run`: type pass, then one statement after the other. */
    method Run(root: int, ghost n: Node, ghost es: seq<Expr>)
      requires root == Ref(n) && Holds(table.nodes[..], n) && Distinct(n) && DenotesAll(n, es)
      requires forall i :: 0 <= i < |es| ==> WellFormed(es[i])
      requires |Encode(ProgramCode(es, true))| <= text.Length
      modifies this`pc, this`error, text, table.nodes
      ensures Text(text[..], ProgramCode(es, true))
      ensures error == if BadStores(es) then UNKNOWN_TYPE else old(error)
    {
      table.TypeCheck(root, false, n);
      ClearText();
      pc := 0;
      var sibling := root;
      ghost var rest, todo := n, es;
      while sibling != NULL
        invariant Pending(table.nodes[..], sibling, rest, todo)
        invariant Emitted(text[..], pc, todo, es)
        invariant (if BadStores(todo) then UNKNOWN_TYPE else error) == if BadStores(es) then UNKNOWN_TYPE else old(error)
        decreases rest
      {
        var current := sibling;
        PendingNext(table.nodes[..], sibling, rest, todo);
        sibling := table.nodes[current].sibling;
        ghost var t, p := text[..], pc;
        StatementSize(todo);
        Statement(current, rest, todo);
        EmittedNext(t, p, text[..], pc, todo, es);
        rest, todo := rest.sibling, todo[1..];
      }
      assert rest == Nil && todo == [] by { PendingEnd(table.nodes[..], rest, todo); }
      EmittedAll(text[..], pc, es);
    }

    /** The `memset` of the text segment. */
    method ClearText()
      modifies text
      ensures forall j :: 0 <= j < text.Length ==> text[j] == 0
    {
      for k := 0 to text.Length
        invariant forall j :: 0 <= j < k ==> text[j] == 0
      {
        text[k] := 0;
      }
    }
  }

  /** The text holds the code of all statements but those in `todo`, and zeros after it. */
  ghost predicate Emitted(t: seq<Byte>, pc: nat, todo: seq<Expr>, es: seq<Expr>) {
    && pc <= |t| && t[..pc] + Encode(ProgramCode(todo, true)) == Encode(ProgramCode(es, true))
    && forall j :: pc <= j < |t| ==> t[j] == 0
  }

  lemma EmittedNext(t: seq<Byte>, p: nat, t': seq<Byte>, p': nat, todo: seq<Expr>, es: seq<Expr>)
    requires Emitted(t, p, todo, es) && todo != []
    requires var out := Encode(StatementCode(todo));
             p + |out| == p' <= |t'| == |t| && t'[..p] == t[..p] && t'[p..p'] == out && t'[p'..] == t[p'..]
    ensures Emitted(t', p', todo[1..], es)
  {
    StatementSize(todo);
    AppendedText(t, p, t', p', Encode(StatementCode(todo)), Encode(ProgramCode(todo[1..], true)));
  }

  lemma AppendedText(t: seq<Byte>, p: nat, t': seq<Byte>, p': nat, out: seq<Byte>, more: seq<Byte>)
    requires p + |out| == p' <= |t'| == |t| && t'[..p] == t[..p] && t'[p..p'] == out && t'[p'..] == t[p'..]
    ensures t'[..p'] + more == t[..p] + (out + more)
    ensures forall j :: p' <= j < |t| ==> t'[j] == t[j]
  {
    assert t'[..p'] == t'[..p] + t'[p..p'];
    forall j | p' <= j < |t| ensures t'[j] == t[j] {
      assert t'[j] == t'[p'..][j - p'] && t[j] == t[p'..][j - p'];
    }
  }

  lemma EmittedAll(t: seq<Byte>, p: nat, es: seq<Expr>)
    requires Emitted(t, p, [], es)
    ensures Text(t, ProgramCode(es, true))
  {
    assert Encode([]) == [] && t[..p] + [] == t[..p];
  }

  /** The statements still to be compiled. */
  ghost predicate Pending(t: seq<Cell>, i: int, rest: Node, todo: seq<Expr>) {
    && i == Ref(rest) && DenotesAll(rest, todo) && Distinct(rest) && Holds(t, Check(rest, false))
    && forall i :: 0 <= i < |todo| ==> WellFormed(todo[i])
  }

  lemma LastStatement(t: seq<Cell>, rest: Node, todo: seq<Expr>)
    requires rest.Node? && todo != [] && DenotesAll(rest, todo) && Holds(t, Check(rest, false)) && 0 <= rest.slot < |t|
    ensures |todo| > 1 <==> t[rest.slot].sibling != NULL
  {
    var s := Check(rest.sibling, false);
    assert Check(rest, false).sibling == s && Holds(t, s);
    CheckSlots(rest.sibling, false);
    assert DenotesAll(rest.sibling, todo[1..]);
    if |todo| > 1 {
      assert Denotes(rest.sibling, todo[1..][0]);
    }
  }

  lemma PendingEnd(t: seq<Cell>, rest: Node, todo: seq<Expr>)
    requires Pending(t, NULL, rest, todo)
    ensures rest == Nil && todo == []
  {
    CheckSlots(rest, false);
    var e := if todo == [] then Const(0) else todo[0];
    assert todo != [] ==> Denotes(rest, e);
  }

  lemma PendingNext(t: seq<Cell>, i: int, rest: Node, todo: seq<Expr>)
    requires Pending(t, i, rest, todo) && i != NULL
    ensures rest.Node? && todo != [] && 0 <= i < |t| && t[i].sibling == Ref(rest.sibling)
    ensures forall t' :: Holds(t', Check(rest.sibling, false)) ==> Pending(t', Ref(rest.sibling), rest.sibling, todo[1..])
  {
    CheckSlots(rest.sibling, false);
  }

  lemma EncodeNode(n: Node)
    requires n.Node?
    ensures Encode(Code(n)) == Encode(Code(n.child)) + Encode(Own(n)) + Encode(Code(n.sibling))
  {
    EncodeConcat(Code(n.child), Own(n));
    EncodeConcat(Code(n.child) + Own(n), Code(n.sibling));
  }

  /** The code of the first statement of a list. */
  function StatementCode(es: seq<Expr>): seq<Instr>
    requires es != []
  {
    ExprCode(es[0], true) + (if |es| > 1 then [Pop] else [])
  }

  lemma StatementSize(es: seq<Expr>)
    requires es != []
    ensures Encode(ProgramCode(es, true)) == Encode(StatementCode(es)) + Encode(ProgramCode(es[1..], true))
    ensures Encode(StatementCode(es)) == Encode(ExprCode(es[0], true)) + Encode(if |es| > 1 then [Pop] else [])
  {
    EncodeConcat(StatementCode(es), ProgramCode(es[1..], true));
    EncodeConcat(ExprCode(es[0], true), if |es| > 1 then [Pop] else []);
    assert ProgramCode(es, true) == StatementCode(es) + ProgramCode(es[1..], true);
  }

  /** Clearing the sibling link cuts a node off from its siblings. */
  lemma CutHolds(t: seq<Cell>, t': seq<Cell>, n: Node)
    requires n.Node? && Holds(t, n) && Distinct(n) && t' == t[n.slot := t[n.slot].(sibling := NULL)]
    ensures Holds(t', n.(sibling := Nil)) && Holds(t', n.sibling)
  {
    HoldsFrame(t, t', n.child, {n.slot});
    HoldsFrame(t, t', n.sibling, {n.slot});
  }

  lemma CutCode(n: Node, e: Expr)
    requires n.Node? && Denotes(n, e) && WellFormed(e)
    ensures Check(n, false).Node? && Code(Check(n, false).(sibling := Nil)) == ExprCode(e, true)
    ensures Fails(Check(n, false).(sibling := Nil)) <==> BadStore(e)
  {
    var cut := n.(sibling := Nil);
    assert Denotes(cut, e);
    CheckedCode(cut, e);
    CheckedFails(cut, e, false);
    assert Check(n, false).Node?;
    assert Check(cut, false) == Check(n, false).(sibling := Nil);
    assert ExprCode(e, true) + [] == ExprCode(e, true);
  }

  /** Two appends make one. */
  lemma GrewTwice(t: seq<Byte>, p: nat, a: seq<Byte>, t1: seq<Byte>, p1: nat, b: seq<Byte>, t2: seq<Byte>, p2: nat)
    requires p + |a| == p1 <= |t1| == |t| && t1[..p] == t[..p] && t1[p..p1] == a && t1[p1..] == t[p1..]
    requires p1 + |b| == p2 <= |t2| == |t1| && t2[..p1] == t1[..p1] && t2[p1..p2] == b && t2[p2..] == t1[p2..]
    ensures p + |a + b| == p2 && t2[..p] == t[..p] && t2[p..p2] == a + b && t2[p2..] == t[p2..]
  {
    assert t2[..p] == t2[..p1][..p] && t1[..p] == t1[..p1][..p];
    assert t2[p..p1] == t2[..p1][p..] && t1[p..p1] == t1[..p1][p..];
    assert t2[p..p2] == t2[p..p1] + t2[p1..p2];
    assert t1[p2..] == t1[p1..][p2 - p1..] && t[p2..] == t[p1..][p2 - p1..];
  }
}
