/** The recursive-descent parser of finsh, with its one-token replay, building trees in the node table.
    Each method takes a ghost goal: if the input starts with the goal as printed, the method reads exactly it
    and builds its tree. Nothing is demanded of other input. */
module FinshParser {
  import opened Common
  import opened FinshMachine
  import opened FinshSyntax
  import opened FinshGrammar
  import opened FinshNodeTable
  import opened FinshBuild
  import opened FinshParserSteps

  /** The pointer type to a base type; the codes are those of `enum finsh_type`. */
  function PointerTo(type_: int): int {
    match type_
    case 1 => 2
    case 3 => 5
    case 4 => 5
    case 6 => 8
    case 7 => 8
    case 9 => 11
    case 10 => 11
    case 12 => 14
    case 13 => 14
    case _ => 2
  }

  /** An error that has been set stays set. */
  predicate Sticky(before: int, after: int) { before != OK ==> after != OK }

  predicate StartsSigned(rest: seq<Token>) { rest != [] && (rest[0] == Plus || rest[0] == Minus) }

  predicate StartsType(rest: seq<Token>) { rest != [] && (rest[0].TypeName? || rest[0].Unsigned?) }

  /** Does the input start with a parenthesis and something that is not a type? */
  predicate Parenthesised(rest: seq<Token>) {
    rest != [] && rest[0] == LeftParen && !StartsType(rest[1..])
  }

  class Parser {
    const tokens: seq<Token>
    var symbols: Symbols
    /** Addresses for further variables. */
    var slots: seq<Word>
    ghost const names: Names
    const nodes: array<Cell>
    var pos: nat
    ghost var input: seq<Token>
    var replay: bool
    var current: Token
    var error: int

    constructor (tokens: seq<Token>, symbols: Symbols, slots: seq<Word>, table: NodeTable, ghost names: Names)
      ensures Valid() && this.tokens == tokens && this.symbols == symbols && this.slots == slots && this.names == names && nodes == table.nodes
      ensures Rest() == tokens && error == OK
    {
      this.tokens, this.symbols, this.slots, this.names, this.nodes := tokens, symbols, slots, names, table.nodes;
      pos, replay, current, error := 0, false, Eof, OK;
      input := tokens;
    }

    /** `input` is what is still to be read: a replayed token, then the tokens from `pos` on. */
    ghost predicate Valid()
      reads this`pos, this`input, this`replay, this`current
    {
      && pos <= |tokens| && |input| == Replayed() + |tokens| - pos && (replay ==> input[0] == current)
      && forall i {:trigger tokens[i]} :: pos <= i < |tokens| ==> input[Replayed() + i - pos] == tokens[i]
    }

    ghost function Replayed(): nat
      reads this`replay
    {
      if replay then 1 else 0
    }

    ghost function Rest(): seq<Token>
      reads this`input
    {
      input
    }

    ghost function Abs(): PState
      reads this, nodes
    {
      PState(Rest(), nodes[..], error)
    }

    ghost function Env(): Ctx
      reads this`symbols
    {
      Ctx(names, symbols)
    }

    /** How much input is left to consume. */
    ghost function Fuel(): nat
      requires Valid()
      reads this`pos, this`input, this`replay, this`current
    {
      |tokens| - pos + if replay && current != Eof then 1 else 0
    }

    /** Is there a token left? */
    ghost predicate Hungry()
      requires Valid()
      reads this`pos, this`input, this`replay, this`current
    {
      Rest() != [] && Rest()[0] != Eof
    }

    ghost predicate Link(r: int) { -1 <= r < nodes.Length }

    /** `finsh_token_token`. */
    method Next() returns (t: Token)
      requires Valid()
      modifies this`pos, this`input, this`replay, this`current
      ensures Valid() && !replay && current == t && Shifted(old(Abs()), t, Abs())
      ensures Fuel() <= old(Fuel()) && (t != Eof ==> Fuel() < old(Fuel()))
    {
      if replay {
        replay := false;
      } else if pos < |tokens| {
        current := tokens[pos];
        pos := pos + 1;
      } else {
        current := Eof;
      }
      input := if input == [] then [] else input[1..];
      t := current;
    }

    /** `finsh_token_replay`. */
    method Replay()
      requires Valid()
      modifies this`replay, this`input
      ensures Valid() && Abs() == if old(replay) then old(Abs()) else old(Abs()).(rest := [current] + old(Rest()))
      ensures Fuel() <= old(Fuel()) + (if current == Eof then 0 else 1)
    {
      if !replay {
        replay, input := true, [current] + input;
      }
    }

    /** `match_token`: reads a token, and puts it back with an error if it is not the expected one. */
    method Match(want: Token)
      requires Valid()
      modifies this`pos, this`input, this`replay, this`current, this`error
      ensures Sticky(old(error), error)
      ensures Valid() && Fuel() <= old(Fuel())
      ensures old(Rest()) != [] && old(Rest())[0] == want ==> Shifted(old(Abs()), want, Abs())
    {
      hide Valid, Fuel;
      var t := Next();
      if t != want {
        Refuse(INVALID_TOKEN);
      }
    }

    /** `finsh_node_allocate`: the first free entry. */
    method Allocate(kind: Kind) returns (r: int)
      modifies nodes
      ensures Link(r)
      ensures r == NULL ==> nodes[..] == old(nodes[..]) && forall i :: 0 <= i < nodes.Length ==> nodes[i].kind != Unknown
      ensures r != NULL ==> forall i :: 0 <= i < r ==> old(nodes[i].kind) != Unknown
      ensures r != NULL ==> old(nodes[r].kind) == Unknown && nodes[..] == old(nodes[..])[r := old(nodes[r]).(kind := kind)]
    {
      var i := 0;
      while i < nodes.Length && nodes[i].kind != Unknown
        invariant 0 <= i <= nodes.Length && forall j :: 0 <= j < i ==> nodes[j].kind != Unknown
      {
        i := i + 1;
      }
      if i == nodes.Length {
        return NULL;
      }
      nodes[i] := nodes[i].(kind := kind);
      r := i;
    }

    /** The constructors of leaf nodes. */
    method NewLeaf(kind: Kind) returns (r: int, ghost n: Node)
      requires Valid()
      modifies nodes, this`error
      ensures Sticky(old(error), error)
      ensures Valid() && Link(r) && Rest() == old(Rest()) && Fuel() == old(Fuel())
      ensures kind != Unknown && old(HasRoom(Abs())) ==> LeafMade(old(Abs()), Abs(), kind, r, n)
    {
      hide Valid, Fuel;
      ghost var t := nodes[..];
      r := Allocate(kind);
      n := Node(r, kind, VOID, false, Nil, Nil);
      if r == NULL {
        FreeExists(t);
        error := MEMORY_FULL;
      } else if Clean(t) && kind != Unknown {
        assert t[r] == BLANK;
        PlantLeaf(t, r, kind);
      }
    }

    /** `finsh_node_new_id`: a shell variable, else a system variable, else a system call. */
    method NewId(name: string) returns (r: int, ghost n: Node)
      requires Valid()
      modifies nodes, this`error
      ensures Sticky(old(error), error)
      ensures Valid() && Link(r) && Rest() == old(Rest()) && Fuel() == old(Fuel())
      ensures Lookup(symbols, name).Some? && old(HasRoom(Abs())) ==>
        LeafMade(old(Abs()), Abs(), Id(Lookup(symbols, name).value), r, n)
    {
      hide Valid, Fuel, HasRoom, LeafMade;
      n := Nil;
      match Lookup(symbols, name)
      case Some(sym) =>
        r, n := NewLeaf(Id(sym));
      case None =>
        error := UNKNOWN_SYMBOL;
        r := NULL;
    }

    /** `make_sys_node`. */
    method MakeSysNode(kind: Kind, r1: int, r2: int, ghost n1: Node, ghost n2: Node) returns (r: int)
      requires Valid() && Link(r1) && Link(r2)
      modifies nodes, this`error
      ensures Sticky(old(error), error)
      ensures Valid() && Link(r) && Rest() == old(Rest()) && Fuel() == old(Fuel())
      ensures kind != Unknown && Clean(old(nodes[..])) && 0 < Free(old(nodes[..])) && n1.Node? && r1 == Ref(n1) && r2 == Ref(n2) && 0 <= r1
              && old(nodes[..])[r1].kind != Unknown
              ==> Made(old(Abs()), Abs(), kind, n1, n2, r)
    {
      hide Valid, Fuel;
      ghost var t := nodes[..];
      r := Allocate(kind);
      if r == NULL {
        FreeExists(t);
      }
      if r1 != NULL && r != NULL {
        nodes[r] := nodes[r].(child := r1);
        nodes[r1] := nodes[r1].(sibling := r2);
      } else {
        error := NULL_NODE;
      }
    }
  
    /** The six binary levels, `proc_inclusive_or_expr` (1) to `proc_multiplicative_expr` (6). */
    method ProcBinary(k: int, ghost goal: Goal) returns (r: int, ghost n: Node)
      requires Valid() && 1 <= k <= 6
      modifies this`pos, this`input, this`replay, this`current, this`error, nodes
      ensures Sticky(old(error), error)
      ensures Parenthesised(old(Rest())) ==> error != OK
      ensures Valid() && Link(r) && Fuel() <= old(Fuel()) && (old(Hungry()) ==> Fuel() < old(Fuel()))
      ensures old(Ready(Abs(), Env(), goal, k)) ==> Built(old(Abs()), Abs(), goal, r, n)
      decreases Fuel(), 20 - k, 1
    {
      hide Valid, Fuel, Ready, InLoop, Grew;
      ghost var s0, g := Abs(), Env();
      ghost var wanted := Ready(s0, g, goal, k);
      ghost var first, done, todo := NoGoal, Const(0), [];
      if wanted {
        BaseReady(s0, g, goal, k);
        done, todo := Base(goal.e, k), Ops(goal.e, k);
        first := Goal(done, PrintOps(todo, names) + goal.rest);
      }
      r, n := Operand(k, first);
      ghost var s1 := Abs();
      var t := Next();
      if wanted {
        LoopStart(s0, s1, Abs(), t, g, goal, k, r, n);
      }
      r, n := BinaryLoop(k, t, r, n, s0, goal, done, todo, wanted);
    }

    /** The loop of a binary level. */
    method BinaryLoop(k: int, t0: Token, r0: int, ghost n0: Node, ghost s0: PState, ghost goal: Goal, ghost done0: Expr, ghost todo0: seq<(BinOp, Expr)>, ghost wanted: bool)
      returns (r: int, ghost n: Node)
      requires Valid() && Link(r0) && 1 <= k <= 6 && !replay && current == t0
      requires wanted ==> InLoop(s0, Abs(), t0, Env(), goal, k, done0, todo0, r0, n0)
      modifies this`pos, this`input, this`replay, this`current, this`error, nodes
      ensures Sticky(old(error), error)
      ensures Valid() && Link(r) && Fuel() <= old(Fuel()) + (if t0 == Eof then 0 else 1)
      ensures wanted ==> Built(s0, Abs(), goal, r, n)
      decreases Fuel() + (if t0 == Eof then 0 else 1), 7
    {
      hide Valid, Fuel, InLoop, Grew;
      ghost var f := Fuel() + (if t0 == Eof then 0 else 1);
      ghost var done, todo := done0, todo0;
      var t := t0;
      r, n := r0, n0;
      while TokenLevel(t) == k
        invariant Valid() && Link(r) && !replay && current == t && Fuel() + (if t == Eof then 0 else 1) <= f
        invariant Sticky(old(error), error)
        invariant wanted ==> InLoop(s0, Abs(), t, Env(), goal, k, done, todo, r, n)
        decreases Fuel() + (if t == Eof then 0 else 1)
      {
        r, n, t, done, todo := BinaryRound(k, t, r, n, s0, goal, done, todo, wanted);
      }
      if wanted {
        LoopEnd(s0, Abs(), t, Env(), goal, k, done, todo, r, n);
      }
      Replay();
    }

    /** The operand of a binary level: the next level, or a cast expression. */
    method Operand(k: int, ghost goal: Goal) returns (r: int, ghost n: Node)
      requires Valid() && 1 <= k <= 6
      modifies this`pos, this`input, this`replay, this`current, this`error, nodes
      ensures Sticky(old(error), error)
      ensures Parenthesised(old(Rest())) ==> error != OK
      ensures Valid() && Link(r) && Fuel() <= old(Fuel()) && (old(Hungry()) ==> Fuel() < old(Fuel()))
      ensures old(Ready(Abs(), Env(), goal, k + 1)) ==> Built(old(Abs()), Abs(), goal, r, n)
      decreases Fuel(), 20 - k, 0
    {
      hide Valid, Fuel, Ready, Grew;
      if k < 6 {
        r, n := ProcBinary(k + 1, goal);
      } else {
        r, n := ProcCast(goal);
      }
    }

    /** One round of the loop of a binary level: the right operand, the operator node, the next token. */
    method BinaryRound(k: int, t: Token, r0: int, ghost n0: Node, ghost s0: PState, ghost goal: Goal, ghost done0: Expr, ghost todo0: seq<(BinOp, Expr)>, ghost wanted: bool)
      returns (r: int, ghost n: Node, t': Token, ghost done: Expr, ghost todo: seq<(BinOp, Expr)>)
      requires Valid() && Link(r0) && 1 <= k <= 6 && TokenLevel(t) == k
      requires wanted ==> InLoop(s0, Abs(), t, Env(), goal, k, done0, todo0, r0, n0)
      modifies this`pos, this`input, this`replay, this`current, this`error, nodes
      ensures Sticky(old(error), error)
      ensures Valid() && Link(r) && Fuel() <= old(Fuel()) && !replay && current == t' && (t' != Eof ==> Fuel() < old(Fuel()))
      ensures wanted ==> InLoop(s0, Abs(), t', Env(), goal, k, done, todo, r, n)
      decreases Fuel(), 20 - k, 1
    {
      hide Valid, Fuel, Ready, InLoop, Grew, Made;
      ghost var s, g := Abs(), Env();
      ghost var next := NoGoal;
      if wanted {
        LoopOperand(s0, s, t, g, goal, k, done0, todo0, r0, n0);
        next := Goal(todo0[0].1, PrintOps(todo0[1..], names) + goal.rest);
      }
      var r2;
      ghost var n2;
      r2, n2 := Operand(k, next);
      ghost var s1 := Abs();
      if wanted {
        LoopRoom(s0, s, t, g, goal, k, done0, todo0, r0, n0, s1, next, r2, n2);
      }
      r, n, done, todo := r0, n0, done0, todo0;
      if r2 == NULL {
        error := EXPECT_OPERATOR;
      } else {
        r := MakeSysNode(Op(OpOf(t)), r0, r2, n0, n2);
      }
      ghost var s2 := Abs();
      t' := Next();
      if wanted {
        LoopJoin(s0, s, t, g, goal, k, done0, todo0, r0, n0, s1, r2, n2, s2, r, t', Abs());
        n := Joined(r, Op(todo0[0].0), n0, n2);
        done, todo := Binary(todo0[0].0, done0, todo0[0].1), todo0[1..];
      }
    }

    /** `proc_assign_expr`. */
    method ProcAssign(ghost goal: Goal) returns (r: int, ghost n: Node)
      requires Valid()
      modifies this`pos, this`input, this`replay, this`current, this`error, nodes
      ensures Sticky(old(error), error)
      ensures Parenthesised(old(Rest())) ==> error != OK
      ensures Valid() && Link(r) && Fuel() <= old(Fuel()) && (old(Hungry()) ==> Fuel() < old(Fuel()))
      ensures old(Ready(Abs(), Env(), goal, 0)) ==> Built(old(Abs()), Abs(), goal, r, n)
      decreases Fuel(), 20
    {
      hide Valid, Fuel, Ready, Grew;
      ghost var s0, g := Abs(), Env();
      ghost var wanted := Ready(s0, g, goal, 0);
      ghost var left, right := NoGoal, NoGoal;
      if wanted {
        AssignLeft(s0, g, goal);
        left := goal;
        if goal.e.Assign? {
          left := Goal(goal.e.l, [Equals] + Print(goal.e.r, names) + goal.rest);
          right := Goal(goal.e.r, goal.rest);
        }
      }
      r, n := ProcBinary(1, left);
      ghost var s1 := Abs();
      var t := Next();
      ghost var s2 := Abs();
      if wanted && goal.e.Assign? {
        AssignRight(s0, g, goal, s1, r, n, t, s2);
      }
      if t == Equals {
        r, n := AssignTail(r, n, goal, right, s0, s1, wanted);
        return;
      }
      if wanted {
        PutBack(s1, t, s2);
      }
      Replay();
    }

    /** What follows the `=`, and the assignment's node. */
    method AssignTail(r1: int, ghost n1: Node, ghost goal: Goal, ghost right: Goal, ghost s0: PState, ghost s1: PState, ghost wanted: bool)
      returns (r: int, ghost n: Node)
      requires Valid() && Link(r1)
      requires wanted ==> Ready(s0, Env(), goal, 0) && goal.e.Assign? && right == Goal(goal.e.r, goal.rest) && Ready(Abs(), Env(), right, 0)
      requires wanted ==> Built(s0, s1, Goal(goal.e.l, [Equals] + Print(goal.e.r, names) + goal.rest), r1, n1) && Shifted(s1, Equals, Abs())
      modifies this`pos, this`input, this`replay, this`current, this`error, nodes
      ensures Sticky(old(error), error)
      ensures Valid() && Link(r) && Fuel() <= old(Fuel())
      ensures wanted ==> Built(s0, Abs(), goal, r, n)
      decreases Fuel(), 21
    {
      hide Valid, Fuel;
      ghost var s2, g := Abs(), Env();
      var r2;
      ghost var n2;
      r2, n2 := ProcAssign(right);
      ghost var s3 := Abs();
      if wanted {
        AssignRoom(s0, goal, s1, r1, n1, s2, s3, r2, n2);
      }
      r := MakeSysNode(Assignment, r1, r2, n1, n2);
      n := Nil;
      if wanted {
        AssignDone(s0, g, goal, s1, r1, n1, Equals, s2, s3, r2, n2, Abs(), r);
        n := Joined(r, Assignment, n1, n2);
      }
    }

    /** The base type of `proc_type`. */
    method BaseType() returns (type_: int, known: bool)
      requires Valid()
      modifies this`pos, this`input, this`replay, this`current, this`error
      ensures Sticky(old(error), error)
      ensures Valid() && Fuel() <= old(Fuel())
      ensures if StartsType(old(Rest())) then Fuel() < old(Fuel()) else error != OK
      ensures old(Rest()) != [] && old(Rest())[0].TypeName? ==> known && Shifted(old(Abs()), old(Rest())[0], Abs())
    {
      hide Valid, Fuel;
      type_, known := 0, true;
      var t := Next();
      if t.TypeName? {
        type_ := t.type_;
      } else if t == Unsigned {
        type_, known := UnsignedType();
      } else {
        Refuse(UNKNOWN_TYPE);
        known := false;
      }
    }

    /** Puts the token just read back and sets the error. */
    method Refuse(code: int)
      requires Valid() && code != OK
      modifies this`replay, this`input, this`error
      ensures Sticky(old(error), error)
      ensures Valid() && Fuel() <= old(Fuel()) + (if current == Eof then 0 else 1) && error == code
    {
      hide Valid, Fuel;
      Replay();
      error := code;
    }

    /** What follows `unsigned` in `proc_type`. */
    method UnsignedType() returns (type_: int, known: bool)
      requires Valid()
      modifies this`pos, this`input, this`replay, this`current, this`error
      ensures Sticky(old(error), error)
      ensures Valid() && Fuel() <= old(Fuel())
    {
      hide Valid, Fuel;
      type_, known := 0, true;
      var t := Next();
      if t.TypeName? && t.type_ != 1 {
        type_ := t.type_ + 1;
      } else {
        known := !t.TypeName?;
        Refuse(if known then EXPECT_TYPE else UNKNOWN_TYPE);
      }
    }

    /** `proc_type`: a type name, possibly unsigned, possibly a pointer; its code is stored by casts. */
    method ProcType() returns (type_: int)
      requires Valid()
      modifies this`pos, this`input, this`replay, this`current, this`error
      ensures Sticky(old(error), error)
      ensures Valid() && Fuel() <= old(Fuel())
      ensures if StartsType(old(Rest())) then Fuel() < old(Fuel()) else error != OK
      ensures |old(Rest())| >= 2 && old(Rest())[0].TypeName? && old(Rest())[1] != Star ==> Abs() == old(Abs()).(rest := old(Rest())[1..])
    {
      hide Valid, Fuel;
      var known;
      type_, known := BaseType();
      if !known {
        return;
      }
      var t := Next();
      if t == Star {
        type_ := PointerTo(type_);
      } else {
        Replay();
      }
    }

    /** `proc_cast_expr`: a leading parenthesis is always taken for a cast. */
    method ProcCast(ghost goal: Goal) returns (r: int, ghost n: Node)
      requires Valid()
      modifies this`pos, this`input, this`replay, this`current, this`error, nodes
      ensures Sticky(old(error), error)
      ensures Parenthesised(old(Rest())) ==> error != OK
      ensures Valid() && Link(r) && Fuel() <= old(Fuel()) && (old(Hungry()) ==> Fuel() < old(Fuel()))
      ensures old(Ready(Abs(), Env(), goal, 7)) ==> Built(old(Abs()), Abs(), goal, r, n)
      decreases Fuel(), 10
    {
      hide Ready, Grew;
      ghost var s0, g := Abs(), Env();
      ghost var wanted := Ready(s0, g, goal, 7);
      var t := Next();
      if wanted {
        UnaryReady(s0, g, goal, t, Abs());
        PutBack(s0, t, Abs());
      }
      if t == LeftParen {
        r := Casted();
        n := Nil;
        if r != NULL {
          return;
        }
      }
      Replay();
      assert wanted ==> Abs() == s0;
      r, n := ProcUnary(if wanted then goal else NoGoal, NoGoal);
    }

    /** What follows the parenthesis of a cast: the type, and the operand that gets it. */
    method Casted() returns (r: int)
      requires Valid()
      modifies this`pos, this`input, this`replay, this`current, this`error, nodes
      ensures Sticky(old(error), error)
      ensures !StartsType(old(Rest())) ==> error != OK
      ensures Valid() && Link(r) && Fuel() <= old(Fuel())
      decreases Fuel(), 11
    {
      hide Valid, Fuel;
      var type_ := ProcType();
      Match(RightParen);
      ghost var n;
      r, n := ProcCast(NoGoal);
      if r != NULL {
        nodes[r] := nodes[r].(dtype := type_);
      }
    }

    /** `proc_unary_expr`. */
    method ProcUnary(ghost goal: Goal, ghost signed: Goal) returns (r: int, ghost n: Node)
      requires Valid()
      modifies this`pos, this`input, this`replay, this`current, this`error, nodes
      ensures Sticky(old(error), error)
      ensures Valid() && Link(r) && Fuel() <= old(Fuel()) && (old(Hungry()) ==> Fuel() < old(Fuel()))
      ensures old(Ready(Abs(), Env(), goal, 7)) ==> Built(old(Abs()), Abs(), goal, r, n)
      ensures StartsSigned(old(Rest())) && SignReady(old(Abs()).(rest := old(Rest())[1..]), Env(), signed) ==>
        Rest() == signed.rest && Grew(old(Abs()), Abs(), SignedExpr(old(Rest())[0], signed.e), r, n)
      decreases Fuel(), 9
    {
      hide Valid, Fuel, Ready;
      ghost var s0, g := Abs(), Env();
      ghost var wanted := Ready(s0, g, goal, 7);
      var t := Next();
      ghost var s1 := Abs();
      ghost var inner := NoGoal;
      if wanted {
        UnaryReady(s0, g, goal, t, s1);
        PutBack(s0, t, s1);
        inner := Goal(PrefixOperand(goal.e), goal.rest);
      }
      n := Nil;
      if t == Plus || t == Minus {
        r, n := Signed(t, signed);
      } else if PrefixOf(t) != Unknown {
        r, n := Prefixed(PrefixOf(t), goal, t, s0, inner, wanted);
      } else {
        Replay();
        r, n := ProcPostfix(goal);
      }
    }

    /** A sign: `+` adds nothing, `-` subtracts from zero. */
    method Signed(t: Token, ghost signed: Goal) returns (r: int, ghost n: Node)
      requires Valid()
      modifies this`pos, this`input, this`replay, this`current, this`error, nodes
      ensures Sticky(old(error), error)
      ensures Valid() && Link(r) && Fuel() <= old(Fuel())
      ensures old(SignReady(Abs(), Env(), signed)) ==> Rest() == signed.rest && Grew(old(Abs()), Abs(), SignedExpr(t, signed.e), r, n)
      decreases Fuel(), 11
    {
      hide Valid, Fuel;
      ghost var s0, wanted := Abs(), SignReady(Abs(), Env(), signed);
      r, n := ProcCast(signed);
      if t == Minus {
        r, n := Subtracted(r, n, s0, signed, wanted);
      }
    }

    /** The node of a subtraction from zero. */
    method Subtracted(x: int, ghost nx: Node, ghost s0: PState, ghost signed: Goal, ghost wanted: bool) returns (r: int, ghost n: Node)
      requires Valid() && Link(x)
      requires wanted ==> SignReady(s0, Env(), signed) && Built(s0, Abs(), signed, x, nx)
      modifies nodes, this`error
      ensures Sticky(old(error), error)
      ensures Valid() && Link(r) && Fuel() == old(Fuel()) && Rest() == old(Rest())
      ensures wanted ==> Grew(s0, Abs(), Binary(Sub, Const(0), signed.e), r, n)
    {
      hide Valid, Fuel;
      ghost var s1 := Abs();
      var zero;
      ghost var nz;
      if wanted {
        GrewUsed(s0, s1, signed.e, x, nx);
      }
      zero, nz := NewLeaf(Value(0));
      ghost var s2 := Abs();
      if wanted {
        LeafGrew(s1, s2, Const(0), zero, nz);
        SwappedRoom(s0, s1, s2, Const(0), signed.e, zero, nz, x, nx);
      }
      r := MakeSysNode(Op(Sub), zero, x, nz, nx);
      n := Nil;
      if wanted {
        JoinSwapped(s0, s1, s2, Abs(), Const(0), signed.e, Binary(Sub, Const(0), signed.e), zero, nz, x, nx, Op(Sub), r);
        n := Joined(r, Op(Sub), nz, nx);
      }
    }

    /** A prefix operator: its operand, then a node above it. */
    method Prefixed(kind: Kind, ghost goal: Goal, ghost t: Token, ghost s0: PState, ghost inner: Goal, ghost wanted: bool) returns (r: int, ghost n: Node)
      requires Valid()
      requires wanted ==> Ready(s0, Env(), goal, 7) && Level(goal.e) == 7 && Shifted(s0, t, Abs()) && kind == PrefixKind(goal.e)
      requires wanted ==> inner == Goal(PrefixOperand(goal.e), goal.rest) && Ready(Abs(), Env(), inner, 7)
      modifies this`pos, this`input, this`replay, this`current, this`error, nodes
      ensures Sticky(old(error), error)
      ensures Valid() && Link(r) && Fuel() <= old(Fuel())
      ensures wanted ==> Built(s0, Abs(), goal, r, n)
      decreases Fuel(), 11
    {
      hide Valid, Fuel;
      ghost var s1 := Abs();
      var x;
      x, n := ProcCast(inner);
      ghost var s2, n1 := Abs(), n;
      if wanted {
        UnaryRoom(s0, Env(), goal, t, s1, s2, x, n1);
      }
      r := MakeSysNode(kind, x, NULL, n1, Nil);
      if wanted {
        UnaryDone(s0, Env(), goal, t, s1, s2, x, n1, Abs(), r);
        n := Joined(r, kind, n1, Nil);
      }
    }

    /** `proc_postfix_expr`. */
    method ProcPostfix(ghost goal: Goal) returns (r: int, ghost n: Node)
      requires Valid()
      modifies this`pos, this`input, this`replay, this`current, this`error, nodes
      ensures Sticky(old(error), error)
      ensures Valid() && Link(r) && Fuel() <= old(Fuel()) && (old(Hungry()) ==> Fuel() < old(Fuel()))
      ensures old(Ready(Abs(), Env(), goal, 8)) ==> Built(old(Abs()), Abs(), goal, r, n)
      decreases Fuel(), 8
    {
      hide Valid, Fuel, InPostfix, Ready, Grew;
      ghost var s0, g := Abs(), Env();
      ghost var wanted := Ready(s0, g, goal, 8);
      r, n := ProcPrimary(goal);
      ghost var s1 := Abs();
      var t := Next();
      ghost var done, todo := Const(0), [];
      if wanted {
        PostfixStart(s0, s1, t, Abs(), g, goal, r, n);
        done, todo := Primary(goal.e), Suffixes(goal.e);
      }
      r, n := PostfixLoop(t, r, n, s0, goal, done, todo, wanted);
    }

    /** The loop of `proc_postfix_expr`. */
    method PostfixLoop(t0: Token, r0: int, ghost n0: Node, ghost s0: PState, ghost goal: Goal, ghost done0: Expr, ghost todo0: seq<Suffix>, ghost wanted: bool)
      returns (r: int, ghost n: Node)
      requires Valid() && Link(r0) && !replay && current == t0
      requires wanted ==> InPostfix(s0, Abs(), t0, Env(), goal, done0, todo0, r0, n0)
      modifies this`pos, this`input, this`replay, this`current, this`error, nodes
      ensures Sticky(old(error), error)
      ensures Valid() && Link(r) && Fuel() <= old(Fuel()) + (if t0 == Eof then 0 else 1)
      ensures wanted ==> Built(s0, Abs(), goal, r, n)
      decreases Fuel() + (if t0 == Eof then 0 else 1), 7
    {
      hide Valid, Fuel, InPostfix, Grew;
      ghost var f := Fuel() + (if t0 == Eof then 0 else 1);
      ghost var done, todo := done0, todo0;
      var t := t0;
      r, n := r0, n0;
      while TokenLevel(t) == 8
        invariant Valid() && Link(r) && !replay && current == t && Fuel() + (if t == Eof then 0 else 1) <= f
        invariant Sticky(old(error), error)
        invariant wanted ==> InPostfix(s0, Abs(), t, Env(), goal, done, todo, r, n)
        decreases Fuel() + (if t == Eof then 0 else 1)
      {
        r, n, t, done, todo := PostfixRound(t, r, n, s0, goal, done, todo, wanted);
      }
      if wanted {
        PostfixEnd(s0, Abs(), t, Env(), goal, done, todo, r, n);
      }
      Replay();
    }

    /** One round of the loop of `proc_postfix_expr`. */
    method PostfixRound(t: Token, r0: int, ghost n0: Node, ghost s0: PState, ghost goal: Goal, ghost done0: Expr, ghost todo0: seq<Suffix>, ghost wanted: bool)
      returns (r: int, ghost n: Node, t': Token, ghost done: Expr, ghost todo: seq<Suffix>)
      requires Valid() && Link(r0) && TokenLevel(t) == 8
      requires wanted ==> InPostfix(s0, Abs(), t, Env(), goal, done0, todo0, r0, n0)
      modifies this`pos, this`input, this`replay, this`current, this`error, nodes
      ensures Sticky(old(error), error)
      ensures Valid() && Link(r) && Fuel() <= old(Fuel()) && !replay && current == t' && (t' != Eof ==> Fuel() < old(Fuel()))
      ensures wanted ==> InPostfix(s0, Abs(), t', Env(), goal, done, todo, r, n)
      decreases Fuel(), 30
    {
      hide Valid, Fuel, InPostfix, Grew;
      ghost var s, g := Abs(), Env();
      if t == LeftParen {
        r, n := CallSuffix(r0, n0, s0, goal, done0, todo0, wanted);
      } else {
        r, n := BumpSuffix(t, r0, n0, s0, goal, done0, todo0, wanted);
      }
      ghost var s1 := Abs();
      t' := Next();
      done, todo := done0, todo0;
      if wanted {
        PostfixStep(s0, s, t, g, goal, done0, todo0, r0, n0, s1, r, n, t', Abs());
        done, todo := Suffixed(done0, todo0[0]), todo0[1..];
      }
    }

    /** The node of a `++` or `--` behind its operand. */
    method BumpSuffix(t: Token, r0: int, ghost n0: Node, ghost s0: PState, ghost goal: Goal, ghost done: Expr, ghost todo: seq<Suffix>, ghost wanted: bool)
      returns (r: int, ghost n: Node)
      requires Valid() && Link(r0) && (t == Increment || t == Decrement)
      requires wanted ==> InPostfix(s0, Abs(), t, Env(), goal, done, todo, r0, n0)
      modifies this`error, nodes
      ensures Sticky(old(error), error)
      ensures Valid() && Link(r) && Fuel() == old(Fuel())
      ensures wanted ==> todo != [] && Grew(s0, Abs(), Suffixed(done, todo[0]), r, n) && Rest() == PrintSuffixes(todo[1..], names) + goal.rest
    {
      hide Valid, Fuel;
      ghost var s, g := Abs(), Env();
      if wanted {
        PostfixRoom(s0, s, t, g, goal, done, todo, r0, n0);
      }
      var kind := if t == Increment then PostStep(Add) else PostStep(Sub);
      r := MakeSysNode(kind, r0, NULL, n0, Nil);
      n := Nil;
      if wanted {
        BumpDone(s0, s, t, g, goal, done, todo, r0, n0, Abs(), r);
        n := Joined(r, kind, n0, Nil);
      }
    }

    /** The parameters of a call, and its node. */
    method CallSuffix(r0: int, ghost n0: Node, ghost s0: PState, ghost goal: Goal, ghost done: Expr, ghost todo: seq<Suffix>, ghost wanted: bool)
      returns (r: int, ghost n: Node)
      requires Valid() && Link(r0)
      requires wanted ==> InPostfix(s0, Abs(), LeftParen, Env(), goal, done, todo, r0, n0)
      modifies this`pos, this`input, this`replay, this`current, this`error, nodes
      ensures Sticky(old(error), error)
      ensures Valid() && Link(r) && Fuel() <= old(Fuel())
      ensures wanted ==> todo != [] && Grew(s0, Abs(), Suffixed(done, todo[0]), r, n) && Rest() == PrintSuffixes(todo[1..], names) + goal.rest
      decreases Fuel(), 25
    {
      hide Valid, Fuel, InPostfix, ListReady, Grew;
      ghost var s, g := Abs(), Env();
      var t := Next();
      ghost var list := NoList;
      if wanted {
        ParamsReady(s0, s, LeftParen, g, goal, done, todo, r0, n0, t, Abs());
        list := ListGoal(todo[0].args, Closing(todo[1..], goal.rest, names));
      }
      if t != RightParen {
        Replay();
        r, n := CallParams(r0, n0, s0, s, done, list, wanted);
      } else {
        r, n := CallNone(r0, n0, s0, s, done, wanted);
      }
    }

    /** A call with parameters. */
    method CallParams(r0: int, ghost n0: Node, ghost s0: PState, ghost s: PState, ghost f: Expr, ghost list: ListGoal, ghost wanted: bool)
      returns (r: int, ghost n: Node)
      requires Valid() && Link(r0)
      requires wanted ==> s == Abs() && Grew(s0, s, f, r0, n0) && ListReady(s, Env(), list) && list.rest[0] == RightParen
      requires wanted ==> 1 + Sizes(list.es) <= Free(s.nodes)
      modifies this`pos, this`input, this`replay, this`current, this`error, nodes
      ensures Sticky(old(error), error)
      ensures Valid() && Link(r) && Fuel() <= old(Fuel())
      ensures wanted ==> Grew(s0, Abs(), Apply(f, list.es), r, n) && Rest() == list.rest[1..]
      decreases Fuel(), 24
    {
      hide Valid, Fuel, Grew, GrewAll;
      var params;
      ghost var np;
      params, np := ProcParamList(list);
      ghost var s1 := Abs();
      Match(RightParen);
      ghost var s2 := Abs();
      if wanted {
        CallRoom(s0, s, f, r0, n0, s1, list.es, params, np);
      }
      r := MakeSysNode(Func, r0, params, n0, np);
      n := Nil;
      if wanted {
        CallDone(s0, s, f, r0, n0, s1, list.es, params, np, s2, Abs(), r);
        n := Joined(r, Func, n0, np);
      }
    }

    /** A call without parameters. */
    method CallNone(r0: int, ghost n0: Node, ghost s0: PState, ghost s: PState, ghost f: Expr, ghost wanted: bool) returns (r: int, ghost n: Node)
      requires Valid() && Link(r0)
      requires wanted ==> s.nodes == nodes[..] && s.error == error && Grew(s0, s, f, r0, n0) && 1 <= Free(s.nodes)
      modifies nodes, this`error
      ensures Sticky(old(error), error)
      ensures Valid() && Link(r) && Fuel() == old(Fuel()) && Rest() == old(Rest())
      ensures wanted ==> Grew(s0, Abs(), Apply(f, []), r, n)
    {
      hide Valid, Fuel;
      ghost var s1 := Abs();
      if wanted {
        GrewUsed(s0, s, f, r0, n0);
      }
      r := MakeSysNode(Func, r0, NULL, n0, Nil);
      n := Nil;
      if wanted {
        JoinOne(s0, s1, Abs(), f, Apply(f, []), r0, n0, Func, r);
        n := Joined(r, Func, n0, Nil);
      }
    }

    /** `proc_primary_expr`. */
    method ProcPrimary(ghost goal: Goal) returns (r: int, ghost n: Node)
      requires Valid()
      modifies this`pos, this`input, this`replay, this`current, this`error, nodes
      ensures Sticky(old(error), error)
      ensures Valid() && Link(r) && Fuel() <= old(Fuel()) && (old(Hungry()) ==> Fuel() < old(Fuel()))
      ensures old(Ready(Abs(), Env(), goal, 8)) ==>
        Grew(old(Abs()), Abs(), Primary(goal.e), r, n) && Rest() == PrintSuffixes(Suffixes(goal.e), names) + goal.rest
      decreases Fuel(), 7
    {
      hide Valid, Fuel, Ready, Grew, LeafToken;
      ghost var s0, g := Abs(), Env();
      ghost var wanted := Ready(s0, g, goal, 8);
      var t := Next();
      if wanted {
        PrimaryReady(s0, g, goal, t, Abs());
      }
      ghost var s1 := Abs();
      if t == LeftParen {
        r, n := ProcAssign(NoGoal);
        Match(RightParen);
      } else {
        r, n := Leaf(t, if wanted then Primary(goal.e) else Const(0));
        if wanted {
          GrewRest(s1, Abs(), s0, Abs(), Primary(goal.e), r, n);
        }
      }
    }

    /** The node of a name or a literal. */
    method Leaf(t: Token, ghost e: Expr) returns (r: int, ghost n: Node)
      requires Valid()
      modifies nodes, this`error
      ensures Sticky(old(error), error)
      ensures Valid() && Link(r) && Rest() == old(Rest()) && Fuel() == old(Fuel())
      ensures LeafToken(e, t, symbols) && old(HasRoom(Abs())) ==> Grew(old(Abs()), Abs(), e, r, n)
    {
      hide Valid, Fuel, Grew, HasRoom, LeafMade, LeafToken, LeafKind;
      ghost var s0, wanted := Abs(), LeafToken(e, t, symbols) && HasRoom(Abs());
      if wanted {
        LeafTokenKind(e, t, symbols);
      }
      r, n := NULL, Nil;
      match t {
        case Identifier(name) =>
          r, n := NewId(name);
        case Number(w) =>
          r, n := NewLeaf(Value(w));
        case NullPointer =>
          r, n := NewLeaf(Value(0));
        case _ =>
          error := INVALID_TOKEN;
      }
      if wanted {
        LeafGrew(s0, Abs(), e, r, n);
      }
    }

    /** `proc_param_list`: links each further parameter behind the last one. */
    method ProcParamList(ghost goal: ListGoal) returns (r: int, ghost n: Node)
      requires Valid()
      modifies this`pos, this`input, this`replay, this`current, this`error, nodes
      ensures Sticky(old(error), error)
      ensures Valid() && Link(r) && Fuel() <= old(Fuel())
      ensures old(ListReady(Abs(), Env(), goal)) ==> GrewAll(old(Abs()), Abs(), goal.es, r, n) && Rest() == goal.rest
      decreases Fuel(), 21
    {
      hide Valid, Fuel, Ready, ListReady, InList, Grew, GrewAll;
      ghost var s0, g := Abs(), Env();
      ghost var wanted := ListReady(s0, g, goal);
      ghost var first := NoGoal;
      if wanted {
        FirstParam(s0, g, goal);
        first := Goal(goal.es[0], Following(g, goal, 1));
      }
      r, n := ProcAssign(first);
      ghost var s1 := Abs();
      if r == NULL {
        if wanted { GrewUsed(s0, s1, goal.es[0], r, n); }
        return;
      }
      var t := Next();
      if wanted {
        ListStart(s0, s1, t, Abs(), g, goal, r, n);
      }
      n := ListLoop(t, r, n, s0, goal, wanted);
    }

    /** The loop of `proc_param_list`. */
    method ListLoop(t0: Token, r: int, ghost n0: Node, ghost s0: PState, ghost goal: ListGoal, ghost wanted: bool) returns (ghost n: Node)
      requires Valid() && 0 <= r && Link(r) && !replay && current == t0
      requires wanted ==> InList(s0, Abs(), t0, Env(), goal, 1, r, n0) && LastSlot(n0) == r
      modifies this`pos, this`input, this`replay, this`current, this`error, nodes
      ensures Sticky(old(error), error)
      ensures Valid() && Fuel() <= old(Fuel()) + (if t0 == Eof then 0 else 1)
      ensures wanted ==> GrewAll(s0, Abs(), goal.es, r, n) && Rest() == goal.rest
      decreases Fuel() + (if t0 == Eof then 0 else 1), 20
    {
      hide Valid, Fuel, InList, GrewAll;
      ghost var f := Fuel() + (if t0 == Eof then 0 else 1);
      ghost var i := 1;
      var last, t := r, t0;
      n := n0;
      while t == Comma
        invariant Valid() && 0 <= last && Link(last) && !replay && current == t && Fuel() + (if t == Eof then 0 else 1) <= f
        invariant Sticky(old(error), error)
        invariant wanted ==> InList(s0, Abs(), t, Env(), goal, i, r, n) && LastSlot(n) == last
        decreases Fuel() + (if t == Eof then 0 else 1)
      {
        last, t, n, i := ListRound(t, last, r, n, s0, goal, i, wanted);
      }
      if wanted {
        ListNext(s0, Abs(), t, Env(), goal, i, r, n);
      }
      Replay();
    }

    /** Links a parameter behind the last one and reads on. */
    method LinkParam(last0: int, x: int) returns (last: int, t: Token)
      requires Valid() && 0 <= last0 && Link(last0) && Link(x)
      modifies this`pos, this`input, this`replay, this`current, this`error, nodes
      ensures Sticky(old(error), error)
      ensures Valid() && 0 <= last && Link(last) && Fuel() <= old(Fuel())
      ensures !replay && current == t && (t != Eof ==> Fuel() < old(Fuel()))
      ensures 0 <= x ==> last == x && Shifted(Followed(old(Abs()), 0, last0, x), t, Abs())
    {
      hide Valid, Fuel;
      nodes[last0] := nodes[last0].(sibling := x);
      last := last0;
      if x != NULL {
        last := x;
      } else {
        error := EXPECT_OPERATOR;
      }
      t := Next();
    }

    /** A further parameter. */
    method ReadParam(t: Token, ghost r: int, ghost n0: Node, ghost s0: PState, ghost goal: ListGoal, ghost i: int, ghost wanted: bool)
      returns (x: int, ghost m: Node)
      requires Valid() && t == Comma
      requires wanted ==> InList(s0, Abs(), t, Env(), goal, i, r, n0)
      modifies this`pos, this`input, this`replay, this`current, this`error, nodes
      ensures Sticky(old(error), error)
      ensures Valid() && Link(x) && Fuel() <= old(Fuel())
      ensures wanted ==> i < |goal.es| && 0 <= x && Built(old(Abs()), Abs(), Goal(goal.es[i], Following(Env(), goal, i + 1)), x, m)
      decreases Fuel(), 21
    {
      hide Valid, Fuel;
      ghost var s, g := Abs(), Env();
      ghost var next := NoGoal;
      if wanted {
        ListNext(s0, s, t, g, goal, i, r, n0);
        next := Goal(goal.es[i], Following(g, goal, i + 1));
      }
      x, m := ProcAssign(next);
      if wanted {
        GrewUsed(s, Abs(), goal.es[i], x, m);
      }
    }

    /** One round of the loop of `proc_param_list`. */
    method ListRound(t: Token, last0: int, ghost r: int, ghost n0: Node, ghost s0: PState, ghost goal: ListGoal, ghost i0: int, ghost wanted: bool)
      returns (last: int, t': Token, ghost n: Node, ghost i: int)
      requires Valid() && 0 <= last0 && Link(last0) && t == Comma
      requires wanted ==> InList(s0, Abs(), t, Env(), goal, i0, r, n0) && LastSlot(n0) == last0
      modifies this`pos, this`input, this`replay, this`current, this`error, nodes
      ensures Sticky(old(error), error)
      ensures Valid() && 0 <= last && Link(last) && Fuel() <= old(Fuel())
      ensures !replay && current == t' && (t' != Eof ==> Fuel() < old(Fuel()))
      ensures wanted ==> InList(s0, Abs(), t', Env(), goal, i, r, n) && LastSlot(n) == last
      decreases Fuel(), 22
    {
      hide Valid, Fuel, InList, Grew, GrewAll, Followed;
      ghost var s, g := Abs(), Env();
      var x;
      ghost var m;
      x, m := ReadParam(t, r, n0, s0, goal, i0, wanted);
      ghost var s1 := Abs();
      last, t' := LinkParam(last0, x);
      n, i := n0, i0;
      if wanted {
        ListAppend(s0, s, t, g, goal, i0, r, n0, s1, x, m, Followed(s1, 0, last0, x), t', Abs());
        n, i := Append(n0, m), i0 + 1;
      }
    }
  
    /** `proc_expr_statement`. */
    method ProcExprStatement(ghost e: Expr, ghost rest: seq<Token>) returns (r: int, ghost n: Node)
      requires Valid()
      modifies this`pos, this`input, this`replay, this`current, this`error, nodes
      ensures Sticky(old(error), error)
      ensures Parenthesised(old(Rest())) ==> error != OK
      ensures Valid() && Link(r) && Fuel() <= old(Fuel()) && (old(Hungry()) ==> Fuel() < old(Fuel()))
      ensures old(Ready(Abs(), Env(), Goal(e, [Semicolon] + rest), 0)) ==> Grew(old(Abs()), Abs(), e, r, n) && Rest() == rest
    {
      hide Valid, Fuel, Ready, Grew;
      ghost var s0, g, goal := Abs(), Env(), Goal(e, [Semicolon] + rest);
      ghost var wanted := Ready(s0, g, goal, 0);
      r, n := NULL, Nil;
      var t := Next();
      if wanted {
        StatementReady(s0, g, e, rest, t, Abs());
      }
      if t != Semicolon {
        Replay();
        r, n := ProcAssign(goal);
        ghost var s1 := Abs();
        Match(Semicolon);
        if wanted {
          GrewRest(s0, s1, s0, Abs(), e, r, n);
        }
      }
    }
  
    /** Makes `x` the root, or links it behind the last statement. */
    method LinkBehind(root0: int, last0: int, x: int, t: Token) returns (root: int, last: int)
      requires Valid() && Link(root0) && Link(last0) && Link(x) && (root0 != NULL ==> last0 != NULL)
      modifies this`pos, this`input, this`replay, this`current, nodes
      ensures Valid() && Link(root) && Link(last) && (root != NULL ==> last != NULL) && Fuel() <= old(Fuel())
      ensures x != NULL ==> root == (if root0 == NULL then x else root0) && last == x
      ensures x != NULL ==> Abs() == Followed(old(Abs()), root0, last0, x)
    {
      hide Valid, Fuel;
      root, last := root0, last0;
      if root0 != NULL {
        nodes[last0] := nodes[last0].(sibling := x);
        if x != NULL {
          last := x;
        } else if !t.Identifier? && !t.TypeName? && !t.Unsigned? {
          var _ := Next();
        }
      } else {
        root, last := x, x;
      }
    }

    /** One statement of `finsh_parser_run`, linked behind the last one; stops if there is still no root. */
    method Round(root0: int, last0: int, t: Token, ghost n0: Node, ghost s0: PState, ghost es: seq<Expr>, ghost i0: int, ghost wanted: bool)
      returns (root: int, last: int, more: bool, t': Token, ghost n: Node, ghost i: int)
      requires Valid() && Link(root0) && Link(last0) && (root0 != NULL ==> last0 != NULL) && !replay && current == t && t != Eof && t != Bad
      requires wanted ==> InProgram(s0, Abs(), t, Env(), es, i0, root0, n0, last0)
      modifies this`pos, this`input, this`replay, this`current, this`error, this`symbols, this`slots, nodes
      ensures Sticky(old(error), error) && (wanted ==> symbols == old(symbols))
      ensures Valid() && Link(root) && Link(last) && (root != NULL ==> last != NULL)
      ensures more ==> !replay && current == t' && Fuel() <= old(Fuel()) && (t' != Eof ==> Fuel() < old(Fuel()))
      ensures wanted ==> more && InProgram(s0, Abs(), t', Env(), es, i, root, n, last)
    {
      hide Valid, Fuel;
      ghost var s := Abs();
      var x;
      ghost var m;
      x, m := ReadStatement(root0, last0, t, n0, s0, es, i0, wanted);
      root, last, more, t', n := EndRound(root0, last0, x, t, s, n0, m, s0, es, i0, wanted);
      i := if wanted then i0 + 1 else i0;
    }

    /** The end of a round: the statement is linked and the next token read. */
    method EndRound(root0: int, last0: int, x: int, t: Token, ghost s: PState, ghost n0: Node, ghost m: Node, ghost s0: PState, ghost es: seq<Expr>, ghost i: int, ghost wanted: bool)
      returns (root: int, last: int, more: bool, t': Token, ghost n: Node)
      requires Valid() && Link(root0) && Link(last0) && Link(x) && (root0 != NULL ==> last0 != NULL)
      requires wanted ==> InProgram(s0, s, t, Env(), es, i, root0, n0, last0) && i < |es| && 0 <= x
      requires wanted ==> (root0 == NULL <==> i == 0) && (i > 0 ==> 0 <= last0 < nodes.Length)
      requires wanted ==> Grew(s.(rest := [t] + s.rest), Abs(), es[i], x, m) && Rest() == PrintProgram(es[i + 1..], names)
      modifies this`pos, this`input, this`replay, this`current, nodes
      ensures Valid() && Link(root) && Link(last) && (root != NULL ==> last != NULL)
      ensures more ==> !replay && current == t' && Fuel() <= old(Fuel()) && (t' != Eof ==> Fuel() < old(Fuel()))
      ensures wanted ==> more && InProgram(s0, Abs(), t', Env(), es, i + 1, root, n, last)
    {
      hide Valid, Fuel;
      ghost var s1 := Abs();
      root, last, more, t' := AddStatement(root0, last0, x, t);
      n := n0;
      if wanted {
        ProgramStep(s0, s, t, Env(), es, i, root0, n0, last0, s1, x, m, Followed(s1, root0, last0, x), t', Abs());
        n := Append(n0, m);
      }
    }

    /** Links a statement behind the last one and reads on, unless there is still no root. */
    method AddStatement(root0: int, last0: int, x: int, t: Token) returns (root: int, last: int, more: bool, t': Token)
      requires Valid() && Link(root0) && Link(last0) && Link(x) && (root0 != NULL ==> last0 != NULL)
      modifies this`pos, this`input, this`replay, this`current, nodes
      ensures Valid() && Link(root) && Link(last) && (root != NULL ==> last != NULL)
      ensures more ==> !replay && current == t' && Fuel() <= old(Fuel()) && (t' != Eof ==> Fuel() < old(Fuel()))
      ensures x != NULL ==>
        && more && root == (if root0 == NULL then x else root0) && last == x
        && Shifted(Followed(old(Abs()), root0, last0, x), t', Abs())
    {
      hide Valid, Fuel;
      root, last := LinkBehind(root0, last0, x, t);
      more, t' := root != NULL, t;
      if more {
        t' := Next();
      }
    }

    /** Puts the token `t` back and reads a declaration or a statement. */
    method ReadStatement(ghost root: int, ghost last: int, t: Token, ghost n: Node, ghost s0: PState, ghost es: seq<Expr>, ghost i: int, ghost wanted: bool)
      returns (x: int, ghost m: Node)
      requires Valid() && !replay && current == t && t != Eof
      requires wanted ==> InProgram(s0, Abs(), t, Env(), es, i, root, n, last)
      modifies this`pos, this`input, this`replay, this`current, this`error, this`symbols, this`slots, nodes
      ensures Sticky(old(error), error) && (wanted ==> symbols == old(symbols))
      ensures Valid() && Link(x) && Fuel() <= old(Fuel())
      ensures wanted ==> i < |es| && 0 <= x && (i > 0 ==> 0 <= last < nodes.Length) && (root == NULL <==> i == 0)
      ensures wanted ==> Grew(old(Abs()).(rest := [t] + old(Rest())), Abs(), es[i], x, m) && Rest() == PrintProgram(es[i + 1..], names)
    {
      hide Valid, Fuel;
      ghost var s, g := Abs(), Env();
      ghost var e, rest := Const(0), [];
      if wanted {
        ProgramNext(s0, s, t, g, es, i, root, n, last);
        e, rest := es[i], PrintProgram(es[i + 1..], names);
      }
      Replay();
      ghost var b := s.(rest := [t] + s.rest);
      assert Abs() == b;
      if t.TypeName? || t.Unsigned? {
        x, m := ProcVariableDecl(Const(0), []);
      } else {
        x, m := ProcExprStatement(e, rest);
        if wanted {
          GrewUsed(b, Abs(), e, x, m);
        }
      }
    }

    /** `finsh_var_insert`: the name must be new, and there must be room for a variable. */
    method VarInsert(name: string)
      modifies this`symbols, this`slots, this`error
      ensures Sticky(old(error), error)
      ensures if name in old(symbols).vars || old(slots) == [] then symbols == old(symbols) && slots == old(slots) && error == VARIABLE_EXIST
              else symbols == Declared(old(symbols), name, old(slots[0])) && slots == old(slots[1..]) && error == old(error)
    {
      if name in symbols.vars || slots == [] {
        error := VARIABLE_EXIST;
      } else {
        symbols, slots := Declared(symbols, name, slots[0]), slots[1..];
      }
    }

    /** `proc_identifier`: without an identifier the name last read is used, and an error set. */
    method ProcIdentifier() returns (name: string)
      requires Valid()
      modifies this`pos, this`input, this`replay, this`current, this`error
      ensures Sticky(old(error), error)
      ensures Valid() && Fuel() <= old(Fuel())
      ensures if old(Rest()) != [] && old(Rest())[0].Identifier? then name == old(Rest())[0].name && Shifted(old(Abs()), old(Rest())[0], Abs())
              else error == INVALID_TOKEN
    {
      var t := Next();
      if t.Identifier? {
        return t.name;
      }
      Refuse(INVALID_TOKEN);
      name := [];
      for k := pos downto 0 {
        if tokens[k].Identifier? {
          return tokens[k].name;
        }
      }
    }

    /** The assignment of an initial value to the variable just declared. */
    method InitNode(name: string, x: int, ghost nx: Node, ghost s0: PState, ghost e: Expr, ghost a: Word, ghost wanted: bool) returns (r: int, ghost n: Node)
      requires Valid() && Link(x)
      requires wanted ==> Lookup(symbols, name) == Some(VarSymbol(a)) && Grew(s0, Abs(), e, x, nx) && Size(e) + 2 <= Free(s0.nodes)
      modifies nodes, this`error
      ensures Sticky(old(error), error)
      ensures Valid() && Link(r) && Fuel() == old(Fuel()) && Rest() == old(Rest())
      ensures wanted ==> Grew(s0, Abs(), Assign(Var(a), e), r, n)
    {
      hide Valid, Fuel;
      ghost var s1 := Abs();
      var id;
      ghost var ni;
      if wanted {
        GrewUsed(s0, s1, e, x, nx);
      }
      id, ni := NewId(name);
      ghost var s2 := Abs();
      if wanted {
        LeafGrew(s1, s2, Var(a), id, ni);
        SwappedRoom(s0, s1, s2, Var(a), e, id, ni, x, nx);
      }
      r := MakeSysNode(Assignment, id, x, ni, nx);
      n := Nil;
      if wanted {
        JoinSwapped(s0, s1, s2, Abs(), Var(a), e, Assign(Var(a), e), id, ni, x, nx, Assignment, r);
        n := Joined(r, Assignment, ni, nx);
      }
    }

    /** Behind `=`: the initial value, its assignment, and the next token. */
    method InitValue(name: string, ghost e: Expr, ghost rest: seq<Token>, ghost a: Word) returns (r: int, ghost n: Node, t: Token)
      requires Valid() && !replay && current == Equals
      modifies this`pos, this`input, this`replay, this`current, this`error, nodes
      ensures Sticky(old(error), error)
      ensures Valid() && Link(r) && Fuel() <= old(Fuel()) && (t == Equals || (!replay && current == t && (t != Eof ==> Fuel() < old(Fuel()))))
      ensures Lookup(symbols, name) == Some(VarSymbol(a)) && InitReady(old(Abs()), Env(), e, rest) ==>
        t == Semicolon && Rest() == rest && Grew(old(Abs()), Abs(), Assign(Var(a), e), r, n)
    {
      hide Valid, Fuel;
      ghost var s0, wanted := Abs(), Lookup(symbols, name) == Some(VarSymbol(a)) && InitReady(Abs(), Env(), e, rest);
      var x;
      x, n := ProcAssign(Goal(e, [Semicolon] + rest));
      r, t := NULL, Equals;
      if wanted {
        GrewUsed(s0, Abs(), e, x, n);
      }
      if x != NULL {
        r, n := InitNode(name, x, n, s0, e, a, wanted);
        t := Next();
      }
    }

    /** A further variable of a declaration: its name, and perhaps its initial value, linked behind the last one. */
    method NextVariable(root0: int, last0: int) returns (root: int, last: int, t: Token)
      requires Valid() && Link(root0) && Link(last0)
      modifies this`pos, this`input, this`replay, this`current, this`error, this`symbols, this`slots, nodes
      ensures Sticky(old(error), error)
      ensures Valid() && Link(root) && Link(last) && Fuel() <= old(Fuel()) && (t != Eof ==> Fuel() < old(Fuel()))
      ensures t == Equals || (!replay && current == t)
    {
      hide Valid, Fuel, InitReady, Grew;
      root, last := root0, last0;
      var name := ProcIdentifier();
      VarInsert(name);
      t := Next();
      if t == Equals {
        var x;
        ghost var n;
        x, n, t := InitValue(name, Const(0), [], 0);
        if t != Equals {
          if root0 == NULL {
            root := x;
          } else if last0 != NULL {
            nodes[last0] := nodes[last0].(sibling := x);
          }
          last := x;
        }
      }
    }

    /** Is a declaration of one new variable with an initial value next on the input? */
    ghost predicate DeclReady(e: Expr, rest: seq<Token>)
      requires Valid()
      reads this, nodes
    {
      && |Rest()| >= 3 && Rest()[0].TypeName? && Rest()[1].Identifier? && Rest()[2] == Equals
      && Rest()[1].name !in symbols.vars && slots != []
      && InitReady(Abs().(rest := Rest()[3..]), Ctx(names, Declared(symbols, Rest()[1].name, slots[0])), e, rest)
    }

    /** `proc_variable_decl`. A declaration of one new variable with an initial value enters the variable in the symbol
        table and builds the assignment of that value. */
    method ProcVariableDecl(ghost e: Expr, ghost rest: seq<Token>) returns (r: int, ghost n: Node)
      requires Valid()
      modifies this`pos, this`input, this`replay, this`current, this`error, this`symbols, this`slots, nodes
      ensures Sticky(old(error), error)
      ensures Valid() && Link(r) && Fuel() <= old(Fuel()) && (StartsType(old(Rest())) ==> Fuel() < old(Fuel()))
      ensures old(DeclReady(e, rest)) ==>
        && symbols == Declared(old(symbols), old(Rest())[1].name, old(slots)[0]) && slots == old(slots)[1..]
        && Rest() == rest && Grew(old(Abs()), Abs(), Assign(Var(old(slots)[0]), e), r, n)
    {
      hide Valid, Fuel, InitReady, Grew;
      ghost var s0, wanted, a := Abs(), DeclReady(e, rest), if slots != [] then slots[0] else 0;
      var name, t := DeclHead(e, rest);
      ghost var s1 := Abs();
      r, n := NULL, Nil;
      if t == Equals {
        r, n, t := InitValue(name, e, rest, a);
        if wanted {
          GrewRest(s1, Abs(), s0, Abs(), Assign(Var(a), e), r, n);
        }
      } else if t == Semicolon {
        return;
      } else if t != Comma {
        error := EXPECT_TYPE;
        return;
      }
      r := MoreVariables(r, t);
    }

    /** The head of a declaration: its type, its first name and the token behind. */
    method DeclHead(ghost e: Expr, ghost rest: seq<Token>) returns (name: string, t: Token)
      requires Valid()
      modifies this`pos, this`input, this`replay, this`current, this`error, this`symbols, this`slots
      ensures Sticky(old(error), error)
      ensures Valid() && !replay && current == t && Fuel() + (if t == Eof then 0 else 1) <= old(Fuel())
      ensures StartsType(old(Rest())) ==> Fuel() + (if t == Eof then 0 else 1) < old(Fuel())
      ensures old(DeclReady(e, rest)) ==>
        && t == Equals && name == old(Rest())[1].name && Abs() == old(Abs()).(rest := old(Rest())[3..])
        && symbols == Declared(old(symbols), name, old(slots)[0]) && slots == old(slots)[1..]
    {
      hide Valid, Fuel, InitReady;
      ghost var s0, ready := Abs(), DeclReady(e, rest);
      var _ := ProcType();
      if ready {
        assert Abs() == s0.(rest := s0.rest[1..]);
      }
      name := ProcIdentifier();
      if ready {
        assert Abs() == s0.(rest := s0.rest[2..]) by { assert s0.rest[1..][1..] == s0.rest[2..]; }
      }
      VarInsert(name);
      t := Next();
      if ready {
        assert Abs() == s0.(rest := s0.rest[3..]) by { assert s0.rest[2..][1..] == s0.rest[3..]; }
      }
    }

    /** The further variables of a declaration, and its semicolon. */
    method MoreVariables(r0: int, t0: Token) returns (r: int)
      requires Valid() && Link(r0) && (t0 == Equals || (!replay && current == t0))
      modifies this`pos, this`input, this`replay, this`current, this`error, this`symbols, this`slots, nodes
      ensures Sticky(old(error), error)
      ensures Valid() && Link(r) && Fuel() <= old(Fuel()) + (if t0 == Eof then 0 else 1)
      ensures t0 == Semicolon ==> r == r0 && Abs() == old(Abs()) && symbols == old(symbols) && slots == old(slots)
    {
      hide Valid, Fuel;
      r := r0;
      var last, t := r0, t0;
      while t == Comma
        invariant Valid() && Link(r) && Link(last) && (t == Equals || (!replay && current == t))
        invariant Sticky(old(error), error) && Fuel() + (if t == Eof then 0 else 1) <= old(Fuel()) + (if t0 == Eof then 0 else 1)
        invariant t0 == Semicolon ==> t == t0 && r == r0 && Abs() == old(Abs()) && symbols == old(symbols) && slots == old(slots)
        decreases Fuel() + (if t == Comma then 1 else 0)
      {
        r, last, t := NextVariable(r, last);
      }
      if t != Semicolon {
        Refuse(INVALID_TOKEN);
      }
    }

    /** `finsh_parser_run`. */
    method Run(ghost es: seq<Expr>) returns (root: int, ghost n: Node)
      requires Valid()
      modifies this`pos, this`input, this`replay, this`current, this`error, this`symbols, this`slots, nodes
      ensures Sticky(old(error), error)
      ensures Valid() && Link(root)
      ensures ProgramReady(old(Abs()), old(Env()), es) ==> GrewAll(old(Abs()), Abs(), es, root, n) && symbols == old(symbols)
    {
      hide Valid, Fuel;
      ghost var s0, g := Abs(), Env();
      ghost var wanted := ProgramReady(s0, g, es);
      ghost var i := 0;
      var last := NULL;
      root, n := NULL, Nil;
      var t := Next();
      if wanted {
        ProgramStart(s0, g, es, t, Abs());
        ProgramNext(s0, Abs(), t, g, es, i, root, n, last);
      }
      while t != Eof && t != Bad
        invariant Valid() && Link(root) && Link(last) && (root != NULL ==> last != NULL) && !replay && current == t
        invariant Sticky(old(error), error)
        invariant wanted ==> Env() == g && symbols == old(symbols) && InProgram(s0, Abs(), t, g, es, i, root, n, last)
        decreases Fuel() + (if t == Eof then 0 else 1)
      {
        var more;
        root, last, more, t, n, i := Round(root, last, t, n, s0, es, i, wanted);
        if !more {
          break;
        }
      }
      if wanted {
        ProgramNext(s0, Abs(), t, g, es, i, root, n, last);
      }
    }
  }
}
