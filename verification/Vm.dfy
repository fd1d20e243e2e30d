/** The fetch and dispatch loop of the finsh virtual machine, over its stack and text arrays. */
module FinshVm {
  import opened FinshMachine

  /** Is `s` the text segment of `code`: its bytes, then zeros, which are no-operations? */
  ghost predicate Text(s: seq<Byte>, code: seq<Instr>) {
    && |Encode(code)| <= |s| && s[..|Encode(code)|] == Encode(code)
    && forall i :: |Encode(code)| <= i < |s| ==> s[i] == 0
  }

  lemma TextNext(s: seq<Byte>, code: seq<Instr>)
    requires Text(s, code) && code != []
    ensures var n := 1 + |Operand(code[0])|;
            n <= |s| && s[0] == Opcode(code[0]) && s[1..n] == Operand(code[0]) && Text(s[n..], code[1..])
  {
    var n := 1 + |Operand(code[0])|;
    var e := Encode(code);
    assert e == [Opcode(code[0])] + Operand(code[0]) + Encode(code[1..]);
    var p := s[..|e|];
    assert s[0] == p[0] && s[1..n] == p[1..n] && s[n..][..|e| - n] == p[n..];
    assert e[1..n] == Operand(code[0]) && e[n..] == Encode(code[1..]);
  }

  /** The opcode table, read backwards. */
  function BinOpOf(op: Byte): (r: BinOp)
    ensures forall b :: Opcode(Bin(b)) == op ==> r == b
  {
    if op == 0x03 then Add else if op == 0x06 then Sub else if op == 0x09 then Div else if op == 0x0C then Mod
    else if op == 0x0F then Mul else if op == 0x12 then And else if op == 0x15 then Or else if op == 0x18 then Xor
    else if op == 0x1E then Shl else Shr
  }

  /** No call has more than the 16 parameters `OP_call` has room for. */
  predicate SmallCalls(code: seq<Instr>) {
    forall i :: 0 <= i < |code| && code[i].Call? ==> code[i].n <= 16
  }

  /** What the machine can rely on while `rest` is still to run. */
  ghost predicate Ahead(s: seq<Byte>, rest: seq<Instr>, d: nat, max: nat) {
    Text(s, rest) && Fits(rest, d, max) && SmallCalls(rest)
  }

  lemma AheadZero(s: seq<Byte>, rest: seq<Instr>, d: nat, max: nat)
    requires Ahead(s, rest, d, max) && s != [] && s[0] == 0
    ensures rest == [] && Ahead(s[1..], [], d, max)
  {
    if rest != [] { TextNext(s, rest); }
  }

  lemma AheadNext(s: seq<Byte>, rest: seq<Instr>, d: nat, max: nat)
    requires Ahead(s, rest, d, max) && s != [] && s[0] != 0
    ensures rest != [] && Pops(rest[0]) <= d && Depth1(rest[0], d) <= max && (rest[0].Call? ==> rest[0].n <= 16)
    ensures var n := 1 + |Operand(rest[0])|;
            n <= |s| && s[0] == Opcode(rest[0]) && s[1..n] == Operand(rest[0]) && Ahead(s[n..], rest[1..], Depth1(rest[0], d), max)
  {
    assert rest != [];
    TextNext(s, rest);
    assert forall i :: 0 <= i < |rest[1..]| ==> rest[1..][i] == rest[i + 1];
  }

  class Vm {
    const env: Env
    const stack: array<Word>
    const text: array<Byte>
    var sp: nat
    var pc: nat
    var mem: Memory

    ghost predicate Valid()
      reads this
    {
      sp <= stack.Length && pc <= text.Length
    }

    /** The part of the stack in use, and memory. */
    ghost function Abs(): State
      requires Valid()
      reads this, stack
    {
      State(stack[..sp], mem)
    }

    constructor (env: Env, slots: nat, bytes: nat, mem: Memory)
      ensures Valid() && this.env == env && this.mem == mem && sp == 0 && pc == 0
      ensures stack.Length == slots && text.Length == bytes && fresh(stack) && fresh(text)
    {
      this.env := env;
      this.stack := new Word[slots](_ => 0);
      this.text := new Byte[bytes](_ => 0);
      this.mem := mem;
      sp, pc := 0, 0;
    }

    method Bin2(op: BinOp)
      requires Valid() && 2 <= sp
      modifies this`sp, stack
      ensures Valid() && Abs() == ExecInstr(env, Bin(op), old(Abs()))
    {
      stack[sp - 2] := env.bin(op, stack[sp - 2], stack[sp - 1]);
      sp := sp - 1;
    }

    method Not1()
      requires Valid() && 1 <= sp
      modifies stack
      ensures Valid() && Abs() == ExecInstr(env, Not, old(Abs()))
    {
      stack[sp - 1] := env.not(stack[sp - 1]);
    }

    /** The word after the opcode. */
    method Fetch() returns (w: Word)
      requires Valid() && pc + 4 <= text.Length
      modifies this`pc
      ensures Valid() && pc == old(pc) + 4
      ensures forall v: Word :: text[old(pc)..pc] == Bytes(v) ==> w == v
    {
      w := FromBytes(text[pc], text[pc + 1], text[pc + 2], text[pc + 3]);
      pc := pc + 4;
      forall v: Word | text[old(pc)..pc] == Bytes(v) ensures w == v {
        BytesRoundTrip(v);
        assert text[old(pc)..pc][0] == Bytes(v)[0] && text[old(pc)..pc][1] == Bytes(v)[1]
            && text[old(pc)..pc][2] == Bytes(v)[2] && text[old(pc)..pc][3] == Bytes(v)[3];
      }
    }

    method LdDword(w: Word)
      requires Valid() && sp < stack.Length
      modifies this`sp, stack
      ensures Valid() && Abs() == ExecInstr(env, Ld(w), old(Abs()))
    {
      stack[sp] := w;
      sp := sp + 1;
    }

    method LdValueDword(a: Word)
      requires Valid() && sp < stack.Length
      modifies this`sp, stack
      ensures Valid() && Abs() == ExecInstr(env, LdValue(a), old(Abs()))
    {
      var w := Load(mem, a);
      LdDword(w);
    }

    method LdValueStack()
      requires Valid() && 1 <= sp
      modifies stack
      ensures Valid() && Abs() == ExecInstr(env, LdStack, old(Abs()))
    {
      ghost var s := stack[..sp];
      var w := Load(mem, stack[sp - 1]);
      stack[sp - 1] := w;
      assert stack[..sp] == s[..sp - 1] + [w];
    }

    method StDword()
      requires Valid() && 2 <= sp
      modifies this`sp, this`mem
      ensures Valid() && Abs() == ExecInstr(env, St, old(Abs()))
    {
      mem := Store(mem, stack[sp - 2], stack[sp - 1]);
      sp := sp - 1;
      assert stack[..sp] == old(stack[..sp])[..sp];
    }

    /** The parameters of `OP_call`, popped from last to first. */
    method PopParameters(n: nat) returns (args: seq<Word>)
      requires Valid() && n + 1 <= sp && n <= 16
      modifies this`sp
      ensures sp == old(sp) - n - 1
      ensures args == stack[old(sp) - n..old(sp)]
    {
      var parameterv := new Word[16](_ => 0);
      var i := 0;
      sp := sp - 1;
      while i < n
        invariant 0 <= i <= n && sp == old(sp) - 1 - i
        invariant forall j :: n - i <= j < n ==> parameterv[j] == stack[old(sp) - n + j]
      {
        parameterv[n - 1 - i] := stack[sp];
        sp := sp - 1;
        i := i + 1;
      }
      args := parameterv[..n];
    }

    /** `OP_call`. */
    method CallN(n: nat)
      requires Valid() && n + 1 <= sp && n <= 16
      modifies this`sp, this`mem, stack
      ensures Valid() && Abs() == ExecInstr(env, Call(n), old(Abs()))
    {
      ghost var s := stack[..sp];
      var args := PopParameters(n);
      assert args == s[|s| - n..] && stack[sp] == s[|s| - n - 1];
      var result := env.call(stack[sp], if n == 0 then [0] else args, mem);
      mem := result.1;
      stack[sp] := result.0;
      sp := sp + 1;
      assert stack[..sp] == s[..|s| - n - 1] + [result.0];
    }

    /** One round of the loop: fetches an opcode and runs its operation. */
    method Step(ghost i: Instr)
      requires Valid() && pc < text.Length && text[pc] == Opcode(i)
      requires pc + 1 + |Operand(i)| <= text.Length && text[pc + 1..pc + 1 + |Operand(i)|] == Operand(i)
      requires Pops(i) <= sp && Depth1(i, sp) <= stack.Length && (i.Call? ==> i.n <= 16)
      modifies this, stack
      ensures Valid() && pc == old(pc) + 1 + |Operand(i)| && sp == Depth1(i, old(sp))
      ensures Abs() == ExecInstr(env, i, old(Abs()))
    {
      var op := text[pc];
      pc := pc + 1;
      if op == 0x24 {
        var w := Fetch();
        LdDword(w);
      } else if op == 0x27 {
        var a := Fetch();
        LdValueDword(a);
      } else if op == 0x2C {
        var n := text[pc];
        pc := pc + 1;
        CallN(n);
      } else {
        Operate(op, i);
      }
      ExecDepth(env, i, old(Abs()));
    }

    /** The operations without an operand in the text. */
    method Operate(op: Byte, ghost i: Instr)
      requires Valid() && op == Opcode(i) && |Operand(i)| == 0 && Pops(i) <= sp
      modifies this`sp, this`mem, stack
      ensures Valid() && Abs() == ExecInstr(env, i, old(Abs()))
    {
      if op == 0x1B {
        Not1();
      } else if op == 0x2A {
        StDword();
      } else if op == 0x2B {
        Discard();
      } else if op == 0x2F {
        LdValueStack();
      } else {
        assert i == Bin(BinOpOf(op));
        Bin2(BinOpOf(op));
      }
    }

    /** `OP_pop`. */
    method Discard()
      requires Valid() && 1 <= sp
      modifies this`sp
      ensures Valid() && Abs() == ExecInstr(env, Pop, old(Abs()))
    {
      sp := sp - 1;
      assert stack[..sp] == old(stack[..sp])[..sp];
    }

    /** Runs the next instruction of `rest`, or a no-operation after its end. */
    method Advance(ghost rest: seq<Instr>) returns (ghost rest': seq<Instr>)
      requires Valid() && pc < text.Length && Ahead(text[pc..], rest, sp, stack.Length)
      modifies this, stack
      ensures Valid() && old(pc) < pc && Ahead(text[pc..], rest', sp, stack.Length)
      ensures Exec(env, rest', Abs()) == Exec(env, rest, old(Abs()))
    {
      ghost var s := text[pc..];
      if text[pc] == 0 {
        AheadZero(s, rest, sp, stack.Length);
        assert s[1..] == text[pc + 1..];
        pc := pc + 1;
        rest' := [];
      } else {
        AheadNext(s, rest, sp, stack.Length);
        StepNext(rest);
        rest' := rest[1..];
      }
    }

    method StepNext(ghost rest: seq<Instr>)
      requires Valid() && pc < text.Length && rest != []
      requires var s, i := text[pc..], rest[0];
        && s[0] == Opcode(i) && 1 + |Operand(i)| <= |s| && s[1..1 + |Operand(i)|] == Operand(i)
        && Pops(i) <= sp && Depth1(i, sp) <= stack.Length && (i.Call? ==> i.n <= 16)
        && Ahead(s[1 + |Operand(i)|..], rest[1..], Depth1(i, sp), stack.Length)
      modifies this, stack
      ensures Valid() && old(pc) < pc && Ahead(text[pc..], rest[1..], sp, stack.Length)
      ensures Exec(env, rest[1..], Abs()) == Exec(env, rest, old(Abs()))
    {
      ghost var s, n := text[pc..], 1 + |Operand(rest[0])|;
      assert s[1..n] == text[pc + 1..pc + n] && s[n..] == text[pc + n..];
      Step(rest[0]);
    }

    /** `finsh_vm_run`: executes the text segment to its end. */
    method Run(ghost code: seq<Instr>)
      requires Text(text[..], code) && Fits(code, 0, stack.Length) && SmallCalls(code)
      modifies this, stack
      ensures Valid() && pc == text.Length && Abs() == Exec(env, code, State([], old(mem)))
    {
      sp, pc := 0, 0;
      ghost var rest, final := code, Exec(env, code, State([], mem));
      assert text[0..] == text[..] && stack[..0] == [];
      while pc < text.Length
        invariant Valid() && Ahead(text[pc..], rest, sp, stack.Length)
        invariant Exec(env, rest, Abs()) == final
        decreases text.Length - pc
      {
        rest := Advance(rest);
      }
      assert rest == [] by {
        if rest != [] { TextNext(text[pc..], rest); }
      }
    }
  }
}
