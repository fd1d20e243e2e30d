/** The finsh virtual machine's instruction set: encoding, execution and stack use of the
    double-word instructions. */
module FinshMachine {

  /** 32-bit words, as bit patterns. */
  type Word = w: int | 0 <= w < 0x1_0000_0000
  type Byte = b: int | 0 <= b < 256

  /** Data memory, byte by byte; bytes never written read as zero. */
  type Memory = map<int, Byte>

  datatype BinOp = Add | Sub | Mul | Div | Mod | And | Or | Xor | Shl | Shr

  /** What the machine does not define itself: arithmetic and the called functions. */
  datatype Env = Env(bin: (BinOp, Word, Word) -> Word, not: Word -> Word, call: (Word, seq<Word>, Memory) -> (Word, Memory))

  datatype Instr =
    | Bin(op: BinOp)
    | Not
    | Ld(w: Word)
    | LdValue(addr: Word)
    | LdStack
    | St
    | Pop
    | Call(n: Byte)

  datatype State = State(stack: seq<Word>, mem: Memory)

  // ----- words in memory and in code -----

  /** FINSH_SET32: least significant byte first. */
  function Bytes(w: Word): seq<Byte> {
    [w % 256, w / 256 % 256, w / 65536 % 256, w / 16777216]
  }

  /** FINSH_GET32. */
  function FromBytes(a: Byte, b: Byte, c: Byte, d: Byte): Word {
    a + 256 * b + 65536 * c + 16777216 * d
  }

  lemma BytesRoundTrip(w: Word)
    ensures var s := Bytes(w); FromBytes(s[0], s[1], s[2], s[3]) == w
  {
    assert w == w / 256 * 256 + w % 256;
    assert w / 256 == w / 65536 * 256 + w / 256 % 256;
    assert w / 65536 == w / 16777216 * 256 + w / 65536 % 256;
  }

  function LoadByte(m: Memory, a: int): Byte {
    if a in m then m[a] else 0
  }

  function Load(m: Memory, a: Word): Word {
    FromBytes(LoadByte(m, a), LoadByte(m, a + 1), LoadByte(m, a + 2), LoadByte(m, a + 3))
  }

  function Store(m: Memory, a: Word, w: Word): Memory {
    var s := Bytes(w);
    m[a := s[0]][a + 1 := s[1]][a + 2 := s[2]][a + 3 := s[3]]
  }

  /** A stored word is read back. */
  lemma LoadStored(m: Memory, a: Word, w: Word)
    ensures Load(Store(m, a, w), a) == w
  {
    BytesRoundTrip(w);
  }

  // ----- execution -----

  /** A call without parameters passes one zero. */
  function Passed(args: seq<Word>): seq<Word> {
    if args == [] then [0] else args
  }

  /** How many slots an instruction takes off the stack. */
  function Pops(i: Instr): nat {
    match i
    case Bin(_) => 2
    case Not => 1
    case Ld(_) => 0
    case LdValue(_) => 0
    case LdStack => 1
    case St => 2
    case Pop => 1
    case Call(n) => n + 1
  }

  /** How many it puts back. */
  function Pushes(i: Instr): nat {
    if i.Pop? then 0 else 1
  }

  function ExecInstr(env: Env, i: Instr, s: State): State {
    var n := |s.stack|;
    if n < Pops(i) then s else
    match i
    case Bin(op) => State(s.stack[..n - 2] + [env.bin(op, s.stack[n - 2], s.stack[n - 1])], s.mem)
    case Not => State(s.stack[..n - 1] + [env.not(s.stack[n - 1])], s.mem)
    case Ld(w) => State(s.stack + [w], s.mem)
    case LdValue(a) => State(s.stack + [Load(s.mem, a)], s.mem)
    case LdStack => State(s.stack[..n - 1] + [Load(s.mem, s.stack[n - 1])], s.mem)
    case St => State(s.stack[..n - 1], Store(s.mem, s.stack[n - 2], s.stack[n - 1]))
    case Pop => State(s.stack[..n - 1], s.mem)
    case Call(k) =>
      var (r, m) := env.call(s.stack[n - k - 1], Passed(s.stack[n - k..]), s.mem);
      State(s.stack[..n - k - 1] + [r], m)
  }

  function Exec(env: Env, code: seq<Instr>, s: State): State {
    if code == [] then s else Exec(env, code[1..], ExecInstr(env, code[0], s))
  }

  lemma {:induction false} ExecConcat(env: Env, a: seq<Instr>, b: seq<Instr>, s: State)
    ensures Exec(env, a + b, s) == Exec(env, b, Exec(env, a, s))
  {
    if a == [] {
      assert a + b == b;
    } else {
      assert (a + b)[1..] == a[1..] + b;
      ExecConcat(env, a[1..], b, ExecInstr(env, a[0], s));
    }
  }

  // ----- stack use -----

  /** From depth `d`, the code never underflows and never needs more than `max` slots. */
  predicate Fits(code: seq<Instr>, d: int, max: int) {
    code == [] ||
    (Pops(code[0]) <= d && Depth1(code[0], d) <= max && Fits(code[1..], Depth1(code[0], d), max))
  }

  /** The depth after one instruction. */
  function Depth1(i: Instr, d: int): int { d - Pops(i) + Pushes(i) }

  /** The depth after the code. */
  function Depth(code: seq<Instr>, d: int): int {
    if code == [] then d else Depth(code[1..], Depth1(code[0], d))
  }

  lemma {:induction false} FitsConcat(a: seq<Instr>, b: seq<Instr>, d: int, max: int)
    ensures Depth(a + b, d) == Depth(b, Depth(a, d))
    ensures Fits(a + b, d, max) <==> Fits(a, d, max) && Fits(b, Depth(a, d), max)
  {
    if a == [] {
      assert a + b == b;
    } else {
      assert (a + b)[1..] == a[1..] + b;
      FitsConcat(a[1..], b, Depth1(a[0], d), max);
    }
  }

  lemma ExecDepth(env: Env, i: Instr, s: State)
    requires Pops(i) <= |s.stack|
    ensures |ExecInstr(env, i, s).stack| == Depth1(i, |s.stack|)
  {
  }

  // ----- encoding -----

  function Opcode(i: Instr): Byte {
    match i
    case Bin(op) => (match op
      case Add => 0x03 case Sub => 0x06 case Div => 0x09 case Mod => 0x0C case Mul => 0x0F
      case And => 0x12 case Or => 0x15 case Xor => 0x18 case Shl => 0x1E case Shr => 0x21)
    case Not => 0x1B
    case Ld(_) => 0x24
    case LdValue(_) => 0x27
    case St => 0x2A
    case Pop => 0x2B
    case Call(_) => 0x2C
    case LdStack => 0x2F
  }

  function Operand(i: Instr): seq<Byte> {
    match i
    case Ld(w) => Bytes(w)
    case LdValue(a) => Bytes(a)
    case Call(n) => [n]
    case _ => []
  }

  function Encode(code: seq<Instr>): seq<Byte> {
    if code == [] then [] else [Opcode(code[0])] + Operand(code[0]) + Encode(code[1..])
  }

  lemma {:induction false} EncodeConcat(a: seq<Instr>, b: seq<Instr>)
    ensures Encode(a + b) == Encode(a) + Encode(b)
  {
    if a == [] {
      assert a + b == b;
    } else {
      assert (a + b)[1..] == a[1..] + b;
      EncodeConcat(a[1..], b);
    }
  }
}
