/**
 As much of a MIPS32 machine as the SSH patch needs (chapter 3 of MIPS32 Architecture For Programmers
 Volume II): the eight instructions that the patch emits and nop, branch delay slots, and calls into code that is not seen.
 */
module Mips {
  import opened Bytes

  type word = n: int | 0 <= n < 0x1_0000_0000
  type half = n: int | 0 <= n < 0x1_0000
  type reg = n: int | 0 <= n < 32

  const TWO_32 := 0x1_0000_0000

  const ZERO: reg := 0
  const V0: reg := 2
  const A0: reg := 4
  const A1: reg := 5
  const S0: reg := 16
  const S1: reg := 17
  const S2: reg := 18
  const S3: reg := 19
  const RA: reg := 31

  datatype Instruction =
    | J(target: int)
    | Jal(target: int)
    | Lui(rt: reg, immediate: half)
    | Addiu(rt: reg, rs: reg, immediate: half)
    | Sltiu(rt: reg, rs: reg, immediate: half)
    | Sw(rt: reg, base: reg, offset: half)
    | Beq(rs: reg, rt: reg, offset: half)
    | Bne(rs: reg, rt: reg, offset: half)
    | Nop
    | Unknown

  // ---- Instruction words ----

  function Decode(w: word): Instruction {
    var op: int, rs: reg, rt: reg, low: half := w / 0x400_0000, w / 0x20_0000 % 32, w / 0x1_0000 % 32, w % 0x1_0000;
    if w == 0 then Nop
    else if op == 2 then J(w % 0x400_0000)
    else if op == 3 then Jal(w % 0x400_0000)
    else if op == 4 then Beq(rs, rt, low)
    else if op == 5 then Bne(rs, rt, low)
    else if op == 9 then Addiu(rt, rs, low)
    else if op == 11 then Sltiu(rt, rs, low)
    else if op == 15 && rs == 0 then Lui(rt, low)
    else if op == 43 then Sw(rt, rs, low)
    else Unknown
  }

  /** The low bits of a number, as Python's & with a mask takes them. */
  function Low16(n: int): half { n % 0x1_0000 }

  function InsJ(address: word): word { 2 * 0x400_0000 + address / 4 % 0x400_0000 }

  function InsJal(address: word): word { 3 * 0x400_0000 + address / 4 % 0x400_0000 }

  function InsLui(target: reg, immediate: int): word { 15 * 0x400_0000 + target * 0x1_0000 + Low16(immediate) }

  function InsImmediate(op: int, rs: reg, rt: reg, immediate: int): word
    requires 0 <= op < 64
  {
    op * 0x400_0000 + rs * 0x20_0000 + rt * 0x1_0000 + Low16(immediate)
  }

  function InsAddiu(target: reg, source: reg, immediate: int): word { InsImmediate(9, source, target, immediate) }

  function InsSltiu(target: reg, source: reg, immediate: int): word { InsImmediate(11, source, target, immediate) }

  function InsSw(source: reg, base: reg, offset: int): word { InsImmediate(43, base, source, offset) }

  function InsBeq(left: reg, right: reg, offset: int): word { InsImmediate(4, left, right, offset) }

  function InsBne(left: reg, right: reg, offset: int): word { InsImmediate(5, left, right, offset) }

  lemma FieldsOf(op: int, rs: reg, rt: reg, immediate: int)
    requires 0 <= op < 64
    ensures var w := InsImmediate(op, rs, rt, immediate);
            && w / 0x400_0000 == op && w / 0x20_0000 % 32 == rs && w / 0x1_0000 % 32 == rt
            && w % 0x1_0000 == Low16(immediate)
  {
    var w, low := InsImmediate(op, rs, rt, immediate), Low16(immediate);
    DivModUnique(w, 0x400_0000, op, rs * 0x20_0000 + rt * 0x1_0000 + low);
    DivModUnique(w, 0x20_0000, op * 32 + rs, rt * 0x1_0000 + low);
    DivModUnique(op * 32 + rs, 32, op, rs);
    DivModUnique(w, 0x1_0000, op * 1024 + rs * 32 + rt, low);
    DivModUnique(op * 1024 + rs * 32 + rt, 32, op * 32 + rs, rt);
  }

  lemma JumpFields(address: word)
    ensures InsJ(address) / 0x400_0000 == 2 && InsJ(address) % 0x400_0000 == address / 4 % 0x400_0000
    ensures InsJal(address) / 0x400_0000 == 3 && InsJal(address) % 0x400_0000 == address / 4 % 0x400_0000
  {
    DivModUnique(InsJ(address), 0x400_0000, 2, address / 4 % 0x400_0000);
    DivModUnique(InsJal(address), 0x400_0000, 3, address / 4 % 0x400_0000);
  }

  lemma LuiIsImmediate(target: reg, immediate: int)
    ensures InsLui(target, immediate) == InsImmediate(15, 0, target, immediate)
  {
  }

  /** Every encoder writes the instruction that it is named after. */
  lemma EncodersDecode(a: reg, b: reg, immediate: int, address: word)
    ensures Decode(InsJ(address)) == J(address / 4 % 0x400_0000)
    ensures Decode(InsJal(address)) == Jal(address / 4 % 0x400_0000)
    ensures Decode(InsLui(a, immediate)) == Lui(a, Low16(immediate))
    ensures Decode(InsAddiu(a, b, immediate)) == Addiu(a, b, Low16(immediate))
    ensures Decode(InsSltiu(a, b, immediate)) == Sltiu(a, b, Low16(immediate))
    ensures Decode(InsSw(a, b, immediate)) == Sw(a, b, Low16(immediate))
    ensures Decode(InsBeq(a, b, immediate)) == Beq(a, b, Low16(immediate))
    ensures Decode(InsBne(a, b, immediate)) == Bne(a, b, Low16(immediate))
  {
    hide InsJ;
    hide InsJal;
    hide InsLui;
    hide InsImmediate;
    hide Low16;
    JumpFields(address);
    LuiIsImmediate(a, immediate);
    FieldsOf(9, b, a, immediate);
    FieldsOf(11, b, a, immediate);
    FieldsOf(43, b, a, immediate);
    FieldsOf(4, a, b, immediate);
    FieldsOf(5, a, b, immediate);
    FieldsOf(15, 0, a, immediate);
  }

  // ---- The machine ----

  function Signed(h: half): int { if h >= 0x8000 then h - 0x1_0000 else h }

  function Wrap(n: int): word { n % TWO_32 }

  type Registers = r: seq<word> | |r| == 32 witness seq(32, _ => 0)

  datatype Call = Call(address: word, a0: word, a1: word)

  /** `next` is where execution goes after the instruction at pc: behind a branch, its target. */
  datatype Machine = Machine(registers: Registers, pc: word, next: word, memory: map<word, word>, calls: seq<Call>)

  function Get(m: Machine, r: reg): word { if r == 0 then 0 else m.registers[r] }

  function Set(registers: Registers, r: reg, value: word): Registers {
    if r == 0 then registers else registers[r := value]
  }

  /** What an unseen callee does: its result, what it leaves in the registers that it need not keep, and in memory. */
  datatype Reply = Reply(registers: Registers, memory: map<word, word>)

  /** The registers that a callee keeps: s0 to s7, gp, sp and fp; and zero. */
  predicate Kept(r: reg) { r == 0 || 16 <= r <= 23 || 28 <= r <= 30 }

  function AfterCall(registers: Registers, reply: Registers): Registers {
    seq(32, i requires 0 <= i < 32 => if Kept(i) then registers[i] else reply[i])
  }

  function JumpTarget(m: Machine, target: int): word
  {
    Wrap(m.next / 0x1000_0000 * 0x1000_0000 + target * 4)
  }

  function Execute(instruction: Instruction, m: Machine): Machine {
    var onward := Wrap(m.next + 4);
    match instruction
    case J(target) => m.(pc := m.next, next := JumpTarget(m, target))
    case Jal(target) => m.(registers := Set(m.registers, RA, Wrap(m.pc + 8)), pc := m.next, next := JumpTarget(m, target))
    case Lui(rt, immediate) => m.(registers := Set(m.registers, rt, immediate * 0x1_0000), pc := m.next, next := onward)
    case Addiu(rt, rs, immediate) =>
      m.(registers := Set(m.registers, rt, Wrap(Get(m, rs) + Signed(immediate))), pc := m.next, next := onward)
    case Sltiu(rt, rs, immediate) =>
      m.(registers := Set(m.registers, rt, if Get(m, rs) < Wrap(Signed(immediate)) then 1 else 0), pc := m.next, next := onward)
    case Sw(rt, base, offset) =>
      m.(memory := m.memory[Wrap(Get(m, base) + Signed(offset)) := Get(m, rt)], pc := m.next, next := onward)
    case Beq(rs, rt, offset) =>
      m.(pc := m.next, next := if Get(m, rs) == Get(m, rt) then Wrap(m.pc + 4 + 4 * Signed(offset)) else onward)
    case Bne(rs, rt, offset) =>
      m.(pc := m.next, next := if Get(m, rs) != Get(m, rt) then Wrap(m.pc + 4 + 4 * Signed(offset)) else onward)
    case Nop => m.(pc := m.next, next := onward)
    case Unknown => m
  }

  /** A call: the callee is noted with its arguments, and control is back behind the delay slot. */
  function Callee(m: Machine, reply: Reply): Machine {
    var back := m.registers[RA];
    Machine(AfterCall(m.registers, reply.registers), back, Wrap(back as int + 4), reply.memory,
            m.calls + [Call(m.pc, m.registers[A0], m.registers[A1])])
  }

  // ---- Programs in a file that is loaded at an address ----

  const LOAD_BASE: word := 0x40_0000

  function WordAt(text: seq<byte>, offset: nat): word
    requires offset + 4 <= |text|
  {
    text[offset] as int + 0x100 * text[offset + 1] as int + 0x1_0000 * text[offset + 2] as int + 0x100_0000 * text[offset + 3] as int
  }

  function Fetch(text: seq<byte>, address: word): Instruction {
    if address >= LOAD_BASE && address - LOAD_BASE + 4 <= |text| then Decode(WordAt(text, address - LOAD_BASE)) else Unknown
  }

  /** One step: an instruction, or the next reply of a callee. */
  function Step(text: seq<byte>, callees: set<word>, replies: seq<Reply>, m: Machine): Machine {
    if m.pc in callees then (if |m.calls| < |replies| then Callee(m, replies[|m.calls|]) else m)
    else Execute(Fetch(text, m.pc), m)
  }

  function Run(text: seq<byte>, callees: set<word>, replies: seq<Reply>, m: Machine, n: nat): Machine
    decreases n
  {
    if n == 0 then m else Run(text, callees, replies, Step(text, callees, replies, m), n - 1)
  }

  lemma {:induction false} RunOn(text: seq<byte>, callees: set<word>, replies: seq<Reply>, m: Machine, k: nat, n: nat)
    ensures Run(text, callees, replies, m, k + n) ==
              Run(text, callees, replies, Run(text, callees, replies, m, k), n)
    decreases k
  {
    if k > 0 {
      RunOn(text, callees, replies, Step(text, callees, replies, m), k - 1, n);
    }
  }

  /** Any 32-bit address is what LUI and ADDIU put together. */
  lemma LoadAddress(address: word, r: reg, m: Machine)
    requires r != 0
    ensures var high := (address + 0x8000) / 0x1_0000;
            var loaded := Execute(Addiu(r, r, Low16(address)), Execute(Lui(r, Low16(high)), m));
            loaded.registers == m.registers[r := address] && loaded.memory == m.memory && loaded.calls == m.calls
  {
    var high := (address + 0x8000) / 0x1_0000;
    AddressParts(address, high);
    assert m.registers[r := Low16(high) * 0x1_0000][r := address] == m.registers[r := address];
  }

  lemma AddressParts(address: word, high: int)
    requires high == (address + 0x8000) / 0x1_0000
    ensures Wrap(Low16(high) * 0x1_0000 + Signed(Low16(address))) == address
    ensures 0 <= Low16(high) * 0x1_0000 < TWO_32
  {
    var page, low := address / 0x1_0000, address % 0x1_0000;
    assert address == page * 0x1_0000 + low;
    if low >= 0x8000 {
      assert high == page + 1;
    } else {
      assert high == page;
    }
  }
}
