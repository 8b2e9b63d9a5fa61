/** The RV64I base instruction set. */
module Rv64 {
  import opened Machine
  import opened Words
  import opened Options

  type Shamt5 = k: nat | k < 32
  type Shamt6 = k: nat | k < 64

  /** Shift amount taken from the low five or six bits of a register. */
  function Amount5(b: U64): Shamt5 {
    ValueInRange(b, 5);
    Powers();
    ValueBelow(b, 5)
  }

  function Amount6(b: U64): Shamt6 {
    ValueInRange(b, 6);
    Powers();
    ValueBelow(b, 6)
  }

  lemma Powers()
    ensures Pow2(5) == 32 && Pow2(6) == 64 && Pow2(8) == 256
  {
    assert Pow2(2) == 4;
    assert Pow2(4) == 16;
    assert Pow2(6) == 64;
  }

  datatype Op =
    | Add | Sub | Sll | Slt | Sltu | Xor | Srl | Sra | Or | And
    | Addw | Subw | Sllw | Srlw | Sraw
  datatype OpImm =
    | Addi | Slti | Sltiu | Xori | Ori | Andi | Addiw
  datatype OpShift =
    | Slli | Srli | Srai
  datatype OpShiftW =
    | Slliw | Srliw | Sraiw
  datatype OpLoad = Lb | Lh | Lw | Ld | Lbu | Lhu | Lwu
  datatype OpStore = Sb | Sh | Sw | Sd
  datatype OpBranch = Beq | Bne | Blt | Bge | Bltu | Bgeu

  /** Immediates are already sign-extended. */
  datatype Instr =
    | R(op: Op, rd: nat, rs1: nat, rs2: nat)
    | I(opImm: OpImm, rd: nat, rs1: nat, imm: U64)
    | Shift(opShift: OpShift, rd: nat, rs1: nat, shamt: Shamt6)
    | ShiftW(opShiftW: OpShiftW, rd: nat, rs1: nat, shamtW: Shamt5)
    | Load(opLoad: OpLoad, rd: nat, rs1: nat, imm: U64)
    | Store(opStore: OpStore, rs2: nat, rs1: nat, imm: U64)
    | Branch(opBranch: OpBranch, rs1: nat, rs2: nat, imm: U64)
    | Jalr(rd: nat, rs1: nat, imm: U64)
    | Jal(rd: nat, imm: U64)
    | Lui(rd: nat, imm: U64)
    | Auipc(rd: nat, imm: U64)
    | Fence
    | Ecall
    | Ebreak
    | Unimp

  /** Register and immediate arithmetic. */
  function AluR(op: Op, a: U64, b: U64): U64 {
    match op
    case Add => Words.Add(a, b)
    case Sub => Words.Sub(a, b)
    case Sll => Shl(a, Amount6(b))
    case Slt => Flag(LessSigned(a, b), 64)
    case Sltu => Flag(LessUnsigned(a, b), 64)
    case Xor => Words.Xor(a, b)
    case Srl => Shr(a, Amount6(b))
    case Sra => Words.Sra(a, Amount6(b))
    case Or => Words.Or(a, b)
    case And => Words.And(a, b)
    case Addw => Sext(Words.Add(Low(a), Low(b)))
    case Subw => Sext(Words.Sub(Low(a), Low(b)))
    case Sllw => Sext(Shl(Low(a), Amount5(b)))
    case Srlw => Sext(Shr(Low(a), Amount5(b)))
    case Sraw => Sext(Words.Sra(Low(a), Amount5(b)))
  }

  function AluI(op: OpImm, a: U64, imm: U64): U64 {
    match op
    case Addi => Words.Add(a, imm)
    case Slti => Flag(LessSigned(a, imm), 64)
    case Sltiu => Flag(LessUnsigned(a, imm), 64)
    case Xori => Words.Xor(a, imm)
    case Ori => Words.Or(a, imm)
    case Andi => Words.And(a, imm)
    case Addiw => Sext(Words.Add(Low(a), Low(imm)))
  }

  function AluShift(op: OpShift, a: U64, k: Shamt6): U64 {
    match op
    case Slli => Shl(a, k)
    case Srli => Shr(a, k)
    case Srai => Words.Sra(a, k)
  }

  function AluShiftW(op: OpShiftW, a: U64, k: Shamt5): U64 {
    match op
    case Slliw => Sext(Shl(Low(a), k))
    case Srliw => Sext(Shr(Low(a), k))
    case Sraiw => Sext(Words.Sra(Low(a), k))
  }

  predicate Taken(op: OpBranch, a: U64, b: U64) {
    match op
    case Beq => a == b
    case Bne => a != b
    case Blt => LessSigned(a, b)
    case Bge => !LessSigned(a, b)
    case Bltu => LessUnsigned(a, b)
    case Bgeu => !LessUnsigned(a, b)
  }

  // ---------- loads, stores and control ----------

  function LoadSize(op: OpLoad): (r: nat)
    ensures 0 < r <= 8
  {
    match op
    case Lb => 1 case Lbu => 1 case Lh => 2 case Lhu => 2 case Lw => 4 case Lwu => 4 case Ld => 8
  }

  function StoreSize(op: OpStore): (r: nat)
    ensures 0 < r <= 8
  {
    match op
    case Sb => 1 case Sh => 2 case Sw => 4 case Sd => 8
  }

  function FromLittleEndian(bytes: seq<Byte>): U64 {
    seq(64, i requires 0 <= i < 64 => i / 8 < |bytes| && bytes[i / 8] / Pow2(i % 8) % 2 == 1)
  }

  /** Byte `i` of a word. */
  function ByteOf(v: U64, i: nat): Byte
    requires i < 8
  {
    ValueInRange(v[8 * i..8 * i + 8], 8);
    Powers();
    Value(v[8 * i..8 * i + 8])
  }

  function ToLittleEndian(v: U64, n: nat): (r: seq<Byte>)
    requires n <= 8
    ensures |r| == n
  {
    seq(n, i requires 0 <= i < n => ByteOf(v, i))
  }

  /** Sign or zero extension of a loaded value. */
  function Extend(op: OpLoad, v: U64): U64 {
    match op
    case Lb => seq(64, i requires 0 <= i < 64 => if i < 8 then v[i] else v[7])
    case Lh => seq(64, i requires 0 <= i < 64 => if i < 16 then v[i] else v[15])
    case Lw => Sext(Low(v))
    case _ => v
  }

  /** Addresses and program counters as numbers and as words. */
  function Addr(w: U64): (r: nat)
    ensures r < U64_LIMIT
  {
    ValueInRange(w, 64);
    PowerOfWidth();
    Value(w)
  }

  const XLEN: nat := 64

  function ToWord(n: nat): U64 { FromNat(n, XLEN) }

  lemma PowerOfWidth()
    ensures Pow2(64) == U64_LIMIT
  {
    Powers();
    PowerAdds(8, 8);
    PowerAdds(16, 16);
    PowerAdds(32, 32);
  }

  function LoadEffect(op: OpLoad, rd: nat, m: Memory, addr: U64, wrapping: bool): Effect<U64> {
    match Machine.Load(m, Addr(addr), LoadSize(op), wrapping)
    case None => Effect(m, None, Fault(OutOfBoundsRead(Addr(addr))))
    case Some(bytes) => Effect(m, None, Advance(rd, Extend(op, FromLittleEndian(bytes))))
  }

  function StoreEffect(op: OpStore, value: U64, m: Memory, addr: U64, wrapping: bool): Effect<U64> {
    match Machine.Store(m, Addr(addr), ToLittleEndian(value, StoreSize(op)), wrapping)
    case None => Effect(m, None, Fault(OutOfBoundsWrite(Addr(addr))))
    case Some(m') => Effect(m', None, Advance(0, Zero()))
  }

  /** Address of the instruction being executed, which is four bytes long; `pc` is behind it. */
  function OldPc(pc: nat): U64 { ToWord(if pc >= 4 then pc - 4 else 0) }

  /** Clear the lowest bit. */
  function Even(w: U64): U64 { w[0 := false] }

  function Sum(a: U64, b: U64): U64 { Words.Add(a, b) }

  /** Targets of `jal` and branches, and of `jalr`. */
  function Relative(pc: nat, imm: U64): nat { Addr(Sum(OldPc(pc), imm)) }

  function ThroughRegister(a: U64, imm: U64): nat { Addr(Even(Sum(a, imm))) }

  function Compute(i: Instr, a: U64, b: U64, pc: nat): (Option<(nat, U64)>, Next<U64>) {
    match i
    case R(op, rd, _, _) => (None, Advance(rd, AluR(op, a, b)))
    case I(op, rd, _, imm) => (None, Advance(rd, AluI(op, a, imm)))
    case Shift(op, rd, _, k) => (None, Advance(rd, AluShift(op, a, k)))
    case ShiftW(op, rd, _, k) => (None, Advance(rd, AluShiftW(op, a, k)))
    case Branch(op, _, _, imm) =>
      if Taken(op, a, b) then (None, Jump(Relative(pc, imm))) else (None, Advance(0, Zero()))
    case Jalr(rd, _, imm) => (Some((rd, ToWord(pc))), Jump(ThroughRegister(a, imm)))
    case Jal(rd, imm) => (Some((rd, ToWord(pc))), Jump(Relative(pc, imm)))
    case Lui(rd, imm) => (None, Advance(rd, imm))
    case Auipc(rd, imm) => (None, Advance(rd, Sum(OldPc(pc), imm)))
    case Ecall => (None, Fault(Illegal(if pc >= 4 then pc - 4 else 0)))
    case Unimp => (None, Fault(Illegal(if pc >= 4 then pc - 4 else 0)))
    case _ => (None, Advance(0, Zero()))
  }

  /** Execution over the checked or the wrapping memory, with a handler that refuses `ecall`. */
  function Execute(i: Instr, a: U64, b: U64, m: Memory, pc: nat, wrapping: bool): Effect<U64> {
    match i
    case Load(op, rd, _, imm) => LoadEffect(op, rd, m, Sum(a, imm), wrapping)
    case Store(op, _, _, imm) => StoreEffect(op, b, m, Sum(a, imm), wrapping)
    case _ => Effect(m, Compute(i, a, b, pc).0, Compute(i, a, b, pc).1)
  }

  function Operands(i: Instr): (nat, nat) {
    match i
    case R(_, _, rs1, rs2) => (rs1, rs2)
    case I(_, _, rs1, _) => (rs1, 0)
    case Shift(_, _, rs1, _) => (rs1, 0)
    case ShiftW(_, _, rs1, _) => (rs1, 0)
    case Load(_, _, rs1, _) => (rs1, 0)
    case Store(_, rs2, rs1, _) => (rs1, rs2)
    case Branch(_, rs1, rs2, _) => (rs1, rs2)
    case Jalr(_, rs1, _) => (rs1, 0)
    case _ => (0, 0)
  }

  function Rv64Isa(decode: Word -> Option<Instr>, wrapping: bool): Isa<Instr, U64> {
    Isa(decode, (i: Instr) => 4, (i: Instr) => Operands(i),
        (i: Instr, a: U64, b: U64, m: Memory, pc: nat) => Execute(i, a, b, m, pc, wrapping),
        Unimp, Zero(), 4)
  }

  lemma Rv64IsWellFormed(decode: Word -> Option<Instr>, wrapping: bool)
    ensures WellFormed(Rv64Isa(decode, wrapping))
  {
  }

  lemma LoadSame(op: OpLoad, rd: nat, m: Memory, addr: U64)
    requires m.base < U64_LIMIT && m.base + |m.data| <= U64_LIMIT
    ensures LoadEffect(op, rd, m, addr, true) == LoadEffect(op, rd, m, addr, false)
    ensures LoadEffect(op, rd, m, addr, false).memory == m
  {
    AccessSame(m, Addr(addr), ToLittleEndian(Zero(), LoadSize(op)));
  }

  lemma StoreSame(op: OpStore, value: U64, m: Memory, addr: U64)
    requires m.base < U64_LIMIT && m.base + |m.data| <= U64_LIMIT
    ensures StoreEffect(op, value, m, addr, true) == StoreEffect(op, value, m, addr, false)
    ensures var m' := StoreEffect(op, value, m, addr, false).memory; m'.base == m.base && |m'.data| == |m.data|
  {
    AccessSame(m, Addr(addr), ToLittleEndian(value, StoreSize(op)));
  }

  /** Over a memory within the address space the two bounds tests execute every instruction alike. */
  lemma ExecuteSame(i: Instr, a: U64, b: U64, m: Memory, pc: nat)
    requires m.base < U64_LIMIT && m.base + |m.data| <= U64_LIMIT
    ensures Execute(i, a, b, m, pc, true) == Execute(i, a, b, m, pc, false)
    ensures var m' := Execute(i, a, b, m, pc, false).memory; m'.base == m.base && |m'.data| == |m.data|
  {
    if i.Load? {
      LoadSame(i.opLoad, i.rd, m, Sum(a, i.imm));
    } else if i.Store? {
      StoreSame(i.opStore, b, m, Sum(a, i.imm));
    }
  }
}
