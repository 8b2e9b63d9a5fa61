/** RV32I arithmetic, and its translation to RV64I. */
module Rv32 {
  import opened Words
  import opened Machine
  import Rv64

  datatype Op = Add | Sub | Sll | Slt | Sltu | Xor | Srl | Sra | Or | And
  datatype OpImm = Addi | Slti | Sltiu | Xori | Ori | Andi
  datatype OpShift = Slli | Srli | Srai

  /** Register and immediate arithmetic; immediates are already sign-extended. */
  datatype Instr =
    | R(op: Op, rd: nat, rs1: nat, rs2: nat)
    | I(opImm: OpImm, rd: nat, rs1: nat, imm: U32)
    | Shift(opShift: OpShift, rd: nat, rs1: nat, shamt: Rv64.Shamt5)
    | Lui(rd: nat, imm: U32)

  function Amount5(b: U32): Rv64.Shamt5 {
    ValueInRange(b, 5);
    Rv64.Powers();
    ValueBelow(b, 5)
  }

  function AluR(op: Op, a: U32, b: U32): U32 {
    match op
    case Add => Words.Add(a, b)
    case Sub => Words.Sub(a, b)
    case Sll => Shl(a, Amount5(b))
    case Slt => Flag(LessSigned(a, b), 32)
    case Sltu => Flag(LessUnsigned(a, b), 32)
    case Xor => Words.Xor(a, b)
    case Srl => Shr(a, Amount5(b))
    case Sra => Words.Sra(a, Amount5(b))
    case Or => Words.Or(a, b)
    case And => Words.And(a, b)
  }

  function AluI(op: OpImm, a: U32, imm: U32): U32 {
    match op
    case Addi => Words.Add(a, imm)
    case Slti => Flag(LessSigned(a, imm), 32)
    case Sltiu => Flag(LessUnsigned(a, imm), 32)
    case Xori => Words.Xor(a, imm)
    case Ori => Words.Or(a, imm)
    case Andi => Words.And(a, imm)
  }

  function AluShift(op: OpShift, a: U32, k: Rv64.Shamt5): U32 {
    match op
    case Slli => Shl(a, k)
    case Srli => Shr(a, k)
    case Srai => Words.Sra(a, k)
  }

  predicate Taken(op: Rv64.OpBranch, a: U32, b: U32) {
    match op
    case Beq => a == b
    case Bne => a != b
    case Blt => LessSigned(a, b)
    case Bge => !LessSigned(a, b)
    case Bltu => LessUnsigned(a, b)
    case Bgeu => !LessUnsigned(a, b)
  }

  // ---------- translation ----------

  /** Additions, subtractions and shifts become their word forms, everything else stays. */
  function TranslateOp(op: Op): Rv64.Op {
    match op
    case Add => Rv64.Addw
    case Sub => Rv64.Subw
    case Sll => Rv64.Sllw
    case Slt => Rv64.Slt
    case Sltu => Rv64.Sltu
    case Xor => Rv64.Op.Xor
    case Srl => Rv64.Srlw
    case Sra => Rv64.Sraw
    case Or => Rv64.Op.Or
    case And => Rv64.Op.And
  }

  function TranslateImm(op: OpImm): Rv64.OpImm {
    match op
    case Addi => Rv64.Addiw
    case Slti => Rv64.Slti
    case Sltiu => Rv64.Sltiu
    case Xori => Rv64.Xori
    case Ori => Rv64.Ori
    case Andi => Rv64.Andi
  }

  function TranslateShift(op: OpShift): Rv64.OpShiftW {
    match op
    case Slli => Rv64.Slliw
    case Srli => Rv64.Srliw
    case Srai => Rv64.Sraiw
  }

  function Translate(i: Instr): Rv64.Instr {
    match i
    case R(op, rd, rs1, rs2) => Rv64.R(TranslateOp(op), rd, rs1, rs2)
    case I(op, rd, rs1, imm) => Rv64.I(TranslateImm(op), rd, rs1, Sext(imm))
    case Shift(op, rd, rs1, k) => Rv64.ShiftW(TranslateShift(op), rd, rs1, k)
    case Lui(rd, imm) => Rv64.Lui(rd, Sext(imm))
  }

  // ---------- sign extension commutes with every operation ----------

  lemma AmountOfSext(b: U32)
    ensures Rv64.Amount5(Sext(b)) == Amount5(b)
  {
    ValuePrefix(Sext(b), b, 5);
  }

  lemma CompareCommutes(a: U32, b: U32)
    ensures Rv64.AluR(Rv64.Slt, Sext(a), Sext(b)) == Sext(AluR(Slt, a, b))
    ensures Rv64.AluR(Rv64.Sltu, Sext(a), Sext(b)) == Sext(AluR(Sltu, a, b))
  {
    LessOfSext(a, b);
    FlagOfSext(LessSigned(a, b));
    FlagOfSext(LessUnsigned(a, b));
  }

  lemma ShiftCommutes(a: U32, b: U32)
    ensures Rv64.AluR(Rv64.Sllw, Sext(a), Sext(b)) == Sext(AluR(Sll, a, b))
    ensures Rv64.AluR(Rv64.Srlw, Sext(a), Sext(b)) == Sext(AluR(Srl, a, b))
    ensures Rv64.AluR(Rv64.Sraw, Sext(a), Sext(b)) == Sext(AluR(Sra, a, b))
  {
    LowOfSext(a);
    AmountOfSext(b);
  }

  lemma AluRCommutes(op: Op, a: U32, b: U32)
    ensures Rv64.AluR(TranslateOp(op), Sext(a), Sext(b)) == Sext(AluR(op, a, b))
  {
    if op.Slt? || op.Sltu? {
      CompareCommutes(a, b);
    } else if op.Sll? || op.Srl? || op.Sra? {
      ShiftCommutes(a, b);
    } else if op.Add? || op.Sub? {
      LowOfSext(a);
      LowOfSext(b);
    } else {
      BitwiseOfSext(a, b);
    }
  }

  lemma AluICommutes(op: OpImm, a: U32, imm: U32)
    ensures Rv64.AluI(TranslateImm(op), Sext(a), Sext(imm)) == Sext(AluI(op, a, imm))
  {
    LowOfSext(a);
    LowOfSext(imm);
    BitwiseOfSext(a, imm);
    LessOfSext(a, imm);
    FlagOfSext(LessSigned(a, imm));
    FlagOfSext(LessUnsigned(a, imm));
  }

  lemma AluShiftCommutes(op: OpShift, a: U32, k: Rv64.Shamt5)
    ensures Rv64.AluShiftW(TranslateShift(op), Sext(a), k) == Sext(AluShift(op, a, k))
  {
    LowOfSext(a);
  }

  /** Every branch gives the same verdict on sign-extended operands. */
  lemma BranchCommutes(op: Rv64.OpBranch, a: U32, b: U32)
    ensures Rv64.Taken(op, Sext(a), Sext(b)) == Taken(op, a, b)
  {
    LessOfSext(a, b);
  }

  // ---------- whole programs ----------

  function Zero32(): U32 { seq(32, i => false) }

  function Read32(regs: seq<U32>, r: nat): U32 {
    if r == 0 || r >= |regs| then Zero32() else regs[r]
  }

  function Read64(regs: seq<U64>, r: nat): U64 {
    if r == 0 || r >= |regs| then Zero() else regs[r]
  }

  function Step32(i: Instr, regs: seq<U32>): seq<U32> {
    match i
    case R(op, rd, rs1, rs2) => WriteReg(regs, rd, AluR(op, Read32(regs, rs1), Read32(regs, rs2)))
    case I(op, rd, rs1, imm) => WriteReg(regs, rd, AluI(op, Read32(regs, rs1), imm))
    case Shift(op, rd, rs1, k) => WriteReg(regs, rd, AluShift(op, Read32(regs, rs1), k))
    case Lui(rd, imm) => WriteReg(regs, rd, imm)
  }

  /** A non-branching RV64I instruction. */
  function Step64(i: Rv64.Instr, regs: seq<U64>): seq<U64> {
    var (rs1, rs2) := Rv64.Operands(i);
    match Rv64.Compute(i, Read64(regs, rs1), Read64(regs, rs2), 0).1
    case Advance(rd, v) => WriteReg(regs, rd, v)
    case _ => regs
  }

  /** Executes a program instruction by instruction. */
  function RunWith<I, S>(step: (I, S) -> S, program: seq<I>, s: S): S
    decreases |program|
  {
    if program == [] then s else RunWith(step, program[1..], step(program[0], s))
  }

  function Run32(program: seq<Instr>, regs: seq<U32>): seq<U32> {
    RunWith(Step32, program, regs)
  }

  function Run64(program: seq<Rv64.Instr>, regs: seq<U64>): seq<U64> {
    RunWith(Step64, program, regs)
  }

  function TranslateAll(program: seq<Instr>): (r: seq<Rv64.Instr>)
    ensures |r| == |program|
  {
    seq(|program|, k requires 0 <= k < |program| => Translate(program[k]))
  }

  /** Every register holds the sign extension of its counterpart. */
  predicate Extends(wide: seq<U64>, narrow: seq<U32>) {
    |wide| == |narrow| && forall r | 0 <= r < |narrow| :: wide[r] == Sext(narrow[r])
  }

  lemma ReadExtends(wide: seq<U64>, narrow: seq<U32>, r: nat)
    requires Extends(wide, narrow)
    ensures Read64(wide, r) == Sext(Read32(narrow, r))
  {
  }

  lemma StepExtends(i: Instr, wide: seq<U64>, narrow: seq<U32>)
    requires Extends(wide, narrow)
    ensures Extends(Step64(Translate(i), wide), Step32(i, narrow))
  {
    match i {
      case R(op, rd, rs1, rs2) =>
        ReadExtends(wide, narrow, rs1);
        ReadExtends(wide, narrow, rs2);
        AluRCommutes(op, Read32(narrow, rs1), Read32(narrow, rs2));
      case I(op, rd, rs1, imm) =>
        ReadExtends(wide, narrow, rs1);
        AluICommutes(op, Read32(narrow, rs1), imm);
      case Shift(op, rd, rs1, k) =>
        ReadExtends(wide, narrow, rs1);
        AluShiftCommutes(op, Read32(narrow, rs1), k);
      case Lui(rd, imm) =>
    }
  }

  /** A relation that every pair of steps keeps is kept by runs of a program and its translation. */
  lemma {:induction false} RunsRelated<I(!new), J, S(!new), T(!new)>(
      step: (I, S) -> S, step': (J, T) -> T, related: (T, S) -> bool, translate: I -> J,
      program: seq<I>, program': seq<J>, s: S, t: T)
    requires |program'| == |program| && forall k | 0 <= k < |program| :: program'[k] == translate(program[k])
    requires forall i, s, t | related(t, s) :: related(step'(translate(i), t), step(i, s))
    requires related(t, s)
    ensures related(RunWith(step', program', t), RunWith(step, program, s))
    decreases |program|
  {
    if program != [] {
      assert program'[0] == translate(program[0]);
      RunsRelated(step, step', related, translate, program[1..], program'[1..], step(program[0], s), step'(program'[0], t));
    }
  }

  lemma RunExtends(program: seq<Instr>, wide: seq<U64>, narrow: seq<U32>)
    requires Extends(wide, narrow)
    ensures Extends(Run64(TranslateAll(program), wide), Run32(program, narrow))
  {
    forall i, narrow, wide | Extends(wide, narrow) ensures Extends(Step64(Translate(i), wide), Step32(i, narrow)) {
      StepExtends(i, wide, narrow);
    }
    RunsRelated(Step32, Step64, Extends, Translate, program, TranslateAll(program), narrow, wide);
  }

  /** The translation preserves meaning: after any program every register is the sign extension of its
      32-bit counterpart, and every branch on any two registers goes the same way. */
  lemma TranslationPreservesMeaning(program: seq<Instr>, wide: seq<U64>, narrow: seq<U32>,
                                    op: Rv64.OpBranch, rs1: nat, rs2: nat)
    requires Extends(wide, narrow)
    ensures var wide', narrow' := Run64(TranslateAll(program), wide), Run32(program, narrow);
            && Extends(wide', narrow')
            && Rv64.Taken(op, Read64(wide', rs1), Read64(wide', rs2)) == Taken(op, Read32(narrow', rs1), Read32(narrow', rs2))
  {
    RunExtends(program, wide, narrow);
    var wide', narrow' := Run64(TranslateAll(program), wide), Run32(program, narrow);
    ReadExtends(wide', narrow', rs1);
    ReadExtends(wide', narrow', rs2);
    BranchCommutes(op, Read32(narrow', rs1), Read32(narrow', rs2));
  }
}
