/** What each RV64I instruction does to a running machine, in numbers. */
module Rv64Steps {
  import opened Machine
  import opened Words
  import opened Options
  import opened Stepping
  import Rv64
  import opened Rv64Numbers

  function Reg(s: Status<U64>, r: nat): U64 {
    if r == 0 || r >= |s.regs| then Zero() else s.regs[r]
  }

  /** The machine went on behind the instruction with `v` in register `rd`, and nothing else changed. */
  ghost predicate Wrote(s: Status<U64>, s': Status<U64>, rd: nat, v: U64) {
    && s.Running? && s'.Running? && s'.at == s.at + 4 && s'.memory == s.memory && |s'.regs| == |s.regs|
    && (0 < rd < |s.regs| ==> Reg(s', rd) == v)
    && (forall r: nat | r != rd :: Reg(s', r) == Reg(s, r))
  }

  ghost predicate Executes(decode: Word -> Option<Rv64.Instr>, s: Status<U64>, i: Rv64.Instr) {
    Fetches(Rv64.Rv64Isa(decode, false), s, i)
  }

  function Next(decode: Word -> Option<Rv64.Instr>, trap: nat, s: Status<U64>): Status<U64> {
    BasicStep(Rv64.Rv64Isa(decode, false), trap, false, s)
  }

  lemma Advances(decode: Word -> Option<Rv64.Instr>, trap: nat, s: Status<U64>, i: Rv64.Instr, rd: nat, v: U64)
    requires Executes(decode, s, i)
    requires EffectOf(Rv64.Rv64Isa(decode, false), s, i) == Effect(s.memory, None, Advance(rd, v))
    ensures Wrote(s, Next(decode, trap, s), rd, v)
  {
    var isa := Rv64.Rv64Isa(decode, false);
    AdvanceStep(isa, trap, s, i, rd, v);
    var s' := Next(decode, trap, s);
    forall r: nat ensures Reg(s', r) == ReadReg(isa, s'.regs, r) && Reg(s, r) == ReadReg(isa, s.regs, r) {
    }
  }

  /** Register arithmetic. */
  lemma RegisterStep(decode: Word -> Option<Rv64.Instr>, trap: nat, s: Status<U64>,
                     op: Rv64.Op, rd: nat, rs1: nat, rs2: nat) returns (v: U64)
    requires Executes(decode, s, Rv64.R(op, rd, rs1, rs2))
    ensures Wrote(s, Next(decode, trap, s), rd, v) && Meant(op, Reg(s, rs1), Reg(s, rs2), v)
  {
    v := Rv64.AluR(op, Reg(s, rs1), Reg(s, rs2));
    Advances(decode, trap, s, Rv64.R(op, rd, rs1, rs2), rd, v);
    AluIsNumeric(op, Reg(s, rs1), Reg(s, rs2));
  }

  /** Immediate arithmetic. */
  lemma ImmediateStep(decode: Word -> Option<Rv64.Instr>, trap: nat, s: Status<U64>,
                      op: Rv64.OpImm, rd: nat, rs1: nat, imm: U64) returns (v: U64)
    requires Executes(decode, s, Rv64.I(op, rd, rs1, imm))
    ensures Wrote(s, Next(decode, trap, s), rd, v) && Meant(Immediate(op), Reg(s, rs1), imm, v)
  {
    v := Rv64.AluI(op, Reg(s, rs1), imm);
    Advances(decode, trap, s, Rv64.I(op, rd, rs1, imm), rd, v);
    ImmediateIsNumeric(op, Reg(s, rs1), imm);
  }

  /** Shifts by constants. */
  lemma ShiftStep(decode: Word -> Option<Rv64.Instr>, trap: nat, s: Status<U64>,
                  op: Rv64.OpShift, rd: nat, rs1: nat, k: Rv64.Shamt6) returns (v: U64)
    requires Executes(decode, s, Rv64.Shift(op, rd, rs1, k))
    ensures Wrote(s, Next(decode, trap, s), rd, v) && ShiftMeant(op, Reg(s, rs1), k, v)
  {
    v := Rv64.AluShift(op, Reg(s, rs1), k);
    Advances(decode, trap, s, Rv64.Shift(op, rd, rs1, k), rd, v);
    ShiftIsNumeric(op, Reg(s, rs1), k);
  }

  lemma ShiftWStep(decode: Word -> Option<Rv64.Instr>, trap: nat, s: Status<U64>,
                   op: Rv64.OpShiftW, rd: nat, rs1: nat, k: Rv64.Shamt5) returns (v: U64)
    requires Executes(decode, s, Rv64.ShiftW(op, rd, rs1, k))
    ensures Wrote(s, Next(decode, trap, s), rd, v) && ShiftWMeant(op, Reg(s, rs1), k, v)
  {
    v := Rv64.AluShiftW(op, Reg(s, rs1), k);
    Advances(decode, trap, s, Rv64.ShiftW(op, rd, rs1, k), rd, v);
    ShiftWIsNumeric(op, Reg(s, rs1), k);
  }

  /** Upper immediates, alone and relative to the instruction. */
  lemma UpperStep(decode: Word -> Option<Rv64.Instr>, trap: nat, s: Status<U64>, rd: nat, imm: U64) returns (v: U64)
    requires s.Running? && s.at + 4 < U64_LIMIT
    requires Executes(decode, s, Rv64.Lui(rd, imm)) || Executes(decode, s, Rv64.Auipc(rd, imm))
    ensures Wrote(s, Next(decode, trap, s), rd, v)
    ensures Executes(decode, s, Rv64.Lui(rd, imm)) ==> v == imm
    ensures Executes(decode, s, Rv64.Auipc(rd, imm)) ==> Value(v) == (s.at + Value(imm)) % U64_LIMIT
  {
    if Executes(decode, s, Rv64.Lui(rd, imm)) {
      v := imm;
      Advances(decode, trap, s, Rv64.Lui(rd, imm), rd, v);
    } else {
      v := Rv64.Sum(Rv64.OldPc(s.at + 4), imm);
      Advances(decode, trap, s, Rv64.Auipc(rd, imm), rd, v);
      RelativeTarget(s.at + 4, imm);
    }
  }

  /** Fences and breakpoints only move on; refused calls and the placeholder for undecodable words fail
      at their own address. */
  lemma SystemStep(decode: Word -> Option<Rv64.Instr>, trap: nat, s: Status<U64>, i: Rv64.Instr)
    requires Executes(decode, s, i) && (i.Fence? || i.Ebreak? || i.Ecall? || i.Unimp?)
    ensures i.Fence? || i.Ebreak? ==> Wrote(s, Next(decode, trap, s), 0, Zero())
    ensures i.Ecall? || i.Unimp? ==> Next(decode, trap, s) == Failed(s.regs, s.memory, Illegal(s.at))
  {
    if i.Fence? || i.Ebreak? {
      Advances(decode, trap, s, i, 0, Zero());
    } else {
      FaultStep(Rv64.Rv64Isa(decode, false), trap, s, i, Illegal(s.at));
    }
  }

  /** The address of a load or store. */
  function Address(s: Status<U64>, rs1: nat, imm: U64): nat {
    (Value(Reg(s, rs1)) + Value(imm)) % U64_LIMIT
  }

  /** Loads: the bytes at the address, extended, or a fault exactly when they are not all in the memory. */
  lemma LoadStep(decode: Word -> Option<Rv64.Instr>, trap: nat, s: Status<U64>,
                 op: Rv64.OpLoad, rd: nat, rs1: nat, imm: U64) returns (v: U64)
    requires Executes(decode, s, Rv64.Load(op, rd, rs1, imm))
    ensures var bytes := Machine.Load(s.memory, Address(s, rs1, imm), Rv64.LoadSize(op), false);
            if bytes.None? then Next(decode, trap, s) == Failed(s.regs, s.memory, OutOfBoundsRead(Address(s, rs1, imm)))
            else bytes.value != [] && Wrote(s, Next(decode, trap, s), rd, v) && LoadMeant(op, bytes.value, v)
  {
    var i := Rv64.Load(op, rd, rs1, imm);
    SumAddress(Reg(s, rs1), imm);
    var bytes := Machine.Load(s.memory, Address(s, rs1, imm), Rv64.LoadSize(op), false);
    if bytes.None? {
      v := Zero();
      FaultStep(Rv64.Rv64Isa(decode, false), trap, s, i, OutOfBoundsRead(Address(s, rs1, imm)));
    } else {
      v := Rv64.Extend(op, Rv64.FromLittleEndian(bytes.value));
      Advances(decode, trap, s, i, rd, v);
      LoadIsNumeric(op, bytes.value);
    }
  }

  lemma StoreEffectIs(decode: Word -> Option<Rv64.Instr>, s: Status<U64>, op: Rv64.OpStore, rs2: nat, rs1: nat, imm: U64)
    requires s.Running?
    ensures EffectOf(Rv64.Rv64Isa(decode, false), s, Rv64.Store(op, rs2, rs1, imm))
            == Rv64.StoreEffect(op, Reg(s, rs2), s.memory, Rv64.Sum(Reg(s, rs1), imm), false)
  {
  }

  /** Stores: the low bytes of the register at the address, or a fault exactly when they do not fit. */
  lemma StoreStep(decode: Word -> Option<Rv64.Instr>, trap: nat, s: Status<U64>,
                  op: Rv64.OpStore, rs2: nat, rs1: nat, imm: U64) returns (bytes: seq<Byte>)
    requires Executes(decode, s, Rv64.Store(op, rs2, rs1, imm))
    ensures |bytes| == Rv64.StoreSize(op) && Number(bytes) == Value(Reg(s, rs2)) % Pow2(8 * Rv64.StoreSize(op))
    ensures Stored(s, Next(decode, trap, s), Address(s, rs1, imm), bytes)
  {
    bytes := Rv64.ToLittleEndian(Reg(s, rs2), Rv64.StoreSize(op));
    StoreIsNumeric(op, Reg(s, rs2));
    assert Rv64.Addr(Rv64.Sum(Reg(s, rs1), imm)) == Address(s, rs1, imm) by { SumAddress(Reg(s, rs1), imm); }
    StoreAt(decode, trap, s, op, rs2, rs1, imm);
  }

  lemma StoreAt(decode: Word -> Option<Rv64.Instr>, trap: nat, s: Status<U64>, op: Rv64.OpStore, rs2: nat, rs1: nat, imm: U64)
    requires Executes(decode, s, Rv64.Store(op, rs2, rs1, imm))
    ensures Stored(s, Next(decode, trap, s), Rv64.Addr(Rv64.Sum(Reg(s, rs1), imm)),
                   Rv64.ToLittleEndian(Reg(s, rs2), Rv64.StoreSize(op)))
  {
    StoreEffectIs(decode, s, op, rs2, rs1, imm);
    StoreOutcome(decode, trap, s, Rv64.Store(op, rs2, rs1, imm), Rv64.Addr(Rv64.Sum(Reg(s, rs1), imm)),
                 Rv64.ToLittleEndian(Reg(s, rs2), Rv64.StoreSize(op)));
  }

  /** The bytes are in the memory and the machine went on, or they do not fit and it failed. */
  ghost predicate Stored(s: Status<U64>, s': Status<U64>, address: nat, bytes: seq<Byte>) {
    s.Running? &&
    match Machine.Store(s.memory, address, bytes, false)
    case None => s' == Failed(s.regs, s.memory, OutOfBoundsWrite(address))
    case Some(m) => s'.Running? && s'.memory == m && s'.at == s.at + 4 && forall r: nat :: Reg(s', r) == Reg(s, r)
  }

  lemma StoreOutcome(decode: Word -> Option<Rv64.Instr>, trap: nat, s: Status<U64>, i: Rv64.Instr,
                     address: nat, bytes: seq<Byte>)
    requires Executes(decode, s, i)
    requires EffectOf(Rv64.Rv64Isa(decode, false), s, i)
             == match Machine.Store(s.memory, address, bytes, false)
                case None => Effect(s.memory, None, Fault(OutOfBoundsWrite(address)))
                case Some(m) => Effect(m, None, Advance(0, Zero()))
    ensures Stored(s, Next(decode, trap, s), address, bytes)
  {
    var isa := Rv64.Rv64Isa(decode, false);
    if Machine.Store(s.memory, address, bytes, false).None? {
      FaultStep(isa, trap, s, i, OutOfBoundsWrite(address));
    } else {
      AdvanceStep(isa, trap, s, i, 0, Zero());
      SameRegisters(decode, s, Next(decode, trap, s));
    }
  }

  /** The machine took a jump: it goes on at the target, stops at the return address, or refuses a target
      that is no multiple of four; the memory stays. */
  ghost predicate Jumped(s: Status<U64>, s': Status<U64>, trap: nat, target: nat) {
    && s'.memory == s.memory
    && if target == trap then s'.Stopped?
       else if target % 4 != 0 then s'.Failed? && s'.error == Unaligned(target)
       else s'.Running? && s'.at == target
  }

  /** Register `rd` holds the number, and no other changed. */
  ghost predicate Linked(s: Status<U64>, s': Status<U64>, rd: nat, n: nat) {
    && |s'.regs| == |s.regs| && (0 < rd < |s.regs| ==> Value(Reg(s', rd)) == n)
    && (forall r: nat | r != rd :: Reg(s', r) == Reg(s, r))
  }

  lemma Links(decode: Word -> Option<Rv64.Instr>, trap: nat, s: Status<U64>, i: Rv64.Instr, rd: nat, target: nat)
    requires Executes(decode, s, i) && s.at + 4 < U64_LIMIT
    requires EffectOf(Rv64.Rv64Isa(decode, false), s, i)
             == Effect(s.memory, Some((rd, Rv64.ToWord(s.at + 4))), Jump(target))
    ensures Jumped(s, Next(decode, trap, s), trap, target) && Linked(s, Next(decode, trap, s), rd, s.at + 4)
  {
    var isa := Rv64.Rv64Isa(decode, false);
    JumpStep(isa, trap, s, i, target);
    WordOfAddress(s.at + 4);
    var s' := Next(decode, trap, s);
    forall r: nat ensures Reg(s', r) == ReadReg(isa, s'.regs, r) && Reg(s, r) == ReadReg(isa, s.regs, r) {
    }
  }

  /** `jal` puts the address behind it into its register and jumps relative to itself. */
  lemma JalStep(decode: Word -> Option<Rv64.Instr>, trap: nat, s: Status<U64>, rd: nat, imm: U64)
    requires s.Running? && s.at + 4 < U64_LIMIT && Executes(decode, s, Rv64.Jal(rd, imm))
    ensures Jumped(s, Next(decode, trap, s), trap, (s.at + Value(imm)) % U64_LIMIT)
    ensures Linked(s, Next(decode, trap, s), rd, s.at + 4)
  {
    RelativeTarget(s.at + 4, imm);
    Links(decode, trap, s, Rv64.Jal(rd, imm), rd, (s.at + Value(imm)) % U64_LIMIT);
  }

  lemma JalrLinks(decode: Word -> Option<Rv64.Instr>, trap: nat, s: Status<U64>, rd: nat, rs1: nat, imm: U64, target: nat)
    requires s.Running? && s.at + 4 < U64_LIMIT && Executes(decode, s, Rv64.Jalr(rd, rs1, imm))
    requires Rv64.ThroughRegister(Reg(s, rs1), imm) == target
    ensures Jumped(s, Next(decode, trap, s), trap, target) && Linked(s, Next(decode, trap, s), rd, s.at + 4)
  {
    Links(decode, trap, s, Rv64.Jalr(rd, rs1, imm), rd, target);
  }

  function EvenAddress(s: Status<U64>, rs1: nat, imm: U64): nat {
    Address(s, rs1, imm) - Address(s, rs1, imm) % 2
  }

  lemma JalrTarget(s: Status<U64>, rs1: nat, imm: U64)
    ensures Rv64.ThroughRegister(Reg(s, rs1), imm) == EvenAddress(s, rs1, imm)
  {
    RegisterTarget(Reg(s, rs1), imm);
  }

  /** `jalr` does so relative to a register, clearing the lowest bit. */
  lemma JalrStep(decode: Word -> Option<Rv64.Instr>, trap: nat, s: Status<U64>, rd: nat, rs1: nat, imm: U64)
    requires s.Running? && s.at + 4 < U64_LIMIT && Executes(decode, s, Rv64.Jalr(rd, rs1, imm))
    ensures Jumped(s, Next(decode, trap, s), trap, EvenAddress(s, rs1, imm))
    ensures Linked(s, Next(decode, trap, s), rd, s.at + 4)
  {
    JalrTarget(s, rs1, imm);
    JalrLinks(decode, trap, s, rd, rs1, imm, EvenAddress(s, rs1, imm));
  }

  lemma SameRegisters(decode: Word -> Option<Rv64.Instr>, s: Status<U64>, s': Status<U64>)
    requires forall r: nat | r != 0 :: ReadReg(Rv64.Rv64Isa(decode, false), s'.regs, r) == ReadReg(Rv64.Rv64Isa(decode, false), s.regs, r)
    ensures forall r: nat :: Reg(s', r) == Reg(s, r)
  {
    forall r: nat ensures Reg(s', r) == Reg(s, r) {
      if r != 0 { assert ReadReg(Rv64.Rv64Isa(decode, false), s'.regs, r) == ReadReg(Rv64.Rv64Isa(decode, false), s.regs, r); }
    }
  }

  lemma TakenStep(decode: Word -> Option<Rv64.Instr>, trap: nat, s: Status<U64>, i: Rv64.Instr, target: nat)
    requires Executes(decode, s, i) && EffectOf(Rv64.Rv64Isa(decode, false), s, i) == Effect(s.memory, None, Jump(target))
    ensures Jumped(s, Next(decode, trap, s), trap, target) && forall r: nat :: Reg(Next(decode, trap, s), r) == Reg(s, r)
  {
    JumpStep(Rv64.Rv64Isa(decode, false), trap, s, i, target);
    SameRegisters(decode, s, Next(decode, trap, s));
  }

  lemma BranchTaken(decode: Word -> Option<Rv64.Instr>, trap: nat, s: Status<U64>,
                    op: Rv64.OpBranch, rs1: nat, rs2: nat, imm: U64)
    requires s.Running? && Executes(decode, s, Rv64.Branch(op, rs1, rs2, imm))
    requires Rv64.Taken(op, Reg(s, rs1), Reg(s, rs2))
    ensures Jumped(s, Next(decode, trap, s), trap, Rv64.Relative(s.at + 4, imm))
    ensures forall r: nat :: Reg(Next(decode, trap, s), r) == Reg(s, r)
  {
    TakenStep(decode, trap, s, Rv64.Branch(op, rs1, rs2, imm), Rv64.Relative(s.at + 4, imm));
  }

  lemma BranchNotTaken(decode: Word -> Option<Rv64.Instr>, trap: nat, s: Status<U64>,
                       op: Rv64.OpBranch, rs1: nat, rs2: nat, imm: U64)
    requires s.Running? && Executes(decode, s, Rv64.Branch(op, rs1, rs2, imm))
    requires !Rv64.Taken(op, Reg(s, rs1), Reg(s, rs2))
    ensures Wrote(s, Next(decode, trap, s), 0, Zero())
  {
    Advances(decode, trap, s, Rv64.Branch(op, rs1, rs2, imm), 0, Zero());
  }

  /** A branch jumps exactly when its comparison holds, and falls through otherwise. */
  lemma BranchStep(decode: Word -> Option<Rv64.Instr>, trap: nat, s: Status<U64>,
                   op: Rv64.OpBranch, rs1: nat, rs2: nat, imm: U64)
    requires s.Running? && s.at + 4 < U64_LIMIT && Executes(decode, s, Rv64.Branch(op, rs1, rs2, imm))
    ensures BranchMeant(op, Reg(s, rs1), Reg(s, rs2)) ==>
              Jumped(s, Next(decode, trap, s), trap, (s.at + Value(imm)) % U64_LIMIT)
    ensures BranchMeant(op, Reg(s, rs1), Reg(s, rs2)) ==> forall r: nat :: Reg(Next(decode, trap, s), r) == Reg(s, r)
    ensures !BranchMeant(op, Reg(s, rs1), Reg(s, rs2)) ==> Wrote(s, Next(decode, trap, s), 0, Zero())
  {
    BranchIsNumeric(op, Reg(s, rs1), Reg(s, rs2));
    if BranchMeant(op, Reg(s, rs1), Reg(s, rs2)) {
      assert Rv64.Relative(s.at + 4, imm) == (s.at + Value(imm)) % U64_LIMIT by { RelativeTarget(s.at + 4, imm); }
      BranchTaken(decode, trap, s, op, rs1, rs2, imm);
    } else {
      BranchNotTaken(decode, trap, s, op, rs1, rs2, imm);
    }
  }
}
