/** The eager fetcher over the wrapping memory against the basic one over the checked memory, for RV64I. */
module Rv64Fetching {
  import opened Machine
  import opened Fetching
  import opened Rv64
  import opened Rv64Numbers
  import opened Words
  import opened Options

  predicate InAddressSpace(m: Memory) {
    m.base < U64_LIMIT && m.base + |m.data| <= U64_LIMIT
  }

  lemma SameExecution(decode: Word -> Option<Instr>)
    ensures SameOver(Rv64Isa(decode, true), Rv64Isa(decode, false), InAddressSpace)
  {
    forall i, a, b, m, pc | InAddressSpace(m)
      ensures Execute(i, a, b, m, pc, true) == Execute(i, a, b, m, pc, false)
      ensures InAddressSpace(Execute(i, a, b, m, pc, true).memory)
    {
      ExecuteSame(i, a, b, m, pc);
    }
  }

  /** Whole RV64I runs: decoding up front over the memory with wrapping bounds tests agrees after every
      step with decoding each time over the memory with checked ones, exactly when every jump is to the
      return address, to an odd address, or to a multiple of four inside the table. */
  lemma Rv64EagerSimulatesBasic(decode: Word -> Option<Instr>, t: Table<Instr>, code: seq<Byte>,
                                e: Status<U64>, b: Status<U64>, n: nat)
    requires Decoded(Rv64Isa(decode, false), t, code)
    requires Related(t, e, b) && InAddressSpace(b.memory)
    requires FetchesInside(Rv64Isa(decode, false), code, t.base, t.trap, b, n)
    ensures AgreeThroughout(Rv64Isa(decode, true), Rv64Isa(decode, false), t, e, b, n)
            <==> AllJumpsAlike(Rv64Isa(decode, false), t, b, n)
  {
    SameExecution(decode);
    Rv64IsWellFormed(decode, false);
    EagerSimulatesBasicOver(Rv64Isa(decode, true), Rv64Isa(decode, false), InAddressSpace, t, code, e, b, n);
  }

  /** Any code, every word of which decodes to a `jalr` to the address in register 1. */
  const JUMPING: Word -> Option<Instr> := (w: Word) => Some(Jalr(0, 1, Zero()))

  lemma JumpsThere(s: Status<U64>, x: nat)
    requires s.Running? && |s.regs| == 2 && x < U64_LIMIT && s.regs[1] == ToWord(x) && x % 2 == 0
    requires FetchWord(s.memory, s.at, false).Some?
    ensures NextJump(Rv64Isa(JUMPING, false), s) == Some(x)
  {
    TargetInRegister(x);
  }

  /** Such a jump to an even address inside the table that is no multiple of four separates the two
      machines: the eager one goes on there, the basic one refuses it. One to a multiple of four outside
      the table does the opposite. */
  lemma JumpSeparates(t: Table<Instr>, code: seq<Byte>, s: Status<U64>, x: nat)
    requires Decoded(Rv64Isa(JUMPING, false), t, code) && s.Running? && CodeIntact(s.memory, code, t.base)
    requires t.base == 0 && s.at == 0 && 4 <= |code| && x % 2 == 0 && x < U64_LIMIT && x != t.trap
    requires |s.regs| == 2 && s.regs[1] == ToWord(x)
    ensures var isa := Rv64Isa(JUMPING, false);
            var e, b := EagerStep(isa, t, s), BasicStep(isa, t.trap, false, s);
            && Related(t, s, s) && Fetchable(t, 0)
            && (x % 4 == 2 && x + 2 <= |code| ==>
                  e.Running? && GetPc(t, e.at) == x && b == Failed(b.regs, b.memory, Unaligned(x)))
            && (x % 4 == 0 && x >= |code| ==>
                  e == Failed(e.regs, e.memory, OutOfBoundsRead(x)) && b == Running(b.regs, b.memory, x))
  {
    var isa := Rv64Isa(JUMPING, false);
    Rv64IsWellFormed(JUMPING, false);
    FetchSame(isa, t, code, s.memory, 0);
    JumpsThere(s, x);
    StepSame(isa, t, code, s, s);
  }
}
