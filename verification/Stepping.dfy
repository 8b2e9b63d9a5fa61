/** What one instruction does to registers, memory and program counter. */
module Stepping {
  import opened Machine
  import opened Fetching
  import opened Words
  import opened Options

  /** The instruction that a running basic machine executes next. */
  predicate Fetches<I(==), V>(isa: Isa<I, V>, s: Status<V>, i: I) {
    && s.Running? && FetchWord(s.memory, s.at, false).Some?
    && isa.decode(FetchWord(s.memory, s.at, false).value) == Some(i)
  }

  /** What that instruction computes from the registers it reads. */
  function EffectOf<I, V>(isa: Isa<I, V>, s: Status<V>, i: I): Effect<V>
    requires s.Running?
  {
    isa.exec(i, ReadReg(isa, s.regs, isa.operands(i).0), ReadReg(isa, s.regs, isa.operands(i).1), s.memory,
             s.at + isa.size(i))
  }

  /** Register `rd` reads `v`, all others read as before, and register zero reads zero. */
  ghost predicate OnlyWrites<I, V(!new)>(isa: Isa<I, V>, before: Registers<V>, after: Registers<V>, rd: nat, v: V) {
    && |after| == |before|
    && (0 < rd < |before| ==> ReadReg(isa, after, rd) == v)
    && (forall r: nat | r != rd :: ReadReg(isa, after, r) == ReadReg(isa, before, r))
    && ReadReg(isa, after, 0) == isa.zero
  }

  /** An instruction that advances writes its result to its register, leaves the memory that it computed,
      and moves the program counter by its size. */
  lemma AdvanceStep<I(!new), V(!new)>(isa: Isa<I, V>, trap: nat, s: Status<V>, i: I, rd: nat, v: V)
    requires Fetches(isa, s, i) && EffectOf(isa, s, i).next == Advance(rd, v) && EffectOf(isa, s, i).link.None?
    ensures var s' := BasicStep(isa, trap, false, s);
            && s' == Running(s'.regs, EffectOf(isa, s, i).memory, s.at + isa.size(i))
            && OnlyWrites(isa, s.regs, s'.regs, rd, v)
  {
  }

  /** A jump with a link writes the link; one that is accepted continues at its target, one to the trap
      address stops, and one to an address that is not aligned is refused. */
  lemma JumpStep<I(!new), V(!new)>(isa: Isa<I, V>, trap: nat, s: Status<V>, i: I, target: nat)
    requires Fetches(isa, s, i) && EffectOf(isa, s, i).next == Jump(target)
    ensures var s', e := BasicStep(isa, trap, false, s), EffectOf(isa, s, i);
            && s'.memory == e.memory
            && (if target == trap then s'.Stopped?
                else if target % isa.alignment != 0 then s' == Failed(s'.regs, e.memory, Unaligned(target))
                else s' == Running(s'.regs, e.memory, target))
            && (e.link.Some? ==> OnlyWrites(isa, s.regs, s'.regs, e.link.value.0, e.link.value.1))
            && (e.link.None? ==> forall r: nat :: ReadReg(isa, s'.regs, r) == ReadReg(isa, s.regs, r))
  {
  }

  /** A fault ends the run and changes no register. */
  lemma FaultStep<I(!new), V(!new)>(isa: Isa<I, V>, trap: nat, s: Status<V>, i: I, error: Error)
    requires Fetches(isa, s, i) && EffectOf(isa, s, i).next == Fault(error) && EffectOf(isa, s, i).link.None?
    ensures BasicStep(isa, trap, false, s) == Failed(s.regs, EffectOf(isa, s, i).memory, error)
  {
  }

  /** Without an instruction at the program counter the run ends there: nothing to fetch is a read out of
      bounds, and what does not decode is illegal. */
  lemma NoInstruction<I(!new), V(!new)>(isa: Isa<I, V>, trap: nat, s: Status<V>)
    requires s.Running? && forall i :: !Fetches(isa, s, i)
    ensures var w := FetchWord(s.memory, s.at, false);
            BasicStep(isa, trap, false, s)
            == Failed(s.regs, s.memory, if w.None? then OutOfBoundsRead(s.at) else Illegal(s.at))
  {
    var w := FetchWord(s.memory, s.at, false);
    if w.Some? && isa.decode(w.value).Some? {
      assert Fetches(isa, s, isa.decode(w.value).value);
    }
  }

  // ---------- memory ----------

  /** An access is in bounds exactly when all its bytes are in the memory. */
  lemma InBoundsExactly(m: Memory, address: nat, size: nat)
    ensures InBounds(m, address, size, false) <==> m.base <= address && address + size <= m.base + |m.data|
    ensures Load(m, address, size, false).Some? <==> InBounds(m, address, size, false)
  {
  }

  /** The byte at an address. */
  function ByteAt(m: Memory, address: nat): Byte
    requires m.base <= address < m.base + |m.data|
  {
    m.data[address - m.base]
  }

  /** A load gives the bytes at its addresses. */
  lemma LoadGives(m: Memory, address: nat, size: nat)
    requires Load(m, address, size, false).Some?
    ensures var bytes := Load(m, address, size, false).value;
            |bytes| == size && forall k | 0 <= k < size :: bytes[k] == ByteAt(m, address + k)
  {
    InBoundsExactly(m, address, size);
  }

  /** What is fetched: the four bytes at the program counter, or, when the memory ends after two, those
      two and zeros unless their low bits announce a longer instruction. */
  lemma FetchGives(m: Memory, pc: nat)
    ensures var room, w := m.base + |m.data| - pc, FetchWord(m, pc, false);
            && (w.Some? <==> m.base <= pc && (room >= 4 || (2 <= room && ByteAt(m, pc) % 4 != 3)))
            && (w.Some? && room >= 4 ==> forall k | 0 <= k < 4 :: w.value[k] == ByteAt(m, pc + k))
            && (w.Some? && room < 4 ==> w.value == [ByteAt(m, pc), ByteAt(m, pc + 1), 0, 0])
  {
    InBoundsExactly(m, pc, 4);
    InBoundsExactly(m, pc, 2);
  }

  /** A store succeeds exactly in bounds, writes its bytes at its addresses, and changes no other byte. */
  lemma StoreWrites(m: Memory, address: nat, bytes: seq<Byte>)
    ensures Store(m, address, bytes, false).Some? <==> InBounds(m, address, |bytes|, false)
    ensures var r := Store(m, address, bytes, false);
            r.Some? ==>
              && r.value.base == m.base && |r.value.data| == |m.data|
              && (forall k | 0 <= k < |bytes| :: ByteAt(r.value, address + k) == bytes[k])
              && (forall a | m.base <= a < m.base + |m.data| && !(address <= a < address + |bytes|) ::
                    ByteAt(r.value, a) == ByteAt(m, a))
  {
    InBoundsExactly(m, address, |bytes|);
  }

  /** A load after a store returns what was stored, and elsewhere what was there. */
  lemma LoadAfterStore(m: Memory, address: nat, bytes: seq<Byte>, other: nat, size: nat)
    requires Store(m, address, bytes, false).Some?
    ensures var m' := Store(m, address, bytes, false).value;
            && Load(m', address, |bytes|, false) == Some(bytes)
            && (other + size <= address || address + |bytes| <= other ==>
                  Load(m', other, size, false) == Load(m, other, size, false))
  {
    var m' := Store(m, address, bytes, false).value;
    StoreWrites(m, address, bytes);
    InBoundsExactly(m, other, size);
    InBoundsExactly(m', other, size);
    LoadGives(m', address, |bytes|);
    if (other + size <= address || address + |bytes| <= other) && Load(m, other, size, false).Some? {
      LoadGives(m, other, size);
      LoadGives(m', other, size);
      forall k | 0 <= k < size ensures Load(m', other, size, false).value[k] == Load(m, other, size, false).value[k] {
        assert ByteAt(m', other + k) == ByteAt(m, other + k);
      }
      assert Load(m', other, size, false).value == Load(m, other, size, false).value;
    }
  }
}
