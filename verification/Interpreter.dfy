/** The two interpreters as they update registers, memory and program counter in place. */
module Interpreter {
  import opened Machine
  import opened Fetching
  import opened Words
  import opened Options

  class BasicInterpreter<I(!new), V(!new)> {
    const isa: Isa<I, V>
    const trap: nat
    var regs: Registers<V>
    var memory: Memory
    var pc: nat

    constructor (isa: Isa<I, V>, trap: nat, regs: Registers<V>, memory: Memory, pc: nat)
      ensures this.isa == isa && this.trap == trap
      ensures this.regs == regs && this.memory == memory && this.pc == pc
    {
      this.isa, this.trap, this.regs, this.memory, this.pc := isa, trap, regs, memory, pc;
    }

    /** The program counter moves only when the jump is taken. */
    method SetPc(target: nat) returns (r: SetPc)
      modifies this`pc
      ensures r == BasicSetPc(isa.alignment, trap, target)
      ensures pc == if r.Continue? then r.at else old(pc)
    {
      if target == trap {
        return Break;
      }
      if target % isa.alignment != 0 {
        return Refused(Unaligned(target));
      }
      pc := target;
      r := Continue(target);
    }

    /** One turn of the interpreter loop: fetch, decode, execute, write back. */
    method Step() returns (s: Status<V>)
      modifies this
      ensures s == BasicStep(isa, trap, false, old(Running(regs, memory, pc)))
      ensures regs == s.regs && memory == s.memory
      ensures s.Running? ==> pc == s.at
    {
      var word := FetchWord(memory, pc, false);
      if word.None? {
        return Failed(regs, memory, OutOfBoundsRead(pc));
      }
      var decoded := isa.decode(word.value);
      if decoded.None? {
        return Failed(regs, memory, Illegal(pc));
      }
      var i := decoded.value;
      pc := pc + isa.size(i);
      var (rs1, rs2) := isa.operands(i);
      var e := isa.exec(i, ReadReg(isa, regs, rs1), ReadReg(isa, regs, rs2), memory, pc);
      memory := e.memory;
      if e.link.Some? {
        regs := WriteReg(regs, e.link.value.0, e.link.value.1);
      }
      match e.next {
        case Advance(rd, v) =>
          regs := WriteReg(regs, rd, v);
          s := Running(regs, memory, pc);
        case Fault(error) => s := Failed(regs, memory, error);
        case Jump(target) =>
          var r := SetPc(target);
          match r {
            case Continue(_) =>
              regs := WriteReg(regs, 0, isa.zero);
              s := Running(regs, memory, pc);
            case Break => s := Stopped(regs, memory);
            case Refused(error) => s := Failed(regs, memory, error);
          }
      }
    }

    /** Up to `n` turns of the loop. */
    method Execute(n: nat) returns (s: Status<V>)
      modifies this
      ensures s == BasicRun(isa, trap, old(Running(regs, memory, pc)), n)
      ensures regs == s.regs && memory == s.memory && (s.Running? ==> pc == s.at)
    {
      s := Running(regs, memory, pc);
      var left := n;
      while left > 0 && s.Running?
        invariant 0 <= left <= n
        invariant regs == s.regs && memory == s.memory && (s.Running? ==> pc == s.at)
        invariant BasicRun(isa, trap, s, left) == BasicRun(isa, trap, old(Running(regs, memory, pc)), n)
      {
        s := Step();
        left := left - 1;
      }
      EndedStays(isa, trap, s, left);
    }
  }

  lemma {:induction false} EndedStays<I, V>(isa: Isa<I, V>, trap: nat, s: Status<V>, n: nat)
    requires n > 0 ==> !s.Running?
    ensures BasicRun(isa, trap, s, n) == s
    decreases n
  {
    if n > 0 { EndedStays(isa, trap, s, n - 1); }
  }

  class EagerFetcher<I(!new), V(!new)> {
    const isa: Isa<I, V>
    const table: Table<I>
    /** Byte offset of the next decoded instruction. */
    var offset: nat

    /** Decodes everything. The program counter starts where it should exactly when it is a whole number
        of half-words from the base, and the first fetch is inside the table when it is inside even code. */
    constructor (isa: Isa<I, V>, code: seq<Byte>, trap: nat, base: nat, pc: nat)
      requires base <= pc
      ensures this.isa == isa && table.base == base && table.trap == trap
      ensures EntriesOf(isa, table.entries, code) && (|code| % 2 == 0 ==> TableOf(isa, table, code))
      ensures GetPc(table, offset) == pc <==> (pc - base) % 2 == 0
      ensures |code| % 2 == 0 ==> (Fetchable(table, offset) <==> pc < base + |code|)
    {
      var entries := BuildTable(isa, code);
      this.isa := isa;
      this.table := Table(entries, base, trap);
      this.offset := (pc - base) / 2 * DECODED_SIZE;
    }

    method SetPc(target: nat) returns (r: SetPc)
      modifies this
      ensures r == EagerSetPc(table, target)
      ensures offset == if r.Continue? then r.at else old(offset)
    {
      if target == table.trap {
        return Break;
      }
      if target % 2 != 0 {
        return Refused(Unaligned(target));
      }
      if target < table.base {
        return Refused(OutOfBoundsRead(target));
      }
      var index := (target - table.base) / 2;
      if index >= |table.entries| {
        return Refused(OutOfBoundsRead(target));
      }
      offset := index * DECODED_SIZE;
      r := Continue(offset);
    }

    /** The unchecked fetch; the program counter afterwards is that of the next instruction. */
    method FetchInstruction() returns (i: I)
      requires Fetchable(table, offset) && forall i :: isa.size(i) == 2 || isa.size(i) == 4
      modifies this
      ensures i == table.entries[old(offset) / DECODED_SIZE]
      ensures offset % DECODED_SIZE == 0
      ensures GetPc(table, offset) == GetPc(table, old(offset)) + isa.size(i)
    {
      i := table.entries[offset / DECODED_SIZE];
      AdvanceOffset(table, offset, isa.size(i));
      offset := offset + isa.size(i) / 2 * DECODED_SIZE;
    }
  }
}
