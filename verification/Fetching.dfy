/** Eager fetching simulates fetching and decoding each time. */
module Fetching {
  import opened Machine
  import opened Words
  import opened Options

  // ---------- building the table ----------

  ghost predicate EntriesOf<I, V>(isa: Isa<I, V>, entries: seq<I>, code: seq<Byte>) {
    |entries| <= |code| / 2 && forall i | 0 <= i < |entries| :: entries[i] == Entry(isa, code, i)
  }

  lemma NextEntry<I, V>(isa: Isa<I, V>, entries: seq<I>, code: seq<Byte>, w: Word)
    requires EntriesOf(isa, entries, code) && 2 * |entries| + 2 <= |code| && w == WordAt(code, |entries|)
    ensures EntriesOf(isa, entries + [DecodeOrUnimp(isa, w)], code)
  {
  }

  lemma LastHalfWord(code: seq<Byte>, i: nat)
    requires 2 * i + 2 <= |code| < 2 * i + 4
    ensures WordAt(code, i) == [code[2 * i], code[2 * i + 1], 0, 0]
  {
  }

  /** `EagerTestInstructionFetcher::new`: decode at every half-word, two at a time after a four-byte
      instruction. */
  method BuildTable<I, V>(isa: Isa<I, V>, code: seq<Byte>) returns (entries: seq<I>)
    ensures EntriesOf(isa, entries, code)
    ensures |code| % 2 == 0 ==> |entries| == |code| / 2
  {
    entries := [];
    var offset := 0;
    while offset + 4 <= |code|
      invariant offset == 2 * |entries| && offset <= |code|
      invariant EntriesOf(isa, entries, code)
    {
      var bytes := code[offset..offset + 4];
      var instruction := DecodeOrUnimp(isa, bytes);
      NextEntry(isa, entries, code, bytes);
      entries := entries + [instruction];
      offset := offset + 2;
      if isa.size(instruction) == 4 {
        var word := if offset + 4 <= |code| then code[offset..offset + 4] else [bytes[2], bytes[3], 0, 0];
        if offset + 4 > |code| { LastHalfWord(code, |entries|); }
        NextEntry(isa, entries, code, word);
        entries := entries + [DecodeOrUnimp(isa, word)];
        offset := offset + 2;
      }
    }
    var remainder := code[offset..];
    if |remainder| == 2 {
      var word := [remainder[0], remainder[1], 0, 0];
      LastHalfWord(code, |entries|);
      NextEntry(isa, entries, code, word);
      entries := entries + [DecodeOrUnimp(isa, word)];
    }
  }

  // ---------- one step ----------

  /** Where the code lies in memory. */
  predicate CodeIntact(m: Memory, code: seq<Byte>, base: nat) {
    && m.base <= base && base - m.base + |code| <= |m.data|
    && m.data[base - m.base..base - m.base + |code|] == code
  }

  /** The next instruction is inside the code and not its final half-word. */
  predicate Inside(code: seq<Byte>, base: nat, pc: nat) {
    base <= pc && pc + 4 <= base + |code|
  }

  /** Same registers, memory and outcome, the byte offset standing for the program counter. */
  ghost predicate Related<I, V>(t: Table<I>, e: Status<V>, b: Status<V>) {
    && e.regs == b.regs && e.memory == b.memory
    && match b
       case Running(_, _, pc) => e.Running? && e.at % DECODED_SIZE == 0 && GetPc(t, e.at) == pc
       case Stopped(_, _) => e.Stopped?
       case Failed(_, _, error) => e.Failed? && e.error == error
  }

  /** The table is that of the code, at an even base. */
  ghost predicate Decoded<I, V>(isa: Isa<I, V>, t: Table<I>, code: seq<Byte>) {
    TableOf(isa, t, code) && |code| % 2 == 0 && t.base % 2 == 0 && t.base + |code| < U64_LIMIT
  }

  /** The program the two machines run. */
  ghost predicate Loaded<I(!new), V(!new)>(isa: Isa<I, V>, t: Table<I>, code: seq<Byte>) {
    WellFormed(isa) && Decoded(isa, t, code)
  }

  lemma FetchSame<I(!new), V(!new)>(isa: Isa<I, V>, t: Table<I>, code: seq<Byte>, memory: Memory, offset: nat)
    requires Loaded(isa, t, code) && CodeIntact(memory, code, t.base)
    requires offset % DECODED_SIZE == 0 && Inside(code, t.base, GetPc(t, offset))
    ensures Fetchable(t, offset)
    ensures FetchWord(memory, GetPc(t, offset), false) == Some(WordAt(code, offset / DECODED_SIZE))
    ensures t.entries[offset / DECODED_SIZE] == Entry(isa, code, offset / DECODED_SIZE)
  {
    var i := offset / DECODED_SIZE;
    var pc := GetPc(t, offset);
    assert pc == t.base + 2 * i;
    var from := pc - memory.base;
    assert memory.data[from..from + 4] == memory.data[t.base - memory.base..t.base - memory.base + |code|][2 * i..2 * i + 4];
  }

  lemma AdvanceOffset<I>(t: Table<I>, offset: nat, size: nat)
    requires offset % DECODED_SIZE == 0 && (size == 2 || size == 4)
    ensures (offset + size / 2 * DECODED_SIZE) % DECODED_SIZE == 0
    ensures GetPc(t, offset + size / 2 * DECODED_SIZE) == GetPc(t, offset) + size
  {
  }

  predicate OutsideTable<I>(t: Table<I>, target: nat) {
    target < t.base || (target - t.base) / 2 >= |t.entries|
  }

  /** A jump that the two fetchers take differently: to an even address which the instruction set does
      not align, or which is outside the table. */
  predicate Separates<I>(t: Table<I>, alignment: Alignment, target: nat) {
    target != t.trap && target % 2 == 0 && (target % alignment != 0 || OutsideTable(t, target))
  }

  /** Setting and getting the program counter is the identity on every accepted address exactly when the
      base address is even. */
  lemma SetPcThenGetPc<I>(t: Table<I>, target: nat)
    requires EagerSetPc(t, target).Continue?
    ensures GetPc(t, EagerSetPc(t, target).at) == target <==> t.base % 2 == 0
    ensures Fetchable(t, EagerSetPc(t, target).at)
  {
  }

  /** With an odd base the accepted address two becomes one. */
  lemma OddBaseMovesThePc<I>(i: I)
    ensures var t := Table([i], 1, 100);
            EagerSetPc(t, 2).Continue? && GetPc(t, EagerSetPc(t, 2).at) == 1
  {
  }

  /** The fetcher outcomes stand for the same program counter, or are the same. */
  ghost predicate SameOutcome<I>(t: Table<I>, e: SetPc, b: SetPc) {
    match b
    case Continue(pc) => e.Continue? && e.at % DECODED_SIZE == 0 && GetPc(t, e.at) == pc
    case _ => e == b
  }

  lemma SetPcSame<I>(t: Table<I>, alignment: Alignment, target: nat)
    requires t.base % 2 == 0
    ensures SameOutcome(t, EagerSetPc(t, target), BasicSetPc(alignment, t.trap, target))
            <==> !Separates(t, alignment, target)
  {
    if EagerSetPc(t, target).Continue? { SetPcThenGetPc(t, target); }
  }

  /** The jump an instruction takes, if any. */
  function JumpFrom<I, V>(isa: Isa<I, V>, i: I, regs: Registers<V>, memory: Memory, pc: nat): Option<nat> {
    var (rs1, rs2) := isa.operands(i);
    match isa.exec(i, ReadReg(isa, regs, rs1), ReadReg(isa, regs, rs2), memory, pc).next
    case Jump(target) => Some(target)
    case _ => None
  }

  /** What a separating jump leads to: the basic machine refuses an address that is not aligned, and the
      eager machine refuses one outside the table; otherwise they go on from there. */
  ghost predicate Separated<I, V>(t: Table<I>, alignment: Alignment, target: nat, e: Status<V>, b: Status<V>) {
    && e.memory == b.memory
    && (if target % alignment != 0 then b == Failed(b.regs, b.memory, Unaligned(target))
        else b == Running(b.regs, b.memory, target))
    && (if OutsideTable(t, target) then e == Failed(e.regs, e.memory, OutOfBoundsRead(target))
        else e.Running? && GetPc(t, e.at) == target)
  }

  /** Executing the same instruction with either program counter. */
  lemma FinishSame<I(!new), V(!new)>(isa: Isa<I, V>, t: Table<I>, i: I, regs: Registers<V>, memory: Memory, pc: nat, offset: nat)
    requires t.base % 2 == 0 && offset % DECODED_SIZE == 0 && GetPc(t, offset) == pc
    ensures var e := Finish(isa, i, regs, memory, pc, offset, (target: nat) => EagerSetPc(t, target));
            var b := Finish(isa, i, regs, memory, pc, pc, (target: nat) => BasicSetPc(isa.alignment, t.trap, target));
            match JumpFrom(isa, i, regs, memory, pc)
            case Some(target) =>
              if Separates(t, isa.alignment, target) then Separated(t, isa.alignment, target, e, b) else Related(t, e, b)
            case None => Related(t, e, b)
  {
    var jump := JumpFrom(isa, i, regs, memory, pc);
    if jump.Some? {
      SetPcSame(t, isa.alignment, jump.value);
      if EagerSetPc(t, jump.value).Continue? { SetPcThenGetPc(t, jump.value); }
    }
  }

  /** The jump that the basic machine takes next, if any. */
  function NextJump<I, V>(isa: Isa<I, V>, s: Status<V>): Option<nat> {
    match s
    case Running(regs, memory, pc) =>
      (match FetchWord(memory, pc, false)
       case None => None
       case Some(w) =>
         match isa.decode(w)
         case None => None
         case Some(i) => JumpFrom(isa, i, regs, memory, pc + isa.size(i)))
    case _ => None
  }

  /** The next jump, if any, is taken alike by both fetchers. */
  predicate JumpsAlike<I, V>(isa: Isa<I, V>, t: Table<I>, s: Status<V>) {
    NextJump(isa, s).Some? ==> !Separates(t, isa.alignment, NextJump(isa, s).value)
  }

  /** What a step does to both machines. */
  ghost predicate SteppedAlike<I, V>(isa: Isa<I, V>, t: Table<I>, b: Status<V>, e': Status<V>, b': Status<V>) {
    && (Related(t, e', b') <==> JumpsAlike(isa, t, b))
    && (!JumpsAlike(isa, t, b) ==> Separated(t, isa.alignment, NextJump(isa, b).value, e', b'))
  }

  lemma FinishAlike<I(!new), V(!new)>(isa: Isa<I, V>, t: Table<I>, i: I, b: Status<V>, pc: nat, offset: nat)
    requires t.base % 2 == 0 && offset % DECODED_SIZE == 0 && GetPc(t, offset) == pc
    requires b.Running? && NextJump(isa, b) == JumpFrom(isa, i, b.regs, b.memory, pc)
    ensures SteppedAlike(isa, t, b,
                         Finish(isa, i, b.regs, b.memory, pc, offset, (target: nat) => EagerSetPc(t, target)),
                         Finish(isa, i, b.regs, b.memory, pc, pc, (target: nat) => BasicSetPc(isa.alignment, t.trap, target)))
  {
    FinishSame(isa, t, i, b.regs, b.memory, pc, offset);
  }

  lemma StepDecoded<I(!new), V(!new)>(isa: Isa<I, V>, t: Table<I>, w: Word, e: Status<V>, b: Status<V>)
    requires WellFormed(isa) && t.base % 2 == 0 && Related(t, e, b) && e.Running? && Fetchable(t, e.at)
    requires FetchWord(b.memory, b.at, false) == Some(w) && isa.decode(w) == Some(t.entries[e.at / DECODED_SIZE])
    ensures SteppedAlike(isa, t, b, EagerStep(isa, t, e), BasicStep(isa, t.trap, false, b))
  {
    var i := t.entries[e.at / DECODED_SIZE];
    AdvanceOffset(t, e.at, isa.size(i));
    FinishAlike(isa, t, i, b, b.at + isa.size(i), e.at + isa.size(i) / 2 * DECODED_SIZE);
  }

  lemma StepUndecodable<I(!new), V(!new)>(isa: Isa<I, V>, t: Table<I>, w: Word, e: Status<V>, b: Status<V>)
    requires WellFormed(isa) && Related(t, e, b) && e.Running? && Fetchable(t, e.at)
    requires FetchWord(b.memory, b.at, false) == Some(w) && isa.decode(w).None? && t.entries[e.at / DECODED_SIZE] == isa.unimp
    ensures SteppedAlike(isa, t, b, EagerStep(isa, t, e), BasicStep(isa, t.trap, false, b))
  {
    AdvanceOffset(t, e.at, isa.size(isa.unimp));
  }

  /** One step: both machines agree afterwards exactly unless it jumps to an even address that is not
      aligned, which only the basic machine refuses, or that is outside the table, which only the eager
      machine refuses. */
  lemma StepSame<I(!new), V(!new)>(isa: Isa<I, V>, t: Table<I>, code: seq<Byte>, e: Status<V>, b: Status<V>)
    requires Loaded(isa, t, code) && Related(t, e, b)
    requires b.Running? ==> CodeIntact(b.memory, code, t.base) && Inside(code, t.base, b.at)
    ensures e.Running? ==> Fetchable(t, e.at)
    ensures SteppedAlike(isa, t, b, EagerStep(isa, t, e), BasicStep(isa, t.trap, false, b))
  {
    if e.Running? {
      FetchSame(isa, t, code, b.memory, e.at);
      var w := WordAt(code, e.at / DECODED_SIZE);
      if isa.decode(w).Some? {
        StepDecoded(isa, t, w, e, b);
      } else {
        StepUndecodable(isa, t, w, e, b);
      }
    }
  }

  // ---------- whole runs ----------

  function BasicRun<I, V>(isa: Isa<I, V>, trap: nat, s: Status<V>, n: nat): Status<V>
    decreases n
  {
    if n == 0 then s else BasicRun(isa, trap, BasicStep(isa, trap, false, s), n - 1)
  }

  /** An unchecked fetch outside the table is undefined; the model halts there. */
  function EagerRun<I, V>(isa: Isa<I, V>, t: Table<I>, s: Status<V>, n: nat): Status<V>
    decreases n
  {
    if n == 0 || (s.Running? && !Fetchable(t, s.at)) then s
    else EagerRun(isa, t, EagerStep(isa, t, s), n - 1)
  }

  /** The first `n` fetches of the basic machine are of intact code, before its final half-word. */
  predicate FetchesInside<I, V>(isa: Isa<I, V>, code: seq<Byte>, base: nat, trap: nat, s: Status<V>, n: nat)
    decreases n
  {
    n > 0 ==>
      && (s.Running? ==> CodeIntact(s.memory, code, base) && Inside(code, base, s.at))
      && FetchesInside(isa, code, base, trap, BasicStep(isa, trap, false, s), n - 1)
  }

  /** None of the first `n` steps of the basic machine takes a separating jump. */
  predicate AllJumpsAlike<I, V>(isa: Isa<I, V>, t: Table<I>, s: Status<V>, n: nat)
    decreases n
  {
    n > 0 ==> JumpsAlike(isa, t, s) && AllJumpsAlike(isa, t, BasicStep(isa, t.trap, false, s), n - 1)
  }

  /** Registers, memory, program counter and errors agree after each of the first `n` steps, the eager
      machine running instruction set `p` and the basic one `q`. */
  ghost predicate AgreeThroughout<I, V>(p: Isa<I, V>, q: Isa<I, V>, t: Table<I>, e: Status<V>, b: Status<V>, n: nat) {
    forall k | 0 <= k <= n :: Related(t, EagerRun(p, t, e, k), BasicRun(q, t.trap, b, k))
  }

  lemma AgreeOneMore<I, V>(isa: Isa<I, V>, t: Table<I>, e: Status<V>, b: Status<V>, n: nat)
    requires n > 0 && Related(t, e, b) && (e.Running? ==> Fetchable(t, e.at))
    ensures AgreeThroughout(isa, isa, t, e, b, n) <==>
            AgreeThroughout(isa, isa, t, EagerStep(isa, t, e), BasicStep(isa, t.trap, false, b), n - 1)
  {
    var e', b' := EagerStep(isa, t, e), BasicStep(isa, t.trap, false, b);
    if AgreeThroughout(isa, isa, t, e, b, n) {
      forall k | 0 <= k <= n - 1 ensures Related(t, EagerRun(isa, t, e', k), BasicRun(isa, t.trap, b', k)) {
        assert Related(t, EagerRun(isa, t, e, k + 1), BasicRun(isa, t.trap, b, k + 1));
      }
    }
    if AgreeThroughout(isa, isa, t, e', b', n - 1) {
      forall k | 0 <= k <= n ensures Related(t, EagerRun(isa, t, e, k), BasicRun(isa, t.trap, b, k)) {
        if k > 0 { assert Related(t, EagerRun(isa, t, e', k - 1), BasicRun(isa, t.trap, b', k - 1)); }
      }
    }
  }

  /** Eager fetching simulates basic fetching, for any instruction set and over runs of any length:
      registers, memory, program counter and reported errors agree after every step, the address of an
      undecodable word included, exactly when no step takes a separating jump. */
  lemma {:induction false} EagerSimulatesBasic<I(!new), V(!new)>(isa: Isa<I, V>, t: Table<I>, code: seq<Byte>,
                                                                e: Status<V>, b: Status<V>, n: nat)
    requires Loaded(isa, t, code) && Related(t, e, b) && FetchesInside(isa, code, t.base, t.trap, b, n)
    ensures AgreeThroughout(isa, isa, t, e, b, n) <==> AllJumpsAlike(isa, t, b, n)
    decreases n
  {
    if n == 0 {
      assert EagerRun(isa, t, e, 0) == e && BasicRun(isa, t.trap, b, 0) == b;
    } else {
      StepSame(isa, t, code, e, b);
      AgreeOneMore(isa, t, e, b, n);
      var e', b' := EagerStep(isa, t, e), BasicStep(isa, t.trap, false, b);
      if JumpsAlike(isa, t, b) {
        EagerSimulatesBasic(isa, t, code, e', b', n - 1);
      } else {
        assert EagerRun(isa, t, e', 0) == e' && BasicRun(isa, t.trap, b', 0) == b';
      }
    }
  }

  /** With half-word alignment a jump that stays inside the code never separates the machines. */
  lemma {:induction false} InsideJumpsAlike<I(!new), V(!new)>(isa: Isa<I, V>, t: Table<I>, code: seq<Byte>, s: Status<V>, n: nat)
    requires Loaded(isa, t, code) && isa.alignment == 2 && FetchesInside(isa, code, t.base, t.trap, s, n + 1)
    ensures AllJumpsAlike(isa, t, s, n)
    decreases n
  {
    if n > 0 {
      InsideJumpsAlike(isa, t, code, BasicStep(isa, t.trap, false, s), n - 1);
    }
  }

  /** With half-word alignment runs agree as long as the basic machine stays inside the code, and no
      unchecked fetch leaves the table. */
  lemma HalfWordAlignedRunsAgree<I(!new), V(!new)>(isa: Isa<I, V>, t: Table<I>, code: seq<Byte>,
                                                   e: Status<V>, b: Status<V>, n: nat)
    requires Loaded(isa, t, code) && isa.alignment == 2 && Related(t, e, b)
    requires FetchesInside(isa, code, t.base, t.trap, b, n + 1)
    ensures AgreeThroughout(isa, isa, t, e, b, n)
    ensures var e' := EagerRun(isa, t, e, n); e'.Running? ==> Fetchable(t, e'.at)
  {
    InsideJumpsAlike(isa, t, code, b, n);
    InsideFewer(isa, code, t.base, t.trap, b, n);
    EagerSimulatesBasic(isa, t, code, e, b, n);
    assert Related(t, EagerRun(isa, t, e, n), BasicRun(isa, t.trap, b, n));
    if EagerRun(isa, t, e, n).Running? {
      FetchSame(isa, t, code, BasicRun(isa, t.trap, b, n).memory, EagerRun(isa, t, e, n).at);
    }
  }

  lemma {:induction false} InsideFewer<I, V>(isa: Isa<I, V>, code: seq<Byte>, base: nat, trap: nat, s: Status<V>, n: nat)
    requires FetchesInside(isa, code, base, trap, s, n + 1)
    ensures FetchesInside(isa, code, base, trap, s, n)
    ensures var s' := BasicRun(isa, trap, s, n); s'.Running? ==> CodeIntact(s'.memory, code, base) && Inside(code, base, s'.at)
    decreases n
  {
    if n > 0 { InsideFewer(isa, code, base, trap, BasicStep(isa, trap, false, s), n - 1); }
  }

  // ---------- fetches stay inside the table ----------

  /** Entry `i` can be followed by the next instruction in memory order. */
  predicate FallsThrough<I, V>(isa: Isa<I, V>, t: Table<I>, i: nat, regs: Registers<V>, memory: Memory)
    requires i < |t.entries|
  {
    var e := t.entries[i];
    var (rs1, rs2) := isa.operands(e);
    var pc := GetPc(t, i * DECODED_SIZE + isa.size(e) / 2 * DECODED_SIZE);
    isa.exec(e, ReadReg(isa, regs, rs1), ReadReg(isa, regs, rs2), memory, pc).next.Advance?
  }

  /** Every entry that can fall through has its successor inside the table. */
  ghost predicate Closed<I(!new), V(!new)>(isa: Isa<I, V>, t: Table<I>) {
    forall i, regs, memory | 0 <= i < |t.entries| && FallsThrough(isa, t, i, regs, memory) ::
      i + isa.size(t.entries[i]) / 2 < |t.entries|
  }

  ghost predicate NeverOutOfBounds<I(!new), V(!new)>(isa: Isa<I, V>, t: Table<I>) {
    forall s: Status<V>, n: nat | s.Running? && Fetchable(t, s.at) ::
      EagerRun(isa, t, s, n).Running? ==> Fetchable(t, EagerRun(isa, t, s, n).at)
  }

  lemma StepFetchable<I(!new), V(!new)>(isa: Isa<I, V>, t: Table<I>, s: Status<V>)
    requires (forall i :: isa.size(i) == 2 || isa.size(i) == 4) && Closed(isa, t) && s.Running? && Fetchable(t, s.at)
    ensures EagerStep(isa, t, s).Running? ==> Fetchable(t, EagerStep(isa, t, s).at)
  {
    var i := s.at / DECODED_SIZE;
    var e := t.entries[i];
    assert s.at == i * DECODED_SIZE;
    var (rs1, rs2) := isa.operands(e);
    var offset := s.at + isa.size(e) / 2 * DECODED_SIZE;
    var f := isa.exec(e, ReadReg(isa, s.regs, rs1), ReadReg(isa, s.regs, rs2), s.memory, GetPc(t, offset));
    match f.next
    case Advance(_, _) =>
      assert FallsThrough(isa, t, i, s.regs, s.memory);
    case Jump(target) => if EagerSetPc(t, target).Continue? { SetPcThenGetPc(t, target); }
    case Fault(_) =>
  }

  lemma {:induction false} RunFetchable<I(!new), V(!new)>(isa: Isa<I, V>, t: Table<I>, s: Status<V>, n: nat)
    requires (forall i :: isa.size(i) == 2 || isa.size(i) == 4) && Closed(isa, t)
    requires s.Running? ==> Fetchable(t, s.at)
    ensures EagerRun(isa, t, s, n).Running? ==> Fetchable(t, EagerRun(isa, t, s, n).at)
    decreases n
  {
    if n > 0 {
      if s.Running? { StepFetchable(isa, t, s); }
      RunFetchable(isa, t, EagerStep(isa, t, s), n - 1);
    }
  }

  /** The unchecked fetch stays inside the table in every run from every entry exactly when every entry
      that can fall through has its successor inside the table. */
  lemma FetchesStayInside<I(!new), V(!new)>(isa: Isa<I, V>, t: Table<I>)
    requires forall i :: isa.size(i) == 2 || isa.size(i) == 4
    ensures NeverOutOfBounds(isa, t) <==> Closed(isa, t)
  {
    if Closed(isa, t) {
      forall s: Status<V>, n: nat | s.Running? && Fetchable(t, s.at)
        ensures EagerRun(isa, t, s, n).Running? ==> Fetchable(t, EagerRun(isa, t, s, n).at)
      {
        RunFetchable(isa, t, s, n);
      }
    }
    if NeverOutOfBounds(isa, t) {
      forall i, regs, memory | 0 <= i < |t.entries| && FallsThrough(isa, t, i, regs, memory)
        ensures i + isa.size(t.entries[i]) / 2 < |t.entries|
      {
        LeavesTable(isa, t, i, regs, memory);
      }
    }
  }

  lemma LeavesTable<I(!new), V(!new)>(isa: Isa<I, V>, t: Table<I>, i: nat, regs: Registers<V>, memory: Memory)
    requires (forall e :: isa.size(e) == 2 || isa.size(e) == 4) && NeverOutOfBounds(isa, t)
    requires i < |t.entries| && FallsThrough(isa, t, i, regs, memory)
    ensures i + isa.size(t.entries[i]) / 2 < |t.entries|
  {
    var s := Running(regs, memory, i * DECODED_SIZE);
    assert s.at / DECODED_SIZE == i && Fetchable(t, s.at);
    var s' := EagerStep(isa, t, s);
    assert EagerRun(isa, t, s', 0) == s';
    assert EagerRun(isa, t, s, 1) == s';
    assert s'.at == (i + isa.size(t.entries[i]) / 2) * DECODED_SIZE;
  }

  // ---------- exchanging the memory implementation ----------

  /** The two instruction sets differ at most in how they execute over other memories. */
  ghost predicate SameOver<I(!new), V(!new)>(p: Isa<I, V>, q: Isa<I, V>, ok: Memory -> bool) {
    && q == Isa(p.decode, p.size, p.operands, q.exec, p.unimp, p.zero, p.alignment)
    && forall i, a, b, m, pc | ok(m) ::
         p.exec(i, a, b, m, pc) == q.exec(i, a, b, m, pc) && ok(p.exec(i, a, b, m, pc).memory)
  }

  lemma FinishEither<I(!new), V(!new)>(p: Isa<I, V>, q: Isa<I, V>, ok: Memory -> bool, i: I, regs: Registers<V>, m: Memory,
                                       pc: nat, after: nat, setPc: nat -> SetPc)
    requires SameOver(p, q, ok) && ok(m)
    ensures Finish(p, i, regs, m, pc, after, setPc) == Finish(q, i, regs, m, pc, after, setPc)
    ensures ok(Finish(p, i, regs, m, pc, after, setPc).memory)
  {
  }

  lemma EagerStepEither<I(!new), V(!new)>(p: Isa<I, V>, q: Isa<I, V>, ok: Memory -> bool, t: Table<I>, s: Status<V>)
    requires SameOver(p, q, ok) && ok(s.memory) && (s.Running? ==> Fetchable(t, s.at))
    ensures EagerStep(p, t, s) == EagerStep(q, t, s) && ok(EagerStep(p, t, s).memory)
  {
    if s.Running? {
      var i := t.entries[s.at / DECODED_SIZE];
      var offset := s.at + p.size(i) / 2 * DECODED_SIZE;
      FinishEither(p, q, ok, i, s.regs, s.memory, GetPc(t, offset), offset, (target: nat) => EagerSetPc(t, target));
    }
  }

  lemma {:induction false} EagerEither<I(!new), V(!new)>(p: Isa<I, V>, q: Isa<I, V>, ok: Memory -> bool, t: Table<I>,
                                                        s: Status<V>, n: nat)
    requires SameOver(p, q, ok) && ok(s.memory)
    ensures EagerRun(p, t, s, n) == EagerRun(q, t, s, n)
    decreases n
  {
    if n > 0 && (s.Running? ==> Fetchable(t, s.at)) {
      EagerStepEither(p, q, ok, t, s);
      EagerEither(p, q, ok, t, EagerStep(p, t, s), n - 1);
    }
  }

  /** The simulation with a different memory implementation under the eager machine. */
  lemma EagerSimulatesBasicOver<I(!new), V(!new)>(p: Isa<I, V>, q: Isa<I, V>, ok: Memory -> bool, t: Table<I>,
                                                  code: seq<Byte>, e: Status<V>, b: Status<V>, n: nat)
    requires SameOver(p, q, ok) && ok(b.memory)
    requires Loaded(q, t, code) && Related(t, e, b) && FetchesInside(q, code, t.base, t.trap, b, n)
    ensures AgreeThroughout(p, q, t, e, b, n) <==> AllJumpsAlike(q, t, b, n)
  {
    forall k | 0 <= k <= n ensures EagerRun(p, t, e, k) == EagerRun(q, t, e, k) {
      EagerEither(p, q, ok, t, e, k);
    }
    EagerSimulatesBasic(q, t, code, e, b, n);
    if AgreeThroughout(p, q, t, e, b, n) {
      forall k | 0 <= k <= n ensures Related(t, EagerRun(q, t, e, k), BasicRun(q, t.trap, b, k)) {
        assert Related(t, EagerRun(p, t, e, k), BasicRun(q, t.trap, b, k));
      }
    }
    if AgreeThroughout(q, q, t, e, b, n) {
      forall k | 0 <= k <= n ensures Related(t, EagerRun(p, t, e, k), BasicRun(q, t.trap, b, k)) {
        assert Related(t, EagerRun(q, t, e, k), BasicRun(q, t.trap, b, k));
      }
    }
  }
}
