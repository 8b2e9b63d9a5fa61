/** What a whole sequence of transactions leaves behind in the slots. */
module SlotHistory {
  import opened SlotModel
  import opened SlotRuns
  import opened Options

  /** Keys whose write was released by a `Drop`, and keys with any access released so far. */
  datatype History = History(committed: set<SlotKey>, released: set<SlotKey>)

  /** Keys of the slots mentioned in the log from `b` on, all or only those being written. */
  function KeysFrom(s: State, b: nat, writing: bool): set<SlotKey> {
    set j | b <= j < |s.access| && s.access[j].index < |s.slots|
            && (writing ==> s.slots[s.access[j].index].state.Writing())
      :: s.slots[s.access[j].index].key
  }

  function Track(h: History, s: State, op: Op): History {
    if s.levels == [] || !(op.Drop? || op.Reset?) then h
    else
      var b := s.Top().boundary;
      History(if op.Drop? then h.committed + KeysFrom(s, b, true) else h.committed,
              h.released + KeysFrom(s, b, false))
  }

  function HistoryOf(s: State, h: History, ops: seq<Op>): History
    decreases |ops|
  {
    if ops == [] then h
    else match Step(s, ops[0])
      case Panic => h
      case Next(s') => HistoryOf(s', Track(h, s, ops[0]), ops[1..])
  }

  /** The slot the caller handed over for `key`; temporary ones are ignored. */
  function SeedFor(seeds: seq<Slot>, key: SlotKey): Option<Slot> {
    if seeds == [] then None
    else if seeds[0].key == key && key.contract != NULL_ADDRESS then Some(seeds[0])
    else SeedFor(seeds[1..], key)
  }

  /** Not kept from writers by having been seeded read-only. */
  predicate Unsealed(st: SlotState, held: Option<bool>) {
    st.OriginalReadOnly? ==> held == Some(false)
  }

  /** The state of a slot as told by the history of its key. */
  predicate Told(seeds: seq<Slot>, contracts: seq<Address>, h: History, e: Entry, held: Option<bool>) {
    && (e.key.contract != NULL_ADDRESS ==> (e.state.Marked() <==> e.key in h.committed))
    && match SeedFor(seeds, e.key)
       case Some(seed) =>
         && (e.key !in h.committed ==> e.state.Stored() == seed.buffer)
         && if seed.ReadOnly? && e.key !in h.released then e.state.OriginalReadOnly? else Unsealed(e.state, held)
       case None =>
         && (e.key.contract == NULL_ADDRESS || MentionsNew(contracts, e.key))
         && (e.key.contract != NULL_ADDRESS && e.key !in h.committed ==> e.state.Stored() == [])
         && Unsealed(e.state, held)
  }

  predicate DistinctKeys(slots: seq<Entry>) {
    forall i, j | 0 <= i < j < |slots| :: slots[i].key != slots[j].key
  }

  predicate Present(slots: seq<Entry>, key: SlotKey) {
    Position(slots, key).Some?
  }

  ghost predicate Explained(seeds: seq<Slot>, s: State, h: History) {
    && Consistent(s) && DistinctKeys(s.slots)
    && (forall i | 0 <= i < |s.slots| :: Told(seeds, s.contracts, h, s.slots[i], AccessOf(s.access, i)))
    && (forall key: SlotKey | key.contract != NULL_ADDRESS && (key in h.committed || SeedFor(seeds, key).Some?) ::
          Present(s.slots, key))
    && (s.levels == [] ==> forall i | 0 <= i < |s.slots| :: s.slots[i].key.contract != NULL_ADDRESS)
  }

  lemma PresentByKeys(before: seq<Entry>, after: seq<Entry>)
    requires KeysKept(before, after)
    ensures forall key :: Present(before, key) ==> Present(after, key)
  {
    forall key | Present(before, key) ensures Present(after, key) {
      PositionByKeys(before, after, key);
    }
  }

  lemma ExplainedAcquire(seeds: seq<Slot>, s: State, h: History, i: nat, readWrite: bool, e: Entry)
    requires Explained(seeds, s, h) && s.levels != []
    requires i <= |s.slots| && AccessOf(s.access, i).None? && Follows(e.state, Some(readWrite))
    requires if i < |s.slots| then e.key == s.slots[i].key else !Present(s.slots, e.key)
    requires Told(seeds, s.contracts, h, e, Some(readWrite))
    ensures Explained(seeds,
                      s.(access := s.access + [SlotAccess(i, readWrite)],
                         slots := if i < |s.slots| then s.slots[i := e] else s.slots + [e]), h)
  {
    var a := SlotAccess(i, readWrite);
    var slots := if i < |s.slots| then s.slots[i := e] else s.slots + [e];
    ConsistentAcquire(s, i, readWrite, e);
    PresentByKeys(s.slots, slots);
    forall k | 0 <= k < |slots| ensures Told(seeds, s.contracts, h, slots[k], AccessOf(s.access + [a], k)) {
      AccessOfAppend(s.access, a, k);
    }
  }

  lemma ExplainedUse(seeds: seq<Slot>, s: State, h: History, key: SlotKey)
    requires Explained(seeds, s, h) && s.levels != []
    ensures Explained(seeds, UseRoStep(s, key).0, h)
    ensures Explained(seeds, UseRwStep(s, key).0, h)
  {
    NothingPastTheEnd(s);
    match Position(s.slots, key)
    case None =>
      if MayCreate(s, key) {
        if SeedFor(seeds, key).Some? { SeedIsLasting(seeds, key); }
        assert !Present(s.slots, key);
        ExplainedAcquire(seeds, s, h, |s.slots|, false, Entry(key, OriginalReadOnly([])));
        ExplainedAcquire(seeds, s, h, |s.slots|, true, Entry(key, OriginalReadWrite([], [])));
      }
    case Some(i) =>
      var st := s.slots[i].state;
      assert Told(seeds, s.contracts, h, s.slots[i], AccessOf(s.access, i));
      if AccessOf(s.access, i).None? {
        ExplainedAcquire(seeds, s, h, i, false, Entry(key, Reading(st)));
        ExplainedAcquire(seeds, s, h, i, true, Entry(key, Writing(st)));
      } else if AccessOf(s.access, i) == Some(false) {
        assert s.slots[i := Entry(key, Reading(st))] == s.slots;
      }
  }

  /** With distinct keys, a key is released exactly when its slot's entry is. */
  lemma KeyReleased(s: State, b: nat, i: nat, writing: bool)
    requires Consistent(s) && DistinctKeys(s.slots) && b <= |s.access| && i < |s.slots|
    ensures s.slots[i].key in KeysFrom(s, b, writing) <==>
            AccessOf(s.access[b..], i).Some? && (writing ==> s.slots[i].state.Writing())
  {
    var k := AccessOfWhere(s.access[b..], i);
    if AccessOf(s.access[b..], i).Some? {
      assert s.access[b + k].index == i;
    } else {
      assert forall j | b <= j < |s.access| :: s.access[j] == s.access[b..][j - b];
    }
  }

  lemma ToldSettled(seeds: seq<Slot>, s: State, h: History, op: Op, i: nat)
    requires Explained(seeds, s, h) && s.levels != [] && (op.Drop? || op.Reset?)
    requires s.Top().boundary <= |s.access| && i < |s.slots|
    ensures var b := s.Top().boundary;
            Told(seeds, s.contracts, Track(h, s, op),
                 Settle(s.slots, s.access[b..], op.Drop?)[i], AccessOf(s.access[..b], i))
  {
    var b := s.Top().boundary;
    SettleAt(s, b, i, op.Drop?);
    AccessOfSplit(s.access, b, i);
    KeyReleased(s, b, i, true);
    KeyReleased(s, b, i, false);
    assert Told(seeds, s.contracts, h, s.slots[i], AccessOf(s.access, i));
  }

  /** Keys joining the committed set belong to slots that exist. */
  lemma ReleasedArePresent(s: State, b: nat, key: SlotKey)
    requires key in KeysFrom(s, b, true)
    ensures Present(s.slots, key)
  {
  }

  lemma {:induction false} DistinctKept(slots: seq<Entry>)
    requires DistinctKeys(slots)
    ensures DistinctKeys(DropTemporary(slots))
  {
    if slots != [] {
      var rest := DropTemporary(slots[1..]);
      DistinctKept(slots[1..]);
      forall j | 0 <= j < |rest| ensures rest[j].key != slots[0].key {
        DropTemporaryMembers(slots[1..], rest[j]);
      }
    }
  }

  lemma PresentKept(slots: seq<Entry>, key: SlotKey)
    requires Present(slots, key) && key.contract != NULL_ADDRESS
    ensures Present(DropTemporary(slots), key)
  {
    DropTemporaryMembers(slots, slots[Position(slots, key).value]);
  }

  lemma ExplainedRelease(seeds: seq<Slot>, s: State, h: History, op: Op)
    requires Explained(seeds, s, h) && s.levels != [] && (op.Drop? || op.Reset?) && Step(s, op).Next?
    ensures Explained(seeds, Step(s, op).s, Track(h, s, op))
  {
    var b := s.Top().boundary;
    var h', s' := Track(h, s, op), Step(s, op).s;
    var settled := Settle(s.slots, s.access[b..], op.Drop?);
    ConsistentStep(s, op);
    forall i | 0 <= i < |settled|
      ensures Told(seeds, s.contracts, h', settled[i], AccessOf(s.access[..b], i))
    {
      ToldSettled(seeds, s, h, op, i);
    }
    forall key: SlotKey | key.contract != NULL_ADDRESS && (key in h'.committed || SeedFor(seeds, key).Some?)
      ensures Present(settled, key)
    {
      if key in KeysFrom(s, b, true) { ReleasedArePresent(s, b, key); }
      PresentByKeys(s.slots, settled);
    }
    if op.Drop? && |s.levels| == 1 {
      ExplainedAtRest(seeds, s', settled, h');
    }
  }

  lemma ExplainedAtRest(seeds: seq<Slot>, s: State, settled: seq<Entry>, h: History)
    requires Consistent(s) && s.access == [] && s.slots == DropTemporary(settled) && DistinctKeys(settled)
    requires forall i | 0 <= i < |settled| :: Told(seeds, s.contracts, h, settled[i], None)
    requires forall key: SlotKey | key.contract != NULL_ADDRESS && (key in h.committed || SeedFor(seeds, key).Some?) ::
               Present(settled, key)
    ensures Explained(seeds, s, h)
  {
    DistinctKept(settled);
    forall i | 0 <= i < |s.slots|
      ensures Told(seeds, s.contracts, h, s.slots[i], None) && s.slots[i].key.contract != NULL_ADDRESS
    {
      DropTemporaryMembers(settled, s.slots[i]);
    }
    forall key: SlotKey | key.contract != NULL_ADDRESS && (key in h.committed || SeedFor(seeds, key).Some?)
      ensures Present(s.slots, key)
    {
      PresentKept(settled, key);
    }
  }

  lemma ExplainedWrite(seeds: seq<Slot>, s: State, h: History, index: nat, bytes: Bytes)
    requires Explained(seeds, s, h)
    ensures Explained(seeds, WriteStep(s, index, bytes), h)
  {
    PresentByKeys(s.slots, WriteStep(s, index, bytes).slots);
  }

  lemma ExplainedStep(seeds: seq<Slot>, s: State, h: History, op: Op)
    requires Explained(seeds, s, h) && Step(s, op).Next?
    ensures Explained(seeds, Step(s, op).s, Track(h, s, op))
  {
    if s.levels == [] && !op.Open? && !op.AddContract? {
    } else {
      match op
      case UseRo(key) => ExplainedUse(seeds, s, h, key);
      case UseRw(key) => ExplainedUse(seeds, s, h, key);
      case Drop => ExplainedRelease(seeds, s, h, op);
      case Reset => ExplainedRelease(seeds, s, h, op);
      case Write(index, bytes) => ExplainedWrite(seeds, s, h, index, bytes);
      case _ =>
    }
  }

  lemma {:induction false} ExplainedRun(seeds: seq<Slot>, s: State, h: History, ops: seq<Op>)
    requires Explained(seeds, s, h) && Run(s, ops).Next?
    ensures Explained(seeds, Run(s, ops).s, HistoryOf(s, h, ops))
    decreases |ops|
  {
    if ops != [] {
      ExplainedStep(seeds, s, h, ops[0]);
      ExplainedRun(seeds, Step(s, ops[0]).s, Track(h, s, ops[0]), ops[1..]);
    }
  }

  // ---------- the start ----------

  predicate DistinctSeeds(seeds: seq<Slot>) {
    forall i, j | 0 <= i < j < |seeds| :: seeds[i].key != seeds[j].key
  }

  function SeedState(slot: Slot): SlotState {
    if slot.ReadOnly? then OriginalReadOnly(slot.buffer) else Original(slot.buffer)
  }

  lemma {:induction false} SeedForAbsent(seeds: seq<Slot>, key: SlotKey)
    requires forall j | 0 <= j < |seeds| :: seeds[j].key != key
    ensures SeedFor(seeds, key).None?
  {
    if seeds != [] { SeedForAbsent(seeds[1..], key); }
  }

  /** Entries created from the seeds, one for each key that has a seed. */
  lemma {:induction false} SeedEntries(seeds: seq<Slot>)
    requires DistinctSeeds(seeds)
    ensures DistinctKeys(Seed(seeds))
    ensures forall e | e in Seed(seeds) ::
              && e.key.contract != NULL_ADDRESS
              && SeedFor(seeds, e.key).Some? && e.state == SeedState(SeedFor(seeds, e.key).value)
    ensures forall key | SeedFor(seeds, key).Some? :: Present(Seed(seeds), key)
  {
    if seeds != [] {
      var rest := seeds[1..];
      SeedEntries(rest);
      SeedForAbsent(rest, seeds[0].key);
      forall key | SeedFor(seeds, key).Some? ensures Present(Seed(seeds), key) {
        if key != seeds[0].key {
          assert Present(Seed(rest), key);
          var i := Position(Seed(rest), key).value;
          assert Seed(rest)[i] in Seed(seeds);
        }
      }
    }
  }

  const NOTHING := History({}, {})

  lemma NewIsExplained(seeds: seq<Slot>)
    requires DistinctSeeds(seeds)
    ensures Explained(seeds, New(seeds), NOTHING)
  {
    NewIsConsistent(seeds);
    SeedEntries(seeds);
    var s := New(seeds);
    forall i | 0 <= i < |s.slots|
      ensures Told(seeds, [], NOTHING, s.slots[i], None) && s.slots[i].key.contract != NULL_ADDRESS
    {
      assert s.slots[i] in Seed(seeds);
    }
  }

  // ---------- the end ----------

  lemma {:induction false} IterIsTotal(slots: seq<Entry>)
    ensures Iter(slots).Some? <==> forall i | 0 <= i < |slots| :: slots[i].state.Original? || slots[i].state.Modified?
    ensures IterModified(slots).Some? <==> Iter(slots).Some?
  {
    if slots != [] { IterIsTotal(slots[1..]); }
  }

  lemma {:induction false} IterYields(slots: seq<Entry>, key: SlotKey, bytes: Bytes)
    requires Iter(slots).Some? && IterModified(slots).Some?
    ensures (key, bytes) in Iter(slots).value <==>
            exists i :: 0 <= i < |slots| && slots[i].key == key && slots[i].state.buffer == bytes
    ensures (key, bytes) in IterModified(slots).value <==>
            exists i :: 0 <= i < |slots| && slots[i].key == key && slots[i].state == Modified(bytes)
  {
    if slots != [] {
      IterYields(slots[1..], key, bytes);
      assert forall i | 0 < i < |slots| :: slots[i] == slots[1..][i - 1];
    }
  }

  /** A key written by a committed access that outlives the transaction. */
  predicate InWriteSet(h: History, key: SlotKey) {
    key in h.committed && key.contract != NULL_ADDRESS
  }

  lemma SealedSeeds(seeds: seq<Slot>, s: State, h: History)
    requires Explained(seeds, s, h) && s.levels == []
    ensures (forall i | 0 <= i < |s.slots| :: s.slots[i].state.Original? || s.slots[i].state.Modified?) <==>
            (forall key | SeedFor(seeds, key).Some? && SeedFor(seeds, key).value.ReadOnly? :: key in h.released)
  {
    forall i | 0 <= i < |s.slots|
      ensures s.slots[i].state.Original? || s.slots[i].state.Modified? <==>
              (SeedFor(seeds, s.slots[i].key).Some? && SeedFor(seeds, s.slots[i].key).value.ReadOnly? ==>
                 s.slots[i].key in h.released)
    {
      assert Told(seeds, s.contracts, h, s.slots[i], None) && Follows(s.slots[i].state, None);
    }
    forall key | SeedFor(seeds, key).Some? && SeedFor(seeds, key).value.ReadOnly? && key !in h.released
      ensures exists i :: 0 <= i < |s.slots| && s.slots[i].state.OriginalReadOnly?
    {
      SeedIsLasting(seeds, key);
      var i := Position(s.slots, key).value;
      assert Told(seeds, s.contracts, h, s.slots[i], None);
    }
  }

  lemma {:induction false} SeedIsLasting(seeds: seq<Slot>, key: SlotKey)
    requires SeedFor(seeds, key).Some?
    ensures key.contract != NULL_ADDRESS
  {
    if !(seeds[0].key == key && key.contract != NULL_ADDRESS) { SeedIsLasting(seeds[1..], key); }
  }

  lemma WriteSetMember(seeds: seq<Slot>, s: State, h: History, key: SlotKey)
    requires Explained(seeds, s, h) && s.levels == [] && Iter(s.slots).Some? && IterModified(s.slots).Some?
    ensures InWriteSet(h, key) <==> exists bytes :: (key, bytes) in IterModified(s.slots).value
  {
    IterIsTotal(s.slots);
    if InWriteSet(h, key) {
      var i := Position(s.slots, key).value;
      assert Told(seeds, s.contracts, h, s.slots[i], None);
      IterYields(s.slots, key, s.slots[i].state.buffer);
    }
    if bytes :| (key, bytes) in IterModified(s.slots).value {
      IterYields(s.slots, key, bytes);
      var i :| 0 <= i < |s.slots| && s.slots[i].key == key && s.slots[i].state == Modified(bytes);
      assert Told(seeds, s.contracts, h, s.slots[i], None);
    }
  }

  lemma UnwrittenSeed(seeds: seq<Slot>, s: State, h: History, key: SlotKey)
    requires Explained(seeds, s, h) && s.levels == [] && Iter(s.slots).Some? && IterModified(s.slots).Some?
    requires SeedFor(seeds, key).Some? && !InWriteSet(h, key)
    ensures (key, SeedFor(seeds, key).value.buffer) in Iter(s.slots).value
  {
    IterIsTotal(s.slots);
    SeedIsLasting(seeds, key);
    var i := Position(s.slots, key).value;
    assert Told(seeds, s.contracts, h, s.slots[i], None);
    IterYields(s.slots, key, s.slots[i].state.buffer);
  }

  /** After any run that ended with no level live, whatever was reset in between: every slot belongs to
      a seed or mentions a registered contract; `iter` and `iter_modified` reach no unreachable arm
      exactly when every slot seeded read-only has had an access released; and then `iter_modified`
      yields exactly the write set while every other seed is yielded by `iter` unchanged. */
  lemma FinalWriteSet(seeds: seq<Slot>, ops: seq<Op>)
    requires DistinctSeeds(seeds) && Run(New(seeds), ops).Next? && Run(New(seeds), ops).s.levels == []
    ensures var s, h := Run(New(seeds), ops).s, HistoryOf(New(seeds), NOTHING, ops);
            && (forall i | 0 <= i < |s.slots| ::
                  && s.slots[i].key.contract != NULL_ADDRESS
                  && (SeedFor(seeds, s.slots[i].key).Some? || MentionsNew(s.contracts, s.slots[i].key)))
            && (Iter(s.slots).Some? <==>
                  forall key | SeedFor(seeds, key).Some? && SeedFor(seeds, key).value.ReadOnly? :: key in h.released)
            && (IterModified(s.slots).Some? <==> Iter(s.slots).Some?)
            && (Iter(s.slots).Some? ==>
                  && (forall key :: InWriteSet(h, key) <==> exists bytes :: (key, bytes) in IterModified(s.slots).value)
                  && (forall key | SeedFor(seeds, key).Some? && !InWriteSet(h, key) ::
                        (key, SeedFor(seeds, key).value.buffer) in Iter(s.slots).value))
  {
    var s, h := Run(New(seeds), ops).s, HistoryOf(New(seeds), NOTHING, ops);
    NewIsExplained(seeds);
    ExplainedRun(seeds, New(seeds), NOTHING, ops);
    IterIsTotal(s.slots);
    SealedSeeds(seeds, s, h);
    if Iter(s.slots).Some? {
      forall key ensures InWriteSet(h, key) <==> exists bytes :: (key, bytes) in IterModified(s.slots).value {
        WriteSetMember(seeds, s, h, key);
      }
      forall key | SeedFor(seeds, key).Some? && !InWriteSet(h, key)
        ensures (key, SeedFor(seeds, key).value.buffer) in Iter(s.slots).value
      {
        UnwrittenSeed(seeds, s, h, key);
      }
    }
  }

  /** A key with no live access is refused to writers exactly while it was seeded read-only and none of
      its accesses has been released: the first released access, even a read, opens it for writing. */
  lemma ReadOnlySeedsOpenUp(seeds: seq<Slot>, ops: seq<Op>, key: SlotKey)
    requires DistinctSeeds(seeds) && SeedFor(seeds, key).Some? && Run(New(seeds), ops).Next?
    ensures var s, h := Run(New(seeds), ops).s, HistoryOf(New(seeds), NOTHING, ops);
            && Present(s.slots, key)
            && (AccessOf(s.access, Position(s.slots, key).value).None? ==>
                  (UseRwStep(s, key).1.None? <==> SeedFor(seeds, key).value.ReadOnly? && key !in h.released))
  {
    NewIsExplained(seeds);
    ExplainedRun(seeds, New(seeds), NOTHING, ops);
    SeedIsLasting(seeds, key);
    var s, h := Run(New(seeds), ops).s, HistoryOf(New(seeds), NOTHING, ops);
    var i := Position(s.slots, key).value;
    assert Told(seeds, s.contracts, h, s.slots[i], AccessOf(s.access, i));
    assert Follows(s.slots[i].state, AccessOf(s.access, i));
  }
}
