/** Which bytes committed writes leave behind. */
module SlotContents {
  import opened SlotModel
  import opened SlotRuns
  import opened SlotTheorems
  import opened SlotHistory
  import opened Options

  /** What the slot of a key holds. */
  function BufferOf(slots: seq<Entry>, key: SlotKey): Bytes {
    match Position(slots, key)
    case Some(i) => slots[i].state.buffer
    case None => []
  }

  /** Remembers, for every write that a drop commits, what the writer's buffer holds then. */
  function Remember(c: map<SlotKey, Bytes>, s: State, op: Op): map<SlotKey, Bytes> {
    if s.levels == [] || !op.Drop? then c
    else c + map key | key in KeysFrom(s, s.Top().boundary, true) :: BufferOf(s.slots, key)
  }

  function Remembered(s: State, c: map<SlotKey, Bytes>, ops: seq<Op>): map<SlotKey, Bytes>
    decreases |ops|
  {
    if ops == [] then c
    else match Step(s, ops[0])
      case Panic => c
      case Next(s') => Remembered(s', Remember(c, s, ops[0]), ops[1..])
  }

  /** A marked slot falls back to what was remembered. */
  predicate FallsBack(e: Entry, c: map<SlotKey, Bytes>) {
    e.key.contract != NULL_ADDRESS && e.state.Marked() ==> e.key in c && e.state.Stored() == c[e.key]
  }

  predicate AllFallBack(slots: seq<Entry>, c: map<SlotKey, Bytes>) {
    forall i | 0 <= i < |slots| :: FallsBack(slots[i], c)
  }

  lemma BufferAt(slots: seq<Entry>, i: nat)
    requires DistinctKeys(slots) && i < |slots|
    ensures BufferOf(slots, slots[i].key) == slots[i].state.buffer
  {
    PositionIs(slots, slots[i].key, i);
  }

  lemma SettledFallsBack(s: State, c: map<SlotKey, Bytes>, op: Op, i: nat)
    requires Consistent(s) && DistinctKeys(s.slots) && s.levels != [] && (op.Drop? || op.Reset?)
    requires s.Top().boundary <= |s.access| && i < |s.slots| && FallsBack(s.slots[i], c)
    ensures FallsBack(Settle(s.slots, s.access[s.Top().boundary..], op.Drop?)[i], Remember(c, s, op))
  {
    var b := s.Top().boundary;
    SettleAt(s, b, i, op.Drop?);
    KeyReleased(s, b, i, true);
    BufferAt(s.slots, i);
  }

  lemma ReleaseFallsBack(s: State, c: map<SlotKey, Bytes>, op: Op)
    requires Consistent(s) && DistinctKeys(s.slots) && s.levels != [] && (op.Drop? || op.Reset?) && Step(s, op).Next?
    requires AllFallBack(s.slots, c)
    ensures AllFallBack(Step(s, op).s.slots, Remember(c, s, op))
  {
    var settled := Settle(s.slots, s.access[s.Top().boundary..], op.Drop?);
    forall i | 0 <= i < |settled| ensures FallsBack(settled[i], Remember(c, s, op)) {
      SettledFallsBack(s, c, op, i);
    }
    var slots := Step(s, op).s.slots;
    if slots != settled {
      forall i | 0 <= i < |slots| ensures FallsBack(slots[i], Remember(c, s, op)) {
        DropTemporaryMembers(settled, slots[i]);
      }
    }
  }

  lemma StepFallsBack(s: State, c: map<SlotKey, Bytes>, op: Op)
    requires Consistent(s) && DistinctKeys(s.slots) && Step(s, op).Next? && AllFallBack(s.slots, c)
    ensures AllFallBack(Step(s, op).s.slots, Remember(c, s, op))
  {
    if s.levels != [] && (op.Drop? || op.Reset?) { ReleaseFallsBack(s, c, op); }
  }

  lemma {:induction false} RunFallsBack(seeds: seq<Slot>, s: State, h: History, c: map<SlotKey, Bytes>, ops: seq<Op>)
    requires Explained(seeds, s, h) && Run(s, ops).Next? && AllFallBack(s.slots, c)
    ensures AllFallBack(Run(s, ops).s.slots, Remembered(s, c, ops))
    decreases |ops|
  {
    if ops != [] {
      StepFallsBack(s, c, ops[0]);
      ExplainedStep(seeds, s, h, ops[0]);
      RunFallsBack(seeds, Step(s, ops[0]).s, Track(h, s, ops[0]), Remember(c, s, ops[0]), ops[1..]);
    }
  }

  /** After any completed run `iter_modified` yields exactly the committed keys, each with what the
      buffer of its last committed writer held when it was committed. */
  lemma FinalContents(seeds: seq<Slot>, ops: seq<Op>, key: SlotKey, bytes: Bytes)
    requires DistinctSeeds(seeds) && Run(New(seeds), ops).Next? && Run(New(seeds), ops).s.levels == []
    requires IterModified(Run(New(seeds), ops).s.slots).Some?
    ensures var h, c := HistoryOf(New(seeds), NOTHING, ops), Remembered(New(seeds), map[], ops);
            (key, bytes) in IterModified(Run(New(seeds), ops).s.slots).value
            <==> InWriteSet(h, key) && key in c && bytes == c[key]
  {
    var s, h, c := Run(New(seeds), ops).s, HistoryOf(New(seeds), NOTHING, ops), Remembered(New(seeds), map[], ops);
    NewIsExplained(seeds);
    ExplainedRun(seeds, New(seeds), NOTHING, ops);
    SeedEntries(seeds);
    NothingMarked(seeds);
    RunFallsBack(seeds, New(seeds), NOTHING, map[], ops);
    IterIsTotal(s.slots);
    IterYields(s.slots, key, bytes);
    if (key, bytes) in IterModified(s.slots).value {
      var i :| 0 <= i < |s.slots| && s.slots[i].key == key && s.slots[i].state == Modified(bytes);
      assert Told(seeds, s.contracts, h, s.slots[i], AccessOf(s.access, i)) && FallsBack(s.slots[i], c);
    } else if InWriteSet(h, key) {
      var i := Position(s.slots, key).value;
      assert Told(seeds, s.contracts, h, s.slots[i], AccessOf(s.access, i)) && FallsBack(s.slots[i], c);
    }
  }

  lemma NothingMarked(seeds: seq<Slot>)
    requires DistinctSeeds(seeds)
    ensures AllFallBack(New(seeds).slots, map[])
  {
    SeedEntries(seeds);
    forall i | 0 <= i < |Seed(seeds)| ensures FallsBack(Seed(seeds)[i], map[]) { assert Seed(seeds)[i] in Seed(seeds); }
  }

  // ---------- what a writer's buffer holds ----------

  /** The last contents written to slot `i`, or what it started with. */
  function LastWritten(ops: seq<Op>, i: nat, start: Bytes): Bytes {
    if ops == [] then start
    else LastWritten(ops[1..], i, if ops[0].Write? && ops[0].index == i then ops[0].bytes else start)
  }

  /** Slot `i` is being written, by an access among the first `n` of the log. */
  predicate Writes(s: State, n: nat, i: nat) {
    && n <= |s.access| && i < |s.slots| && AccessOf(s.access[..n], i) == Some(true) && s.slots[i].state.Writing()
  }

  lemma WriterStep(s: State, op: Op, depth: nat, n: nat, i: nat)
    requires Consistent(s) && depth > 0 && |s.levels| >= depth && DeeperFrom(s, depth, n) && Writes(s, n, i)
    requires op.Drop? || op.Reset? ==> |s.levels| > depth
    requires Step(s, op).Next?
    ensures i < |Step(s, op).s.slots|
    ensures Step(s, op).s.slots[i].state.buffer
            == if op.Write? && op.index == i then op.bytes else s.slots[i].state.buffer
  {
    AccessOfSplit(s.access, n, i);
    if op.Drop? || op.Reset? {
      PrefixEntryStays(s.access, n, s.Top().boundary, i);
    }
  }

  /** While a level holds a slot for writing, its buffer holds what was written last, at whatever level,
      or else what it held at the start. */
  lemma {:induction false} WriterBuffer(s: State, ops: seq<Op>, depth: nat, n: nat, i: nat)
    requires Consistent(s) && Nested(s) && depth > 0 && |s.levels| >= depth && DeeperFrom(s, depth, n) && Writes(s, n, i)
    requires ResetsAtZero(s, ops) && OnlyDeeper(s, ops, depth)
    ensures Run(s, ops).Next? && i < |Run(s, ops).s.slots|
    ensures Run(s, ops).s.slots[i].state.buffer == LastWritten(ops, i, s.slots[i].state.buffer)
    decreases |ops|
  {
    if ops != [] {
      ConsistentStep(s, ops[0]);
      NestedStep(s, ops[0]);
      PrefixStep(s, ops[0], depth, n);
      WriterStep(s, ops[0], depth, n, i);
      WriterBuffer(Step(s, ops[0]).s, ops[1..], depth, n, i);
    }
  }

  // ---------- what an acquisition shows ----------

  /** The key whose slot a lookup has to create may be: a temporary one, or one that mentions a contract
      registered before. */
  predicate Creatable(s: State, key: SlotKey) {
    key.contract == NULL_ADDRESS || key.owner in s.contracts || key.contract in s.contracts
  }

  /** A read of a slot that no one holds gives its contents; an absent slot reads as empty exactly when it
      may be created. */
  lemma UnheldRead(s: State, key: SlotKey)
    requires Consistent(s)
    ensures match Position(s.slots, key)
            case Some(i) => AccessOf(s.access, i).None? ==> UseRoStep(s, key).1 == Some(s.slots[i].state.buffer)
            case None => UseRoStep(s, key).1 == if Creatable(s, key) then Some([]) else None
  {
    if Position(s.slots, key).Some? {
      assert Follows(s.slots[Position(s.slots, key).value].state, AccessOf(s.access, Position(s.slots, key).value));
    }
  }

  /** A slot that no one holds is given to a writer exactly unless it is seeded read-only; an absent one
      exactly when it may be created. */
  lemma UnheldWrite(s: State, key: SlotKey)
    requires Consistent(s)
    ensures match Position(s.slots, key)
            case Some(i) => AccessOf(s.access, i).None? ==>
                              (UseRwStep(s, key).1 == Some(i) <==> !s.slots[i].state.OriginalReadOnly?)
            case None => UseRwStep(s, key).1 == if Creatable(s, key) then Some(|s.slots|) else None
  {
    if Position(s.slots, key).Some? {
      assert Follows(s.slots[Position(s.slots, key).value].state, AccessOf(s.access, Position(s.slots, key).value));
    }
  }

  /** Registering a contract makes every absent key that mentions it creatable, and changes nothing else. */
  lemma RegisteredKeysOpen(s: State, owner: Address, key: SlotKey)
    requires Consistent(s)
    ensures var s' := AddContractStep(s, owner);
            && s' == s.(contracts := s'.contracts) && (forall a :: a in s'.contracts <==> a in s.contracts || a == owner)
            && ((key.owner == owner || key.contract == owner) && Position(s.slots, key).None? ==>
                  UseRoStep(s', key).1 == Some([]) && UseRwStep(s', key).1 == Some(|s.slots|))
  {
  }

  predicate NoRepeats(contracts: seq<Address>) {
    forall i, j | 0 <= i < j < |contracts| :: contracts[i] != contracts[j]
  }

  /** No run registers a contract twice. */
  lemma {:induction false} RegisteredOnce(s: State, ops: seq<Op>)
    requires NoRepeats(s.contracts) && Run(s, ops).Next?
    ensures NoRepeats(Run(s, ops).s.contracts) && s.contracts <= Run(s, ops).s.contracts
    decreases |ops|
  {
    if ops != [] { RegisteredOnce(Step(s, ops[0]).s, ops[1..]); }
  }

  /** What a key shows once `key` was looked up: everything as before, a created slot empty. */
  function Shown(s: State, key: SlotKey, k: SlotKey): Option<Bytes> {
    if k == key && Position(s.slots, key).None? then Some([]) else Visible(s.slots, k)
  }

  lemma AppendedPosition(slots: seq<Entry>, e: Entry, k: SlotKey)
    requires Position(slots, e.key).None?
    ensures Position(slots + [e], k) == if k == e.key then Some(|slots|) else Position(slots, k)
  {
    var after := slots + [e];
    if k == e.key {
      PositionIs(after, k, |slots|);
    } else if Position(slots, k).Some? {
      PositionIs(after, k, Position(slots, k).value);
    }
  }

  lemma UpdatedPosition(slots: seq<Entry>, i: nat, e: Entry, k: SlotKey)
    requires i < |slots| && slots[i].key == e.key
    ensures Position(slots[i := e], k) == Position(slots, k)
  {
    var after := slots[i := e];
    if Position(slots, k).Some? { PositionIs(after, k, Position(slots, k).value); }
  }

  /** A writer finds the contents of the slot in its buffer, and no other key shows anything else. */
  lemma WriterFindsContents(s: State, key: SlotKey, k: SlotKey)
    requires Consistent(s) && UseRwStep(s, key).1.Some?
    ensures Visible(UseRwStep(s, key).0.slots, k) == Shown(s, key, k)
  {
    match Position(s.slots, key)
    case Some(i) => UpdatedPosition(s.slots, i, Entry(key, Writing(s.slots[i].state)), k);
    case None => AppendedPosition(s.slots, Entry(key, OriginalReadWrite([], [])), k);
  }

  /** The same for a reader. */
  lemma ReaderFindsContents(s: State, key: SlotKey, k: SlotKey)
    requires Consistent(s) && UseRoStep(s, key).1.Some?
    ensures Visible(UseRoStep(s, key).0.slots, k) == Shown(s, key, k) && UseRoStep(s, key).1 == Shown(s, key, key)
  {
    match Position(s.slots, key)
    case Some(i) => UpdatedPosition(s.slots, i, Entry(key, Reading(s.slots[i].state)), k);
    case None => AppendedPosition(s.slots, Entry(key, OriginalReadOnly([])), k);
  }

  /** The state right after a successful write acquisition. */
  lemma AcquiredForWriting(s: State, key: SlotKey)
    requires Consistent(s) && s.levels != [] && UseRwStep(s, key).1.Some?
    ensures var (s1, i) := (UseRwStep(s, key).0, UseRwStep(s, key).1.value);
            && Writes(s1, |s1.access|, i) && DeeperFrom(s1, |s1.levels|, |s1.access|)
            && Shown(s, key, key) == Some(s1.slots[i].state.buffer)
  {
    UseRwHolds(s, key);
    var s1 := UseRwStep(s, key).0;
    assert s1.access[..|s1.access|] == s1.access;
    WriterFindsContents(s, key, key);
  }

  lemma KeptPlace(s: State, s': State, key: SlotKey, i: nat)
    requires Held(s, key, i, true) && KeysKept(s.slots, s'.slots)
    ensures Visible(s'.slots, key) == Some(s'.slots[i].state.buffer)
  {
    PositionByKeys(s.slots, s'.slots, key);
  }

  /** What a write acquisition leaves when it is committed: the contents written last, at whatever level,
      and without any write the contents that were visible before it. */
  lemma CommittedContents(s: State, key: SlotKey, ops: seq<Op>)
    requires Consistent(s) && Nested(s) && s.levels != [] && UseRwStep(s, key).1.Some?
    requires var s1 := UseRwStep(s, key).0; ResetsAtZero(s1, ops) && OnlyDeeper(s1, ops, |s1.levels|)
    requires key.contract != NULL_ADDRESS || |s.levels| > 1
    requires var o := Run(UseRwStep(s, key).0, ops); o.Next? ==> |o.s.levels| == |s.levels|
    ensures var o := Run(UseRwStep(s, key).0, ops);
            && o.Next? && DropStep(o.s).Next?
            && Visible(DropStep(o.s).s.slots, key)
               == Some(LastWritten(ops, UseRwStep(s, key).1.value, Shown(s, key, key).value))
  {
    var s1, i := UseRwStep(s, key).0, UseRwStep(s, key).1.value;
    ConsistentUse(s, key);
    AcquiredForWriting(s, key);
    UseRwHolds(s, key);
    WriterBuffer(s1, ops, |s1.levels|, |s1.access|, i);
    PrefixRun(s1, ops, |s1.levels|, |s1.access|);
    var s2 := Run(s1, ops).s;
    KeptPlace(s1, s2, key, i);
    DropIsolation(s2, key);
  }
}
