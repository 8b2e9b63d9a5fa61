/** Exclusion, isolation, rollback and the final write set of the nested slots. */
module SlotTheorems {
  import opened SlotModel
  import opened SlotRuns
  import opened Options

  // ---------- what enclosing levels hold survives ----------

  /** Throughout the run only levels nested deeper than `depth` are dropped or reset. */
  predicate OnlyDeeper(s: State, ops: seq<Op>, depth: nat)
    decreases |ops|
  {
    ops == [] ||
    (&& (ops[0].Drop? || ops[0].Reset? ==> |s.levels| > depth)
     && (Step(s, ops[0]).Next? ==> OnlyDeeper(Step(s, ops[0]).s, ops[1..], depth)))
  }

  /** Levels deeper than `depth` start at or after log position `n`. */
  predicate DeeperFrom(s: State, depth: nat, n: nat) {
    n <= |s.access| && forall l | depth <= l < |s.levels| :: s.levels[l].boundary >= n
  }

  /** The first `n` log entries are intact, and every slot they mention keeps its place, its mode and
      the value it falls back to. */
  predicate PrefixKept(s: State, s': State, depth: nat, n: nat) {
    && depth <= |s.levels| && depth <= |s'.levels| && s'.levels[..depth] == s.levels[..depth]
    && n <= |s.access| && n <= |s'.access| && s'.access[..n] == s.access[..n]
    && KeysKept(s.slots, s'.slots)
    && forall i | 0 <= i < |s.slots| && AccessOf(s.access[..n], i).Some? ::
         && s'.slots[i].state.Stored() == s.slots[i].state.Stored()
         && s'.slots[i].state.Marked() == s.slots[i].state.Marked()
         && s'.slots[i].state.Writing() == s.slots[i].state.Writing()
  }

  lemma PrefixStep(s: State, op: Op, depth: nat, n: nat)
    requires Consistent(s) && depth > 0 && |s.levels| >= depth && DeeperFrom(s, depth, n)
    requires op.Drop? || op.Reset? ==> |s.levels| > depth
    requires op.Reset? ==> s.Top().boundary == 0
    requires Step(s, op).Next?
    ensures PrefixKept(s, Step(s, op).s, depth, n) && DeeperFrom(Step(s, op).s, depth, n)
  {
    forall i | 0 <= i < |s.slots| && AccessOf(s.access[..n], i).Some?
      ensures AccessOf(s.access, i) == AccessOf(s.access[..n], i)
      ensures op.Drop? || op.Reset? ==> AccessOf(s.access[s.Top().boundary..], i).None?
    {
      AccessOfSplit(s.access, n, i);
      if op.Drop? || op.Reset? {
        PrefixEntryStays(s.access, n, s.Top().boundary, i);
      }
    }
  }

  lemma {:induction false} PrefixRun(s: State, ops: seq<Op>, depth: nat, n: nat)
    requires Consistent(s) && Nested(s) && depth > 0 && |s.levels| >= depth && DeeperFrom(s, depth, n)
    requires ResetsAtZero(s, ops) && OnlyDeeper(s, ops, depth)
    ensures Run(s, ops).Next? && Consistent(Run(s, ops).s) && Nested(Run(s, ops).s)
    ensures PrefixKept(s, Run(s, ops).s, depth, n)
    decreases |ops|
  {
    if ops != [] {
      ConsistentStep(s, ops[0]);
      NestedStep(s, ops[0]);
      PrefixStep(s, ops[0], depth, n);
      PrefixRun(Step(s, ops[0]).s, ops[1..], depth, n);
    }
  }

  lemma PrefixEntryStays(access: seq<SlotAccess>, n: nat, b: nat, i: nat)
    requires n <= b <= |access| && Distinct(access) && AccessOf(access[..n], i).Some?
    ensures AccessOf(access[b..], i).None?
  {
    var j := AccessOfWhere(access[..n], i);
    var k := AccessOfWhere(access[b..], i);
  }

  lemma HeldStays(s: State, s': State, key: SlotKey, i: nat, readWrite: bool)
    requires Held(s, key, i, readWrite) && PrefixKept(s, s', |s.levels|, |s.access|)
    ensures Held(s', key, i, readWrite)
  {
    assert s.access[..|s.access|] == s.access;
    AccessOfSplit(s'.access, |s.access|, i);
    PositionByKeys(s.slots, s'.slots, key);
  }

  /** Single writer: once `use_rw` succeeded, no lookup of that key succeeds at any level until the
      acquiring level is dropped or reset. */
  lemma WriterExcludesEveryone(s: State, key: SlotKey, ops: seq<Op>)
    requires Consistent(s) && Nested(s) && s.levels != [] && UseRwStep(s, key).1.Some?
    requires var s1 := UseRwStep(s, key).0; ResetsAtZero(s1, ops) && OnlyDeeper(s1, ops, |s1.levels|)
    ensures var o := Run(UseRwStep(s, key).0, ops);
            && o.Next?
            && PeekRo(o.s, key).None?
            && UseRoStep(o.s, key).1.None?
            && UseRwStep(o.s, key).1.None?
            && (key.contract == SYSTEM_CODE ==> GetCode(o.s, key.owner).None?)
  {
    var s1, i := UseRwStep(s, key).0, UseRwStep(s, key).1.value;
    ConsistentUse(s, key);
    UseRwHolds(s, key);
    PrefixRun(s1, ops, |s1.levels|, |s1.access|);
    HeldStays(s1, Run(s1, ops).s, key, i, true);
  }

  lemma ReaderSees(s: State, key: SlotKey, i: nat)
    requires UseRoStep(s, key).1.Some? && Held(UseRoStep(s, key).0, key, i, false)
    ensures UseRoStep(s, key).0.slots[i].state.buffer == UseRoStep(s, key).1.value
  {
    var s1 := UseRoStep(s, key).0;
    match Position(s.slots, key)
    case Some(k) =>
      assert s1.slots[k].key == key;
      PositionByKeys(s.slots, s1.slots, key);
    case None =>
      PositionIs(s1.slots, key, |s.slots|);
  }

  lemma HeldBufferStays(s: State, s': State, key: SlotKey, i: nat)
    requires Consistent(s) && Consistent(s') && PrefixKept(s, s', |s.levels|, |s.access|)
    requires Held(s, key, i, false) && Held(s', key, i, false)
    ensures s'.slots[i].state.buffer == s.slots[i].state.buffer
  {
    assert s.access[..|s.access|] == s.access;
    assert Follows(s.slots[i].state, Some(false)) && Follows(s'.slots[i].state, Some(false));
  }

  lemma ReaderBlocksWriters(s: State, key: SlotKey, i: nat)
    requires Consistent(s) && Held(s, key, i, false)
    ensures UseRwStep(s, key).1.None?
    ensures UseRoStep(s, key).1 == PeekRo(s, key) == Some(s.slots[i].state.buffer)
  {
    assert Follows(s.slots[i].state, Some(false));
  }

  /** Many readers: a live reader blocks writers, and never other readers. */
  lemma ReaderExcludesWriters(s: State, key: SlotKey, ops: seq<Op>)
    requires Consistent(s) && Nested(s) && s.levels != [] && UseRoStep(s, key).1.Some?
    requires var s1 := UseRoStep(s, key).0; ResetsAtZero(s1, ops) && OnlyDeeper(s1, ops, |s1.levels|)
    ensures var o := Run(UseRoStep(s, key).0, ops);
            && o.Next?
            && UseRwStep(o.s, key).1.None?
            && UseRoStep(o.s, key).1 == UseRoStep(s, key).1 == PeekRo(o.s, key)
  {
    var s1 := UseRoStep(s, key).0;
    ConsistentUse(s, key);
    UseRoHolds(s, key);
    var i: nat :| Held(s1, key, i, false);
    PrefixRun(s1, ops, |s1.levels|, |s1.access|);
    var s2 := Run(s1, ops).s;
    HeldStays(s1, s2, key, i, false);
    ReaderSees(s, key, i);
    ReaderBlocksWriters(s2, key, i);
    HeldBufferStays(s1, s2, key, i);
  }

  /** The untracked lookup gives the tracked lookup's answer, and so does the code lookup for a slot
      that exists. */
  lemma UntrackedLookupsAgree(s: State, key: SlotKey)
    requires Consistent(s)
    ensures PeekRo(s, key) == UseRoStep(s, key).1
    ensures key.contract == SYSTEM_CODE ==>
              GetCode(s, key.owner) == if Position(s.slots, key).Some? then UseRoStep(s, key).1 else None
  {
    if Position(s.slots, key).Some? {
      var i := Position(s.slots, key).value;
      var j := AccessOfWhere(s.access, i);
      if SlotAccess(i, true) in s.access {
        var k :| 0 <= k < |s.access| && s.access[k] == SlotAccess(i, true);
        AccessOfEntry(s.access, k);
      }
    }
  }

  // ---------- isolation of a commit ----------

  /** Contents a lookup of `key` would show to its holder. */
  function Visible(slots: seq<Entry>, key: SlotKey): Option<Bytes> {
    match Position(slots, key)
    case None => None
    case Some(i) => Some(slots[i].state.buffer)
  }

  lemma VisibleCons(e: Entry, rest: seq<Entry>, key: SlotKey)
    ensures Visible([e] + rest, key) == if e.key == key then Some(e.state.buffer) else Visible(rest, key)
  {
    assert ([e] + rest)[1..] == rest;
  }

  lemma {:induction false} DropTemporaryKeepsLookup(slots: seq<Entry>, key: SlotKey)
    requires key.contract != NULL_ADDRESS
    ensures Visible(DropTemporary(slots), key) == Visible(slots, key)
  {
    if slots != [] {
      DropTemporaryKeepsLookup(slots[1..], key);
      VisibleCons(slots[0], slots[1..], key);
      VisibleCons(slots[0], DropTemporary(slots[1..]), key);
      assert slots == [slots[0]] + slots[1..];
    }
  }

  /** A commit changes no visible contents (the outermost one forgets temporary slots), leaves what
      enclosing levels hold exactly as it was, and marks exactly the slots it held for writing. */
  lemma DropIsolation(s: State, key: SlotKey)
    requires Consistent(s) && s.levels != [] && s.Top().boundary <= |s.access|
    ensures var s' := DropStep(s).s;
            && (key.contract != NULL_ADDRESS || |s.levels| > 1 ==> Visible(s'.slots, key) == Visible(s.slots, key))
            && (key.contract == NULL_ADDRESS && |s.levels| == 1 ==> Visible(s'.slots, key) == None)
            && (|s.levels| > 1 ==> forall i | 0 <= i < |s.slots| ::
                  && (AccessOf(s.access[..s.Top().boundary], i).Some? ==> s'.slots[i] == s.slots[i])
                  && (s'.slots[i].state.Marked() <==>
                        s.slots[i].state.Marked() || CommitsNow(s, i)))
  {
    var b := s.Top().boundary;
    var settled := Settle(s.slots, s.access[b..], true);
    PositionByKeys(s.slots, settled, key);
    PositionByKeys(settled, s.slots, key);
    if |s.levels| == 1 {
      if key.contract != NULL_ADDRESS {
        DropTemporaryKeepsLookup(settled, key);
      } else {
        forall e | e in DropTemporary(settled) ensures e.key.contract != NULL_ADDRESS {
          DropTemporaryMembers(settled, e);
        }
      }
    } else {
      forall i | 0 <= i < |s.slots| && AccessOf(s.access[..b], i).Some? ensures settled[i] == s.slots[i] {
        SettleAt(s, b, i, true);
      }
    }
  }

  // ---------- rollback ----------

  /** Dropping the innermost level now would release a write on slot `i`. */
  predicate CommitsNow(s: State, i: nat) {
    && s.levels != [] && s.Top().boundary <= |s.access| && i < |s.slots|
    && AccessOf(s.access[s.Top().boundary..], i).Some? && s.slots[i].state.Writing()
  }

  predicate CommitsWrite(s: State, ops: seq<Op>, i: nat)
    decreases |ops|
  {
    ops != [] &&
    ((ops[0].Drop? && CommitsNow(s, i))
     || (Step(s, ops[0]).Next? && CommitsWrite(Step(s, ops[0]).s, ops[1..], i)))
  }

  /** What slot `i` falls back to: its mark and contents, a new slot being unmarked and empty. */
  function Fallback(s: State, i: nat): (bool, Bytes) {
    if i < |s.slots| then (s.slots[i].state.Marked(), s.slots[i].state.Stored()) else (false, [])
  }

  lemma FallbackStep(s: State, op: Op, i: nat)
    requires Consistent(s) && s.levels != [] && (op.Drop? ==> |s.levels| > 1) && Step(s, op).Next?
    ensures var s' := Step(s, op).s;
            && KeysKept(s.slots, s'.slots)
            && if op.Drop? && CommitsNow(s, i) then Fallback(s', i).0 else Fallback(s', i) == Fallback(s, i)
  {
    if (op.Drop? || op.Reset?) && i < |s.slots| {
      SettleAt(s, s.Top().boundary, i, op.Drop?);
    }
  }

  /** Over a run inside a transaction only a committed write changes what a slot falls back to. */
  lemma {:induction false} OnlyCommitsChangeFallback(s: State, ops: seq<Op>, depth: nat, i: nat)
    requires Consistent(s) && depth > 0 && |s.levels| >= depth && OnlyDeeper(s, ops, depth)
    ensures Run(s, ops).Next? ==>
              var s' := Run(s, ops).s;
              && (Fallback(s', i).0 <==> Fallback(s, i).0 || CommitsWrite(s, ops, i))
              && (!CommitsWrite(s, ops, i) ==> Fallback(s', i) == Fallback(s, i))
    decreases |ops|
  {
    if ops != [] && Step(s, ops[0]).Next? {
      ConsistentStep(s, ops[0]);
      FallbackStep(s, ops[0], i);
      OnlyCommitsChangeFallback(Step(s, ops[0]).s, ops[1..], depth, i);
    }
  }

  /** Resetting a level for the first time restores the mark and contents every slot had when the
      level was opened, new slots staying behind empty, except where a nested level committed a write:
      that mark survives. What enclosing levels hold is not released. */
  lemma ResetRestoresOpening(s: State, ops: seq<Op>, i: nat)
    requires Consistent(s) && Nested(s) && s.levels != [] && s.Top().boundary == |s.access|
    requires ResetsAtZero(s, ops) && OnlyDeeper(s, ops, |s.levels|)
    requires Run(s, ops).Next? ==> |Run(s, ops).s.levels| == |s.levels|
    ensures Run(s, ops).Next? && ResetStep(Run(s, ops).s).Next?
    ensures var s' := ResetStep(Run(s, ops).s).s;
            && s'.access == s.access && KeysKept(s.slots, s'.slots)
            && (i < |s'.slots| && AccessOf(s.access, i).None? ==>
                  && (s'.slots[i].state.Marked() <==> Fallback(s, i).0 || CommitsWrite(s, ops, i))
                  && (!CommitsWrite(s, ops, i) ==>
                        s'.slots[i].state.buffer == if i < |s.slots| then s.slots[i].state.buffer else [])
                  && !s'.slots[i].state.Writing() && !s'.slots[i].state.ModifiedReadOnly?)
            && (i < |s.slots| && AccessOf(s.access, i).Some? ==>
                  && AccessOf(s'.access, i) == AccessOf(s.access, i)
                  && Fallback(s', i) == Fallback(s, i)
                  && s'.slots[i].state.Writing() == s.slots[i].state.Writing())
  {
    var d, n := |s.levels|, |s.access|;
    PrefixRun(s, ops, d, n);
    var s1 := Run(s, ops).s;
    assert s1.Top() == s1.levels[..d][d - 1] == s.levels[..d][d - 1] == s.Top();
    assert s.access[..n] == s.access;
    OnlyCommitsChangeFallback(s, ops, d, i);
    ConsistentReset(s1);
    if i < |s1.slots| { SettleAt(s1, n, i, false); }
  }
}
