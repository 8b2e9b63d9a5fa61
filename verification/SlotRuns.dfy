/** What holds of the slots over whole runs. */
module SlotRuns {
  import opened SlotModel
  import opened Options

  // ---------- slot states follow the log ----------

  /** How the state of a slot follows from its log entry. A slot seeded read-only is in
      `OriginalReadOnly` with no entry, or with the entry of a refused write. */
  predicate Follows(st: SlotState, held: Option<bool>) {
    match held
    case None => st.Original? || st.Modified? || st.OriginalReadOnly?
    case Some(false) => st.Reading()
    case Some(true) => st.Writing() || st.OriginalReadOnly?
  }

  predicate Consistent(s: State) {
    && (forall j | 0 <= j < |s.access| :: s.access[j].index < |s.slots|)
    && Distinct(s.access)
    && (forall i | 0 <= i < |s.slots| :: Follows(s.slots[i].state, AccessOf(s.access, i)))
    && (s.levels == [] ==> s.access == [])
    && (forall l | 0 <= l < |s.levels| :: s.levels[l].originalParent <==> l == 0)
    && (s.levels != [] ==> s.levels[0].boundary == 0)
  }

  lemma {:induction false} AccessOfAppend(access: seq<SlotAccess>, a: SlotAccess, i: nat)
    ensures AccessOf(access + [a], i) ==
            if AccessOf(access, i).Some? then AccessOf(access, i)
            else if a.index == i then Some(a.readWrite) else None
  {
    if access != [] {
      assert (access + [a])[1..] == access[1..] + [a];
      AccessOfAppend(access[1..], a, i);
    }
  }

  lemma {:induction false} AccessOfSplit(access: seq<SlotAccess>, b: nat, i: nat)
    requires b <= |access|
    ensures AccessOf(access, i) ==
            if AccessOf(access[..b], i).Some? then AccessOf(access[..b], i) else AccessOf(access[b..], i)
  {
    if b == 0 {
      assert access[0..] == access;
    } else {
      assert access[..b][1..] == access[1..][..b - 1] && access[1..][b - 1..] == access[b..];
      AccessOfSplit(access[1..], b - 1, i);
    }
  }

  /** A slot has a mode exactly when the log mentions it. */
  lemma {:induction false} AccessOfWhere(access: seq<SlotAccess>, i: nat) returns (j: nat)
    ensures AccessOf(access, i).Some? ==> j < |access| && access[j] == SlotAccess(i, AccessOf(access, i).value)
    ensures AccessOf(access, i).None? ==> forall k | 0 <= k < |access| :: access[k].index != i
  {
    if access == [] || access[0].index == i {
      j := 0;
    } else {
      var r := AccessOfWhere(access[1..], i);
      j := r + 1;
      if AccessOf(access, i).None? {
        forall k | 0 <= k < |access| ensures access[k].index != i {
          if k > 0 { assert access[1..][k - 1] == access[k]; }
        }
      }
    }
  }

  predicate Distinct(access: seq<SlotAccess>) {
    forall j, k | 0 <= j < k < |access| :: access[j].index != access[k].index
  }

  /** With one entry per slot, the first entry found is the only one. */
  lemma AccessOfEntry(access: seq<SlotAccess>, j: nat)
    requires j < |access| && Distinct(access)
    ensures AccessOf(access, access[j].index) == Some(access[j].readWrite)
  {
    var k := AccessOfWhere(access, access[j].index);
  }

  lemma ConsistentAcquire(s: State, i: nat, readWrite: bool, e: Entry)
    requires Consistent(s) && s.levels != []
    requires i <= |s.slots| && AccessOf(s.access, i).None? && Follows(e.state, Some(readWrite))
    ensures Consistent(s.(access := s.access + [SlotAccess(i, readWrite)],
                          slots := if i < |s.slots| then s.slots[i := e] else s.slots + [e]))
  {
    var a := SlotAccess(i, readWrite);
    var slots := if i < |s.slots| then s.slots[i := e] else s.slots + [e];
    var j := AccessOfWhere(s.access, i);
    forall k | 0 <= k < |slots| ensures Follows(slots[k].state, AccessOf(s.access + [a], k)) {
      AccessOfAppend(s.access, a, k);
    }
  }

  lemma NothingPastTheEnd(s: State)
    requires Consistent(s)
    ensures AccessOf(s.access, |s.slots|).None?
  {
    var j := AccessOfWhere(s.access, |s.slots|);
  }

  lemma ConsistentUse(s: State, key: SlotKey)
    requires Consistent(s) && s.levels != []
    ensures Consistent(UseRoStep(s, key).0)
    ensures Consistent(UseRwStep(s, key).0)
  {
    NothingPastTheEnd(s);
    match Position(s.slots, key)
    case None =>
      ConsistentAcquire(s, |s.slots|, false, Entry(key, OriginalReadOnly([])));
      ConsistentAcquire(s, |s.slots|, true, Entry(key, OriginalReadWrite([], [])));
    case Some(i) =>
      var st := s.slots[i].state;
      if AccessOf(s.access, i).None? {
        ConsistentAcquire(s, i, false, Entry(key, Reading(st)));
        ConsistentAcquire(s, i, true, Entry(key, Writing(st)));
      } else if AccessOf(s.access, i) == Some(false) {
        assert s.slots[i := Entry(key, Reading(st))] == s.slots;
      }
  }

  /** Draining the log from `b` on meets only slots in one of the four accessed states, each once,
      and leaves every slot in step with what remains of the log. */
  lemma SettleAt(s: State, b: nat, i: nat, commit: bool)
    requires Consistent(s) && b <= |s.access| && i < |s.slots|
    ensures Follows(Settle(s.slots, s.access[b..], commit)[i].state, AccessOf(s.access[..b], i))
    ensures AccessOf(s.access[b..], i).Some? ==>
              && AccessOf(s.access[..b], i).None?
              && AccessOf(s.access, i) == AccessOf(s.access[b..], i)
              && (s.slots[i].state.Reading() || s.slots[i].state.Writing())
  {
    AccessOfSplit(s.access, b, i);
    if AccessOf(s.access[b..], i).Some? && AccessOf(s.access[..b], i).Some? {
      var k := AccessOfWhere(s.access[b..], i);
      var l := AccessOfWhere(s.access[..b], i);
      assert false;
    }
  }

  /** What is kept of the slots is exactly what is not temporary. */
  lemma {:induction false} DropTemporaryMembers(slots: seq<Entry>, e: Entry)
    ensures e in DropTemporary(slots) <==> e in slots && e.key.contract != NULL_ADDRESS
  {
    if slots != [] {
      assert slots == [slots[0]] + slots[1..];
      DropTemporaryMembers(slots[1..], e);
    }
  }

  lemma ConsistentDrop(s: State)
    requires Consistent(s) && s.levels != [] && s.Top().boundary <= |s.access|
    ensures Consistent(DropStep(s).s)
  {
    var b := s.Top().boundary;
    var settled := Settle(s.slots, s.access[b..], true);
    forall i | 0 <= i < |settled| ensures Follows(settled[i].state, AccessOf(s.access[..b], i)) {
      SettleAt(s, b, i, true);
    }
    var s' := DropStep(s).s;
    if |s.levels| == 1 {
      forall i | 0 <= i < |s'.slots| ensures Follows(s'.slots[i].state, None) {
        DropTemporaryMembers(settled, s'.slots[i]);
      }
    }
  }

  lemma ConsistentReset(s: State)
    requires Consistent(s) && s.levels != [] && s.Top().boundary <= |s.access|
    ensures Consistent(ResetStep(s).s)
  {
    var b := s.Top().boundary;
    forall i | 0 <= i < |s.slots|
      ensures Follows(ResetStep(s).s.slots[i].state, AccessOf(s.access[..b], i))
    {
      SettleAt(s, b, i, false);
    }
  }

  lemma ConsistentStep(s: State, op: Op)
    requires Consistent(s)
    ensures Step(s, op).Next? ==> Consistent(Step(s, op).s)
    ensures Step(s, op).Panic? <==> (op.Reset? || op.Drop?) && s.levels != [] && s.Top().boundary > |s.access|
  {
    if s.levels != [] {
      match op
      case UseRo(key) => ConsistentUse(s, key);
      case UseRw(key) => ConsistentUse(s, key);
      case Drop => if Step(s, op).Next? { ConsistentDrop(s); }
      case Reset => if Step(s, op).Next? { ConsistentReset(s); }
      case _ =>
    }
  }

  lemma {:induction false} NewIsConsistent(slots: seq<Slot>)
    ensures Consistent(New(slots))
    ensures Nested(New(slots))
  {
    if slots != [] {
      NewIsConsistent(slots[1..]);
    }
  }

  /** In every run, whatever is reset where, slot states follow the log, no slot has two live
      accesses, and none of the arms marked unreachable can be reached (`SettleAt`). The only panic
      is draining the log from beyond its end. */
  lemma {:induction false} EveryRunIsConsistent(s: State, ops: seq<Op>)
    requires Consistent(s)
    ensures Run(s, ops).Next? ==> Consistent(Run(s, ops).s)
    ensures Run(s, ops).Panic? <==>
            exists k :: 0 <= k < |ops| && PanicsAt(s, ops, k)
    decreases |ops|
  {
    if ops != [] {
      ConsistentStep(s, ops[0]);
      if Step(s, ops[0]).Next? {
        var s' := Step(s, ops[0]).s;
        EveryRunIsConsistent(s', ops[1..]);
        forall k | 0 <= k < |ops| - 1 ensures PanicsAt(s', ops[1..], k) == PanicsAt(s, ops, k + 1) {
          assert ops[..k + 1][1..] == ops[1..][..k];
        }
        if Run(s, ops).Panic? {
          var k :| 0 <= k < |ops[1..]| && PanicsAt(s', ops[1..], k);
          assert PanicsAt(s, ops, k + 1);
        } else {
          forall k | 0 <= k < |ops| ensures !PanicsAt(s, ops, k) {
            if k > 0 { assert !PanicsAt(s', ops[1..], k - 1); }
          }
        }
      } else {
        assert PanicsAt(s, ops, 0);
      }
    }
  }

  /** Call `k` of the run drains the log from beyond its end. */
  predicate PanicsAt(s: State, ops: seq<Op>, k: nat)
    requires k < |ops|
  {
    var o := Run(s, ops[..k]);
    o.Next? && (ops[k].Drop? || ops[k].Reset?) && o.s.levels != [] && o.s.Top().boundary > |o.s.access|
  }

  // ---------- levels are nested ----------

  predicate Nested(s: State) {
    && (forall l | 0 <= l < |s.levels| :: s.levels[l].boundary <= |s.access|)
    && (forall l, m | 0 <= l < m < |s.levels| :: s.levels[l].boundary <= s.levels[m].boundary)
  }

  /** Every reset of the run hits a level whose ancestors held nothing when it was opened; the
      outermost level is always one. */
  predicate ResetsAtZero(s: State, ops: seq<Op>)
    decreases |ops|
  {
    ops == [] ||
    (&& (ops[0].Reset? && s.levels != [] ==> s.Top().boundary == 0)
     && (Step(s, ops[0]).Next? ==> ResetsAtZero(Step(s, ops[0]).s, ops[1..])))
  }

  lemma NestedDrop(s: State)
    requires Nested(s)
    ensures Step(s, Drop).Next? && Nested(Step(s, Drop).s)
  {
    if s.levels != [] {
      assert s.Top().boundary == s.levels[|s.levels| - 1].boundary;
    }
  }

  lemma NestedReset(s: State)
    requires Nested(s) && (s.levels != [] ==> s.Top().boundary == 0)
    ensures Step(s, Reset).Next? && Nested(Step(s, Reset).s)
  {
  }

  lemma NestedStep(s: State, op: Op)
    requires Consistent(s) && Nested(s)
    requires op.Reset? && s.levels != [] ==> s.Top().boundary == 0
    ensures Step(s, op).Next? && Nested(Step(s, op).s)
  {
    if op.Drop? {
      NestedDrop(s);
    } else if op.Reset? {
      NestedReset(s);
    }
  }

  lemma {:induction false} DisciplinedRunsNeverPanic(s: State, ops: seq<Op>)
    requires Consistent(s) && Nested(s) && ResetsAtZero(s, ops)
    ensures Run(s, ops).Next? && Consistent(Run(s, ops).s) && Nested(Run(s, ops).s)
    decreases |ops|
  {
    if ops != [] {
      ConsistentStep(s, ops[0]);
      NestedStep(s, ops[0]);
      DisciplinedRunsNeverPanic(Step(s, ops[0]).s, ops[1..]);
    }
  }

  /** Resetting a level and dropping it leaves what its ancestors hold alone exactly when its
      boundary is zero, so `ResetsAtZero` cannot be weakened. */
  lemma ResetThenDropSparesAncestors(s: State)
    requires Consistent(s) && Nested(s) && |s.levels| >= 2
    ensures ResetStep(s).Next? && DropStep(ResetStep(s).s).Next?
    ensures var b, s' := s.Top().boundary, DropStep(ResetStep(s).s).s;
            && (s'.access == s.access[..b] <==> b == 0)
            && ((forall i | 0 <= i < |s.slots| && AccessOf(s.access[..b], i).Some? :: s'.slots[i] == s.slots[i])
                <==> b == 0)
  {
    var b := s.Top().boundary;
    assert b == s.levels[|s.levels| - 1].boundary;
    ConsistentReset(s);
    var s1 := ResetStep(s).s;
    var s2 := DropStep(s1).s;
    assert s1.access[0..] == s.access[..b];
    if b > 0 {
      var i := s.access[0].index;
      assert s.access[..b][0] == s.access[0];
      SettleAt(s, b, i, false);
      SettleAt(s1, 0, i, true);
      assert AccessOf(s.access[..b], i).Some?;
      assert s2.slots[i] != s.slots[i];
    }
  }

  lemma {:induction false} RunConcat(s: State, a: seq<Op>, b: seq<Op>)
    requires Run(s, a).Next?
    ensures Run(s, a + b) == Run(Run(s, a).s, b)
    decreases |a|
  {
    if a == [] {
      assert a + b == b;
    } else {
      assert (a + b)[1..] == a[1..] + b;
      RunConcat(Step(s, a[0]).s, a[1..], b);
    }
  }

  lemma RunOne(s: State, op: Op)
    ensures Run(s, [op]) == Step(s, op)
  {
    assert [op][1..] == [];
  }

  lemma RunThree(s: State, a: Op, b: Op, c: Op, s1: State, s2: State)
    requires Step(s, a) == Next(s1) && Step(s1, b) == Next(s2)
    ensures Run(s, [a, b, c]) == Step(s2, c)
  {
    RunOne(s, a);
    RunOne(s1, b);
    RunOne(s2, c);
    RunConcat(s1, [b], [c]);
    RunConcat(s, [a], [b] + [c]);
    assert [a] + ([b] + [c]) == [a, b, c];
  }

  lemma ResetFreshLevel(s: State)
    requires s.levels != []
    ensures Step(OpenStep(s), Reset) == Next(s.(levels := s.levels + [Level(0, false)]))
  {
    assert s.access[|s.access|..] == [] && s.access[..|s.access|] == s.access;
    assert Settle(s.slots, [], false) == s.slots;
  }

  lemma DropAtZero(s: State)
    requires s.levels != []
    ensures Step(s.(levels := s.levels + [Level(0, false)]), Drop)
            == Next(State(Settle(s.slots, s.access, true), [], s.contracts, s.levels))
  {
    assert s.access[0..] == s.access;
    assert (s.levels + [Level(0, false)])[..|s.levels|] == s.levels;
  }

  /** Opening a level, resetting it and dropping it commits and forgets everything held by the levels
      below, all of which are still live. */
  lemma NestedResetClearsLog(s: State)
    requires s.levels != []
    ensures Run(s, [Open, Reset, Drop]) == Next(State(Settle(s.slots, s.access, true), [], s.contracts, s.levels))
  {
    ResetFreshLevel(s);
    DropAtZero(s);
    RunThree(s, Open, Reset, Drop, OpenStep(s), s.(levels := s.levels + [Level(0, false)]));
  }

  /** The level below then panics when dropped if its own ancestors held anything. */
  lemma NestedResetPanics(s: State)
    requires s.levels != [] && s.Top().boundary > 0
    ensures Run(s, [Open, Reset, Drop] + [Drop]).Panic?
  {
    NestedResetClearsLog(s);
    var s' := Run(s, [Open, Reset, Drop]).s;
    RunOne(s', Drop);
    RunConcat(s, [Open, Reset, Drop], [Drop]);
  }

  /** Keys of existing slots stay where they are. */
  predicate KeysKept(before: seq<Entry>, after: seq<Entry>) {
    |before| <= |after| && forall i | 0 <= i < |before| :: after[i].key == before[i].key
  }

  lemma PositionIs(slots: seq<Entry>, key: SlotKey, i: nat)
    requires i < |slots| && slots[i].key == key
    requires forall j | 0 <= j < i :: slots[j].key != key
    ensures Position(slots, key) == Some(i)
  {
    assert Position(slots, key).Some?;
  }

  lemma PositionByKeys(before: seq<Entry>, after: seq<Entry>, key: SlotKey)
    requires KeysKept(before, after)
    ensures Position(before, key).Some? ==> Position(after, key) == Position(before, key)
  {
    if Position(before, key).Some? {
      var i := Position(before, key).value;
      assert forall j | 0 <= j < i :: before[j].key != key;
      PositionIs(after, key, i);
    }
  }

  /** The slot found for `key` has a live access in the given mode. */
  predicate Held(s: State, key: SlotKey, i: nat, readWrite: bool) {
    && i < |s.slots|
    && Position(s.slots, key) == Some(i)
    && AccessOf(s.access, i) == Some(readWrite)
    && (readWrite ==> s.slots[i].state.Writing())
  }

  lemma UseRwHolds(s: State, key: SlotKey)
    requires Consistent(s) && s.levels != [] && UseRwStep(s, key).1.Some?
    ensures Held(UseRwStep(s, key).0, key, UseRwStep(s, key).1.value, true)
  {
    NothingPastTheEnd(s);
    var s', i := UseRwStep(s, key).0, UseRwStep(s, key).1.value;
    AccessOfAppend(s.access, SlotAccess(i, true), i);
    PositionIs(s'.slots, key, i);
  }

  lemma UseRoHolds(s: State, key: SlotKey)
    requires Consistent(s) && s.levels != [] && UseRoStep(s, key).1.Some?
    ensures exists i :: Held(UseRoStep(s, key).0, key, i, false)
  {
    NothingPastTheEnd(s);
    var s' := UseRoStep(s, key).0;
    var p := Position(s.slots, key);
    var i := if p.Some? then p.value else |s.slots|;
    AccessOfAppend(s.access, SlotAccess(i, false), i);
    PositionIs(s'.slots, key, i);
    assert Held(s', key, i, false);
  }

  /** And a slot can be acquired for writing twice by the same live level. */
  lemma NestedResetAllowsSecondWriter(s: State, key: SlotKey)
    requires Consistent(s) && s.levels != [] && UseRwStep(s, key).1.Some?
    ensures var o := Run(UseRwStep(s, key).0, [Open, Reset, Drop]);
            o.Next? && o.s.levels == s.levels && UseRwStep(o.s, key).1 == UseRwStep(s, key).1
  {
    UseRwHolds(s, key);
    var s1, i := UseRwStep(s, key).0, UseRwStep(s, key).1.value;
    NestedResetClearsLog(s1);
    var settled := Settle(s1.slots, s1.access, true);
    PositionByKeys(s1.slots, settled, key);
    assert settled[i].state.Modified?;
  }
}
