/** Short runs from a new collection in which the nested levels do not keep a promise. */
module SlotWitnesses {
  import opened SlotModel
  import opened SlotRuns
  import opened SlotHistory
  import opened Options

  const KEY: SlotKey := SlotKey(2, 2)

  lemma RunCons(s: State, op: Op, rest: seq<Op>, s': State)
    requires Step(s, op) == Next(s')
    ensures Run(s, [op] + rest) == Run(s', rest)
  {
    assert ([op] + rest)[1..] == rest;
  }

  function One(st: SlotState): seq<Entry> { [Entry(KEY, st)] }

  lemma NewWith(slot: Slot)
    requires slot.key == KEY
    ensures New([slot]) == State(One(SeedState(slot)), [], [], [])
  {
    assert [slot][1..] == [] && Seed([]) == [];
    assert Seed([slot]) == [Entry(KEY, SeedState(slot))] + Seed([]);
  }

  lemma Alone(slots: seq<Entry>)
    requires |slots| == 1 && slots[0].key == KEY
    ensures Position(slots, KEY) == Some(0) && DropTemporary(slots) == slots
  {
    assert slots[1..] == [];
  }

  lemma Opened(b: Bytes)
    ensures Run(New([ReadWrite(KEY, b)]), [Open]) == Next(State(One(Original(b)), [], [], [Level(0, true)]))
  {
    NewWith(ReadWrite(KEY, b));
    RunOne(New([ReadWrite(KEY, b)]), Open);
  }

  /** From a new collection: after a nested reset and drop a live level gets the same slot for writing
      a second time. */
  lemma SecondWriterFromNew(b: Bytes)
    ensures var s := Run(New([ReadWrite(KEY, b)]), [Open]).s;
            var o := Run(UseRwStep(s, KEY).0, [Open, Reset, Drop]);
            UseRwStep(s, KEY).1.Some? && o.Next? && |o.s.levels| == 1 && UseRwStep(o.s, KEY).1.Some?
  {
    Opened(b);
    var s := Run(New([ReadWrite(KEY, b)]), [Open]).s;
    Alone(s.slots);
    NewIsConsistent([ReadWrite(KEY, b)]);
    ConsistentStep(New([ReadWrite(KEY, b)]), Open);
    RunOne(New([ReadWrite(KEY, b)]), Open);
    NestedResetAllowsSecondWriter(s, KEY);
  }

  /** From a new collection: a reset in the third level makes the drop of the second one panic. */
  lemma PanicFromNew(b: Bytes)
    ensures Run(New([ReadWrite(KEY, b)]), [Open] + ([UseRo(KEY)] + ([Open] + ([Open, Reset, Drop] + [Drop])))).Panic?
  {
    var s0 := New([ReadWrite(KEY, b)]);
    NewWith(ReadWrite(KEY, b));
    var s1 := State(One(Original(b)), [], [], [Level(0, true)]);
    var s2 := State(One(OriginalReadOnly(b)), [SlotAccess(0, false)], [], [Level(0, true)]);
    var s3 := State(One(OriginalReadOnly(b)), [SlotAccess(0, false)], [], [Level(0, true), Level(1, false)]);
    Alone(s1.slots);
    assert s1.slots[0 := Entry(KEY, OriginalReadOnly(b))] == One(OriginalReadOnly(b));
    NestedResetPanics(s3);
    RunCons(s2, Open, [Open, Reset, Drop] + [Drop], s3);
    RunCons(s1, UseRo(KEY), [Open] + ([Open, Reset, Drop] + [Drop]), s2);
    RunCons(s0, Open, [UseRo(KEY)] + ([Open] + ([Open, Reset, Drop] + [Drop])), s1);
  }

  /** From a new collection: what a nested level committed survives the reset of the level around it. */
  lemma NestedCommitSurvivesFromNew(b: Bytes, c: Bytes)
    ensures var o := Run(New([ReadWrite(KEY, b)]), [Open] + ([Open] + ([UseRw(KEY)] + ([Write(0, c)] + ([Drop] + [Reset])))));
            o.Next? && o.s.slots == One(Modified(c))
  {
    var s0 := New([ReadWrite(KEY, b)]);
    NewWith(ReadWrite(KEY, b));
    var s1 := State(One(Original(b)), [], [], [Level(0, true)]);
    var s2 := s1.(levels := [Level(0, true), Level(0, false)]);
    var s3 := State(One(OriginalReadWrite(b, b)), [SlotAccess(0, true)], [], s2.levels);
    var s4 := s3.(slots := One(OriginalReadWrite(c, b)));
    var s5 := State(One(Modified(c)), [], [], [Level(0, true)]);
    Alone(s2.slots);
    assert s2.slots[0 := Entry(KEY, OriginalReadWrite(b, b))] == s3.slots;
    assert s3.slots[0 := Entry(KEY, OriginalReadWrite(c, b))] == s4.slots;
    assert s4.access[0..] == s4.access && s4.levels[..1] == s5.levels;
    assert Settle(s4.slots, s4.access, true) == s5.slots;
    assert Settle(s5.slots, [], false) == s5.slots;
    RunOne(s5, Reset);
    RunCons(s4, Drop, [Reset], s5);
    RunCons(s3, Write(0, c), [Drop] + [Reset], s4);
    RunCons(s2, UseRw(KEY), [Write(0, c)] + ([Drop] + [Reset]), s3);
    RunCons(s1, Open, [UseRw(KEY)] + ([Write(0, c)] + ([Drop] + [Reset])), s2);
    RunCons(s0, Open, [Open] + ([UseRw(KEY)] + ([Write(0, c)] + ([Drop] + [Reset]))), s1);
  }

  /** From a new collection: a slot seeded read-only refuses its first writer, and accepts one after a
      read was released; iteration fails before and succeeds after. */
  lemma ReadOnlyOpensFromNew(b: Bytes)
    ensures var s := New([ReadOnly(KEY, b)]);
            var o := Run(s, [Open] + ([UseRo(KEY)] + ([Drop] + [Open])));
            && UseRwStep(s, KEY).1.None? && Iter(s.slots).None?
            && o.Next? && UseRwStep(o.s, KEY).1.Some? && Iter(o.s.slots).Some?
  {
    var s0 := New([ReadOnly(KEY, b)]);
    NewWith(ReadOnly(KEY, b));
    var s1 := State(One(OriginalReadOnly(b)), [], [], [Level(0, true)]);
    var s2 := s1.(access := [SlotAccess(0, false)]);
    var s3 := State(One(Original(b)), [], [], []);
    Alone(s1.slots);
    Alone(s3.slots);
    assert s1.slots[0 := Entry(KEY, OriginalReadOnly(b))] == s1.slots;
    assert s2.access[0..] == s2.access && s2.access[..0] == [] && s2.levels[..0] == [];
    assert Settle(s2.slots, s2.access, true) == s3.slots;
    RunOne(s3, Open);
    RunCons(s2, Drop, [Open], s3);
    RunCons(s1, UseRo(KEY), [Drop] + [Open], s2);
    RunCons(s0, Open, [UseRo(KEY)] + ([Drop] + [Open]), s1);
    IterIsTotal(s0.slots);
    IterIsTotal(s3.slots);
  }
}
