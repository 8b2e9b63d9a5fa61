/** The slot collection and its nested levels as they are updated in place. */
module Slots {
  import opened SlotModel
  import opened SlotRuns
  import opened Options

  lemma SettleOneMore(slots: seq<Entry>, drained: seq<SlotAccess>, a: SlotAccess, commit: bool)
    requires a.index < |slots| && AccessOf(drained, a.index).None?
    ensures var r, e := Settle(slots, drained, commit), slots[a.index];
            && r[a.index] == e
            && Settle(slots, drained + [a], commit)
               == r[a.index := e.(state := if commit then Commit(e.state) else RollBack(e.state))]
  {
    var r, e := Settle(slots, drained, commit), slots[a.index];
    var r' := Settle(slots, drained + [a], commit);
    forall i | 0 <= i < |slots|
      ensures r'[i] == r[a.index := e.(state := if commit then Commit(e.state) else RollBack(e.state))][i]
    {
      AccessOfAppend(drained, a, i);
    }
  }

  /** The next entry to drain belongs to an accessed slot that has not been settled yet. */
  lemma NextDrained(s: State, b: nat, j: nat)
    requires Consistent(s) && b <= j < |s.access|
    ensures s.access[j].index < |s.slots|
    ensures AccessOf(s.access[b..j], s.access[j].index).None?
    ensures var st := s.slots[s.access[j].index].state; st.Reading() || st.Writing()
  {
    var k := AccessOfWhere(s.access[b..j], s.access[j].index);
    AccessOfEntry(s.access, j);
  }

  lemma {:induction false} SeedAppend(a: seq<Slot>, slot: Slot)
    ensures Seed(a + [slot]) == Seed(a) + Seed([slot])
  {
    if a != [] {
      assert (a + [slot])[1..] == a[1..] + [slot];
      SeedAppend(a[1..], slot);
    } else {
      assert a + [slot] == [slot];
    }
  }

  lemma {:induction false} DropTemporaryAppend(a: seq<Entry>, e: Entry)
    ensures DropTemporary(a + [e]) == DropTemporary(a) + DropTemporary([e])
  {
    if a != [] {
      assert (a + [e])[1..] == a[1..] + [e];
      DropTemporaryAppend(a[1..], e);
    } else {
      assert a + [e] == [e];
    }
  }

  class Slots {
    var slots: seq<Entry>
    var slotAccess: seq<SlotAccess>
    var newContracts: seq<Address>
    /** Live read-write levels, innermost last. */
    var levels: seq<Level>

    function View(): State
      reads this
    {
      State(slots, slotAccess, newContracts, levels)
    }

    ghost predicate Valid()
      reads this
    {
      Consistent(View())
    }

    constructor (seeds: seq<Slot>)
      ensures View() == New(seeds) && Valid()
    {
      slots, slotAccess, newContracts, levels := [], [], [], [];
      new;
      for k := 0 to |seeds|
        invariant slots == Seed(seeds[..k])
        invariant slotAccess == [] && newContracts == [] && levels == []
      {
        SeedAppend(seeds[..k], seeds[k]);
        assert seeds[..k + 1] == seeds[..k] + [seeds[k]];
        var key := seeds[k].key;
        if key.contract != NULL_ADDRESS {
          match seeds[k]
          case ReadOnly(_, buffer) => slots := slots + [Entry(key, OriginalReadOnly(buffer))];
          case ReadWrite(_, buffer) => slots := slots + [Entry(key, Original(buffer))];
        }
      }
      assert seeds[..|seeds|] == seeds;
      NewIsConsistent(seeds);
    }

    method NewNestedRw()
      requires Valid()
      modifies this
      ensures Valid() && View() == OpenStep(old(View()))
    {
      if levels == [] {
        levels := [Level(0, true)];
      } else {
        levels := levels + [Level(|slotAccess|, false)];
      }
    }

    method AddNewContract(owner: Address) returns (added: bool)
      requires Valid()
      modifies this`newContracts
      ensures Valid() && View() == AddContractStep(old(View()), owner)
      ensures added <==> owner !in old(newContracts)
    {
      if owner in newContracts {
        added := false;
      } else {
        newContracts := newContracts + [owner];
        added := true;
      }
    }

    method GetCode(owner: Address) returns (code: Option<Bytes>)
      requires Valid()
      ensures code == SlotModel.GetCode(View(), owner)
    {
      var found := Position(slots, SlotKey(owner, SYSTEM_CODE));
      match found
      case None => code := None;
      case Some(i) =>
        if exists a | a in slotAccess :: a.index == i && a.readWrite {
          code := None;
        } else {
          match slots[i].state
          case OriginalReadWrite(_, _) => code := None;
          case ModifiedReadWrite(_, _) => code := None;
          case st => code := Some(st.buffer);
        }
    }

    method UseRo(key: SlotKey) returns (r: Option<Bytes>)
      requires Valid() && levels != []
      modifies this`slots, this`slotAccess
      ensures Valid() && (View(), r) == UseRoStep(old(View()), key)
    {
      ConsistentUse(View(), key);
      match Position(slots, key) {
        case Some(i) =>
          var held := AccessOf(slotAccess, i);
          if held == Some(true) {
            r := None;
          } else {
            if held.None? {
              slotAccess := slotAccess + [SlotAccess(i, false)];
            }
            assert slots == slots[i := Entry(key, slots[i].state)];
            match slots[i].state
            case Original(buffer) =>
              slots := slots[i := Entry(key, OriginalReadOnly(buffer))];
              r := Some(buffer);
            case Modified(buffer) =>
              slots := slots[i := Entry(key, ModifiedReadOnly(buffer))];
              r := Some(buffer);
            case OriginalReadOnly(buffer) => r := Some(buffer);
            case ModifiedReadOnly(buffer) => r := Some(buffer);
            case OriginalReadWrite(_, _) => r := None;
            case ModifiedReadWrite(_, _) => r := None;
          }
        case None =>
          if !(key.contract == NULL_ADDRESS || exists c | c in newContracts :: c == key.owner || c == key.contract) {
            r := None;
          } else {
            slotAccess := slotAccess + [SlotAccess(|slots|, false)];
            slots := slots + [Entry(key, OriginalReadOnly([]))];
            r := Some([]);
          }
      }
    }

    /** Lookup of a read-only instance. */
    method UseRoReadOnly(key: SlotKey) returns (r: Option<Bytes>)
      requires Valid()
      ensures r == PeekRo(View(), key)
    {
      match Position(slots, key) {
        case Some(i) =>
          if AccessOf(slotAccess, i) == Some(true) {
            r := None;
          } else {
            match slots[i].state
            case OriginalReadWrite(_, _) => r := None;
            case ModifiedReadWrite(_, _) => r := None;
            case st => r := Some(st.buffer);
          }
        case None =>
          if !(key.contract == NULL_ADDRESS || exists c | c in newContracts :: c == key.owner || c == key.contract) {
            r := None;
          } else {
            r := Some([]);
          }
      }
    }

    method UseRw(key: SlotKey) returns (r: Option<nat>)
      requires Valid() && levels != []
      modifies this`slots, this`slotAccess
      ensures Valid() && (View(), r) == UseRwStep(old(View()), key)
    {
      ConsistentUse(View(), key);
      match Position(slots, key) {
        case Some(i) =>
          if AccessOf(slotAccess, i).Some? {
            r := None;
          } else {
            slotAccess := slotAccess + [SlotAccess(i, true)];
            assert slots == slots[i := Entry(key, slots[i].state)];
            match slots[i].state
            case OriginalReadOnly(_) => r := None;
            case ModifiedReadOnly(_) => r := None;
            case Original(buffer) =>
              slots := slots[i := Entry(key, OriginalReadWrite(buffer, buffer))];
              r := Some(i);
            case Modified(buffer) =>
              slots := slots[i := Entry(key, ModifiedReadWrite(buffer, buffer))];
              r := Some(i);
            case OriginalReadWrite(_, _) => r := Some(i);
            case ModifiedReadWrite(_, _) => r := Some(i);
          }
        case None =>
          if !(key.contract == NULL_ADDRESS || exists c | c in newContracts :: c == key.owner || c == key.contract) {
            r := None;
          } else {
            var i := |slots|;
            slotAccess := slotAccess + [SlotAccess(i, true)];
            slots := slots + [Entry(key, OriginalReadWrite([], []))];
            r := Some(i);
          }
      }
    }

    /** `access_used_rw`, with the caller's new contents for the buffer it is given. */
    method WriteUsed(index: nat, bytes: Bytes) returns (ok: bool)
      requires Valid() && levels != []
      modifies this`slots
      ensures Valid() && View() == WriteStep(old(View()), index, bytes)
      ensures ok <==> index < |old(slots)| && AccessOf(slotAccess, index) == Some(true)
                      && !old(slots[index]).state.OriginalReadOnly?
    {
      ConsistentStep(View(), Write(index, bytes));
      if index >= |slots| {
        ok := false;
      } else {
        assert Follows(slots[index].state, AccessOf(slotAccess, index));
        match slots[index].state
        case OriginalReadWrite(_, previous) =>
          slots := slots[index := Entry(slots[index].key, OriginalReadWrite(bytes, previous))];
          ok := true;
        case ModifiedReadWrite(_, previous) =>
          slots := slots[index := Entry(slots[index].key, ModifiedReadWrite(bytes, previous))];
          ok := true;
        case _ =>
          ok := false;
      }
    }

    /** `ok` is false when draining the log panics. */
    method Reset() returns (ok: bool)
      requires Valid() && levels != []
      modifies this
      ensures ok <==> ResetStep(old(View())).Next?
      ensures if ok then Valid() && View() == ResetStep(old(View())).s else unchanged(this)
    {
      var top := levels[|levels| - 1];
      var boundary := top.boundary;
      ok := boundary <= |slotAccess|;
      if ok {
        ghost var s := View();
        var j := boundary;
        while j < |slotAccess|
          invariant boundary <= j <= |slotAccess|
          invariant slotAccess == s.access && newContracts == s.contracts && levels == s.levels
          invariant slots == Settle(s.slots, s.access[boundary..j], false)
        {
          NextDrained(s, boundary, j);
          SettleOneMore(s.slots, s.access[boundary..j], s.access[j], false);
          assert s.access[boundary..j + 1] == s.access[boundary..j] + [s.access[j]];
          var i := slotAccess[j].index;
          var e := slots[i];
          match e.state {
            case Original(_) => assert false;
            case OriginalReadOnly(buffer) => slots := slots[i := Entry(e.key, Original(buffer))];
            case Modified(_) =>
            case ModifiedReadOnly(buffer) => slots := slots[i := Entry(e.key, Modified(buffer))];
            case OriginalReadWrite(_, previous) => slots := slots[i := Entry(e.key, Original(previous))];
            case ModifiedReadWrite(_, previous) => slots := slots[i := Entry(e.key, Modified(previous))];
          }
          j := j + 1;
        }
        assert s.access[boundary..j] == s.access[boundary..];
        slotAccess := slotAccess[..boundary];
        levels := levels[|levels| - 1 := top.(boundary := 0)];
        ConsistentReset(s);
      }
    }

    method Drop() returns (ok: bool)
      requires Valid() && levels != []
      modifies this
      ensures ok <==> DropStep(old(View())).Next?
      ensures if ok then Valid() && View() == DropStep(old(View())).s else unchanged(this)
    {
      var top := levels[|levels| - 1];
      var boundary := top.boundary;
      ok := boundary <= |slotAccess|;
      if ok {
        ghost var s := View();
        var j := boundary;
        while j < |slotAccess|
          invariant boundary <= j <= |slotAccess|
          invariant slotAccess == s.access && newContracts == s.contracts && levels == s.levels
          invariant slots == Settle(s.slots, s.access[boundary..j], true)
        {
          NextDrained(s, boundary, j);
          SettleOneMore(s.slots, s.access[boundary..j], s.access[j], true);
          assert s.access[boundary..j + 1] == s.access[boundary..j] + [s.access[j]];
          var i := slotAccess[j].index;
          var e := slots[i];
          match e.state {
            case Original(_) => assert false;
            case OriginalReadOnly(buffer) => slots := slots[i := Entry(e.key, Original(buffer))];
            case Modified(_) =>
            case ModifiedReadOnly(buffer) => slots := slots[i := Entry(e.key, Modified(buffer))];
            case OriginalReadWrite(buffer, _) => slots := slots[i := Entry(e.key, Modified(buffer))];
            case ModifiedReadWrite(buffer, _) => slots := slots[i := Entry(e.key, Modified(buffer))];
          }
          j := j + 1;
        }
        assert s.access[boundary..j] == s.access[boundary..];
        slotAccess := slotAccess[..boundary];
        if top.originalParent {
          RetainLasting();
        }
        levels := levels[..|levels| - 1];
        ConsistentDrop(s);
      }
    }

    /** Forget the slots of the null contract. */
    method RetainLasting()
      modifies this`slots
      ensures slots == DropTemporary(old(slots))
    {
      var kept := [];
      for k := 0 to |slots|
        invariant slots == old(slots)
        invariant kept == DropTemporary(slots[..k])
      {
        DropTemporaryAppend(slots[..k], slots[k]);
        assert slots[..k + 1] == slots[..k] + [slots[k]];
        if slots[k].key.contract != NULL_ADDRESS {
          kept := kept + [slots[k]];
        }
      }
      assert slots[..|slots|] == slots;
      slots := kept;
    }
  }
}
