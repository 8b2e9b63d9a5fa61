/** Downloading the pieces of a sector, with retries until every record slot is filled. */
module Download {
  import opened Options

  type PieceIndex = nat
  type Digest = nat
  type Error = nat

  datatype Piece = Piece(header: nat, record: nat)
  /** A record with its metadata. */
  datatype Slot = Empty | Filled(header: nat, checksum: Digest, record: nat)
  /** What the select loop of one attempt sees: a piece that was downloaded or reconstructed, a piece
      that was not found and goes to reconstruction, or a reconstruction that failed. */
  datatype Event = Delivered(index: PieceIndex, piece: Piece) | Missing(index: PieceIndex) | Failed(index: PieceIndex, error: Error)
  /** The piece getter refuses at once, or its events arrive in any order. */
  datatype Attempt = Refused(error: Error) | Events(events: seq<Event>)
  datatype Outcome = Success | Failure(error: Error) | Incomplete

  // ---------- what a run has delivered ----------

  /** The first piece delivered under an index. */
  function FirstDelivered(seen: seq<Event>, p: PieceIndex): Option<Piece> {
    if seen == [] then None
    else
      match FirstDelivered(seen[..|seen| - 1], p)
      case Some(piece) => Some(piece)
      case None =>
        var e := seen[|seen| - 1];
        if e.Delivered? && e.index == p then Some(e.piece) else None
  }

  function FirstFailure(events: seq<Event>): Option<Error> {
    if events == [] then None
    else
      match FirstFailure(events[..|events| - 1])
      case Some(error) => Some(error)
      case None =>
        var e := events[|events| - 1];
        if e.Failed? then Some(e.error) else None
  }

  /** The failure that an attempt reports is the first one; there is none exactly when nothing failed. */
  lemma {:induction false} FirstFailureIsFirst(events: seq<Event>)
    ensures match FirstFailure(events)
            case None => forall i | 0 <= i < |events| :: !events[i].Failed?
            case Some(error) =>
              exists k :: && 0 <= k < |events| && events[k].Failed? && events[k].error == error
                          && forall i | 0 <= i < k :: !events[i].Failed?
  {
    if events != [] {
      var init := events[..|events| - 1];
      FirstFailureIsFirst(init);
      match FirstFailure(init)
      case None =>
        assert forall i | 0 <= i < |init| :: !events[i].Failed? by { assert forall i | 0 <= i < |init| :: init[i] == events[i]; }
      case Some(error) =>
        var k :| && 0 <= k < |init| && init[k].Failed? && init[k].error == error
                 && forall i | 0 <= i < k :: !init[i].Failed?;
        assert events[k] == init[k] && forall i | 0 <= i < k :: events[i] == init[i];
    }
  }

  /** A delivered piece is never replaced, whatever follows. */
  lemma {:induction false} DeliveryIsFinal(seen: seq<Event>, more: seq<Event>, p: PieceIndex)
    requires FirstDelivered(seen, p).Some?
    ensures FirstDelivered(seen + more, p) == FirstDelivered(seen, p)
    decreases |more|
  {
    if more == [] {
      assert seen + more == seen;
    } else {
      DeliveryIsFinal(seen, more[..|more| - 1], p);
      assert (seen + more)[..|seen + more| - 1] == seen + more[..|more| - 1];
    }
  }

  /** Something was delivered under the index, and the first of those deliveries counts. */
  lemma {:induction false} FirstDeliveredIsFirst(seen: seq<Event>, p: PieceIndex) returns (k: nat)
    requires FirstDelivered(seen, p).Some?
    ensures k < |seen| && seen[k] == Delivered(p, FirstDelivered(seen, p).value)
    ensures forall i | 0 <= i < k && seen[i].Delivered? :: seen[i].index != p
  {
    var init := seen[..|seen| - 1];
    if FirstDelivered(init, p).Some? {
      k := FirstDeliveredIsFirst(init, p);
    } else {
      k := |init|;
      NotDelivered(init, p);
    }
  }

  lemma {:induction false} NotDelivered(seen: seq<Event>, p: PieceIndex)
    ensures FirstDelivered(seen, p).None? <==> forall i | 0 <= i < |seen| && seen[i].Delivered? :: seen[i].index != p
  {
    if seen != [] { NotDelivered(seen[..|seen| - 1], p); }
  }

  /** Slot positions that wait for an index, in order. */
  function Positions(indices: seq<PieceIndex>, p: PieceIndex): seq<nat> {
    if indices == [] then []
    else
      var n := |indices| - 1;
      Positions(indices[..n], p) + if indices[n] == p then [n] else []
  }

  lemma {:induction false} PositionsAreExact(indices: seq<PieceIndex>, p: PieceIndex)
    ensures forall j: nat :: j in Positions(indices, p) <==> j < |indices| && indices[j] == p
    ensures forall a, b | 0 <= a < b < |Positions(indices, p)| :: Positions(indices, p)[a] < Positions(indices, p)[b]
  {
    if indices != [] {
      var n := |indices| - 1;
      PositionsAreExact(indices[..n], p);
      forall a | 0 <= a < |Positions(indices[..n], p)| ensures Positions(indices[..n], p)[a] < n {
        assert Positions(indices[..n], p)[a] in Positions(indices[..n], p);
      }
    }
  }

  /** The pieces still to download once `seen` has been processed. */
  function Waiting(indices: seq<PieceIndex>, seen: seq<Event>): map<PieceIndex, seq<nat>> {
    map p | p in indices && FirstDelivered(seen, p).None? :: Positions(indices, p)
  }

  lemma {:induction false} NoPositions(indices: seq<PieceIndex>, p: PieceIndex)
    requires p !in indices
    ensures Positions(indices, p) == []
  {
    if indices != [] { NoPositions(indices[..|indices| - 1], p); }
  }

  lemma PositionsNext(indices: seq<PieceIndex>, n: nat, p: PieceIndex)
    requires n < |indices|
    ensures Positions(indices[..n + 1], p) == Positions(indices[..n], p) + if indices[n] == p then [n] else []
  {
    assert indices[..n + 1][..n] == indices[..n];
  }

  /** Adding position `n` to the group of its index. */
  lemma WaitingGroups(indices: seq<PieceIndex>, n: nat, next: map<PieceIndex, seq<nat>>)
    requires n < |indices|
    requires var m := Waiting(indices[..n], []); var p := indices[n];
             next == m[p := (if p in m then m[p] else []) + [n]]
    ensures next == Waiting(indices[..n + 1], [])
  {
    var init, p := indices[..n], indices[n];
    assert indices[..n + 1] == init + [p];
    if p !in init { NoPositions(init, p); }
    forall q | q in next ensures next[q] == Positions(indices[..n + 1], q) {
      PositionsNext(indices, n, q);
    }
  }

  class SectorDownload {
    const hash: Piece -> Digest
    const indices: seq<PieceIndex>
    var slots: array<Slot>
    var pending: map<PieceIndex, seq<nat>>
    /** How often each slot was written. */
    ghost var writes: seq<nat>

    function Content(piece: Option<Piece>): Slot {
      match piece
      case None => Empty
      case Some(piece) => Filled(piece.header, hash(piece), piece.record)
    }

    /** After `seen`, each slot holds the first piece delivered under its own index, written once, and
        exactly the undelivered indices are pending. */
    ghost predicate After(seen: seq<Event>)
      reads this, slots
    {
      && slots.Length == |writes| == |indices|
      && pending == Waiting(indices, seen)
      && (forall j | 0 <= j < |indices| :: slots[j] == Content(FirstDelivered(seen, indices[j])))
      && (forall j | 0 <= j < |indices| :: writes[j] == if FirstDelivered(seen, indices[j]).Some? then 1 else 0)
    }

    /** Every slot was written once, with the first piece delivered under its own index. */
    ghost predicate Finished(seen: seq<Event>)
      reads this, slots
    {
      After(seen) && forall j | 0 <= j < |indices| :: FirstDelivered(seen, indices[j]).Some? && writes[j] == 1
    }

    constructor (hash: Piece -> Digest, indices: seq<PieceIndex>)
      ensures this.hash == hash && this.indices == indices && After([]) && fresh(slots)
    {
      this.hash, this.indices := hash, indices;
      slots := new Slot[|indices|](_ => Empty);
      writes := seq(|indices|, _ => 0);
      new;
      pending := map[];
      for n := 0 to |indices|
        modifies `pending
        invariant pending == Waiting(indices[..n], [])
      {
        var p := indices[n];
        pending := pending[p := (if p in pending then pending[p] else []) + [n]];
        WaitingGroups(indices, n, pending);
      }
      assert indices[..|indices|] == indices;
    }

    /** Copies the piece into every slot that waits for its index. */
    method FillSlots(positions: seq<nat>, piece: Piece)
      requires slots.Length == |writes| && forall i | 0 <= i < |positions| :: positions[i] < slots.Length
      requires forall a, b | 0 <= a < b < |positions| :: positions[a] < positions[b]
      modifies slots, `writes
      ensures slots.Length == |writes|
      ensures forall j | 0 <= j < slots.Length :: slots[j] == if j in positions then Content(Some(piece)) else old(slots[j])
      ensures forall j | 0 <= j < slots.Length :: writes[j] == old(writes)[j] + if j in positions then 1 else 0
    {
      for i := 0 to |positions|
        invariant slots.Length == |writes|
        invariant forall j | 0 <= j < slots.Length :: slots[j] == if j in positions[..i] then Content(Some(piece)) else old(slots[j])
        invariant forall j | 0 <= j < slots.Length :: writes[j] == old(writes)[j] + if j in positions[..i] then 1 else 0
      {
        var j := positions[i];
        slots[j] := Filled(piece.header, hash(piece), piece.record);
        writes := writes[j := writes[j] + 1];
        assert positions[..i + 1] == positions[..i] + [j];
      }
      assert positions[..|positions|] == positions;
    }

    method ProcessPiece(ghost seen: seq<Event>, p: PieceIndex, piece: Piece)
      requires After(seen)
      modifies this, slots
      ensures After(seen + [Delivered(p, piece)]) && slots == old(slots)
    {
      ghost var seen' := seen + [Delivered(p, piece)];
      assert seen'[..|seen|] == seen;
      PositionsAreExact(indices, p);
      if p in pending {
        var positions := pending[p];
        forall i | 0 <= i < |positions| ensures positions[i] < slots.Length { assert positions[i] in positions; }
        pending := pending - {p};
        FillSlots(positions, piece);
      }
      assert pending == Waiting(indices, seen');
    }

    /** One attempt: everything it delivers is kept, and it succeeds exactly when nothing failed and
        nothing is left to download. */
    method Try(ghost seen: seq<Event>, attempt: Attempt) returns (outcome: Outcome)
      requires After(seen)
      modifies this, slots
      ensures After(seen + Heard(attempt)) && slots == old(slots)
      ensures outcome.Success? <==> attempt.Events? && FirstFailure(attempt.events).None? && pending == map[]
      ensures attempt.Refused? ==> outcome == Failure(attempt.error)
      ensures outcome.Incomplete? <==> attempt.Events? && FirstFailure(attempt.events).None? && pending != map[]
      ensures attempt.Events? && FirstFailure(attempt.events).Some? ==> outcome == Failure(FirstFailure(attempt.events).value)
    {
      if attempt.Refused? {
        assert seen + [] == seen;
        return Failure(attempt.error);
      }
      var events := attempt.events;
      var error: Option<Error> := None;
      assert seen + events[..0] == seen;
      for i := 0 to |events|
        invariant After(seen + events[..i]) && slots == old(slots) && error == FirstFailure(events[..i])
      {
        assert events[..i + 1][..i] == events[..i];
        assert seen + events[..i + 1] == seen + events[..i] + [events[i]];
        match events[i] {
          case Delivered(p, piece) => ProcessPiece(seen + events[..i], p, piece);
          case Missing(_) => Ignore(seen + events[..i], events[i]);
          case Failed(_, e) =>
            Ignore(seen + events[..i], events[i]);
            if error.None? { error := Some(e); }
        }
      }
      assert events[..|events|] == events;
      if error.Some? { return Failure(error.value); }
      outcome := if pending == map[] then Success else Incomplete;
    }

    lemma Ignore(seen: seq<Event>, e: Event)
      requires After(seen) && !e.Delivered?
      ensures After(seen + [e])
    {
      assert (seen + [e])[..|seen|] == seen;
    }

    /** Retries until an attempt succeeds or no more attempts are made. */
    method Retry(attempts: seq<Attempt>) returns (used: nat, done: bool)
      requires After([])
      modifies this, slots
      ensures slots == old(slots) && used <= |attempts|
      ensures if done then Finished(HeardAll(attempts[..used])) else After(HeardAll(attempts)) && used == |attempts|
      ensures done ==> used > 0 && attempts[used - 1].Events? && FirstFailure(attempts[used - 1].events).None?
    {
      used := 0;
      while used < |attempts|
        invariant used <= |attempts| && After(HeardAll(attempts[..used])) && slots == old(slots)
      {
        assert attempts[..used + 1][..used] == attempts[..used];
        var outcome := Try(HeardAll(attempts[..used]), attempts[used]);
        used := used + 1;
        if outcome.Success? {
          Complete(HeardAll(attempts[..used]));
          return used, true;
        }
      }
      assert attempts[..|attempts|] == attempts;
      done := false;
    }

    lemma Complete(seen: seq<Event>)
      requires After(seen) && pending == map[]
      ensures Finished(seen)
    {
      forall j | 0 <= j < |indices| ensures FirstDelivered(seen, indices[j]).Some? {
        assert indices[j] !in Waiting(indices, seen);
      }
    }
  }

  function Heard(attempt: Attempt): seq<Event> {
    if attempt.Events? then attempt.events else []
  }

  /** Everything delivered over all attempts, in order. */
  function HeardAll(attempts: seq<Attempt>): seq<Event> {
    if attempts == [] then []
    else HeardAll(attempts[..|attempts| - 1]) + Heard(attempts[|attempts| - 1])
  }
}
