/** Looking pieces up in the piece caches and plot caches of a farmer, one result per requested piece. */
module CacheLookup {
  import opened Options

  type PieceIndex = nat
  type CacheIndex = nat
  type Offset = nat
  type Piece = nat

  datatype Place = Place(cache: CacheIndex, offset: Offset)
  datatype Result = Result(index: PieceIndex, piece: Option<Piece>)

  datatype ReadEvent = Found(offset: Offset, index: PieceIndex, piece: Piece) | NotFound(offset: Offset) | ReadError
  /** A backend refuses the whole read, or streams events in any order and possibly ends early. */
  datatype Response = Refused | Stream(events: seq<ReadEvent>)

  type Groups = map<CacheIndex, map<Offset, PieceIndex>>

  // ---------- results that were sent ----------

  /** How often an index was answered. */
  function Times(sent: seq<Result>, p: PieceIndex): nat {
    if sent == [] then 0 else (if sent[0].index == p then 1 else 0) + Times(sent[1..], p)
  }

  lemma {:induction false} TimesConcat(a: seq<Result>, b: seq<Result>, p: PieceIndex)
    ensures Times(a + b, p) == Times(a, p) + Times(b, p)
  {
    if a == [] {
      assert a + b == b;
    } else {
      TimesConcat(a[1..], b, p);
      assert (a + b)[1..] == a[1..] + b;
    }
  }

  lemma TimesAppend(a: seq<Result>, r: Result)
    ensures forall p :: Times(a + [r], p) == Times(a, p) + if r.index == p then 1 else 0
  {
    forall p ensures Times(a + [r], p) == Times(a, p) + if r.index == p then 1 else 0 {
      TimesConcat(a, [r], p);
    }
  }

  lemma {:induction false} TimesPositive(sent: seq<Result>, r: Result)
    requires r in sent
    ensures Times(sent, r.index) > 0
  {
    if r != sent[0] { TimesPositive(sent[1..], r); }
  }

  /** Entries of `pending` are answered or still in `rest`. */
  ghost predicate Split(pending: seq<PieceIndex>, rest: seq<PieceIndex>, sent: seq<Result>) {
    forall p :: multiset(rest)[p] + Times(sent, p) == multiset(pending)[p]
  }

  // ---------- grouping by piece cache ----------

  /** Two pieces never share a place. */
  predicate OneToOne(stored: map<PieceIndex, Place>) {
    forall p, q | p in stored && q in stored && stored[p] == stored[q] :: p == q
  }

  predicate InCache(stored: map<PieceIndex, Place>, backends: set<CacheIndex>, p: PieceIndex) {
    p in stored && stored[p].cache in backends
  }

  function NotInCache(stored: map<PieceIndex, Place>, backends: set<CacheIndex>, indices: seq<PieceIndex>): seq<PieceIndex> {
    if indices == [] then []
    else
      var n := |indices| - 1;
      NotInCache(stored, backends, indices[..n]) + if InCache(stored, backends, indices[n]) then [] else [indices[n]]
  }

  predicate Holds(groups: Groups, c: CacheIndex, o: Offset, p: PieceIndex) {
    c in groups && o in groups[c] && groups[c][o] == p
  }

  /** The groups hold exactly the requested pieces with a backend, each at its own place. */
  ghost predicate Grouped(stored: map<PieceIndex, Place>, backends: set<CacheIndex>, indices: seq<PieceIndex>, groups: Groups) {
    && groups.Keys <= backends
    && forall c, o, p ::
         Holds(groups, c, o, p) <==> p in indices && InCache(stored, backends, p) && stored[p] == Place(c, o)
  }

  function Inserted(groups: Groups, place: Place, p: PieceIndex): Groups {
    var group: map<Offset, PieceIndex> := if place.cache in groups then groups[place.cache] else map[];
    var group: map<Offset, PieceIndex> := group[place.offset := p];
    groups[place.cache := group]
  }

  lemma GroupedInsert(stored: map<PieceIndex, Place>, backends: set<CacheIndex>, indices: seq<PieceIndex>, groups: Groups, p: PieceIndex)
    requires OneToOne(stored) && Grouped(stored, backends, indices, groups) && InCache(stored, backends, p)
    ensures Grouped(stored, backends, indices + [p], Inserted(groups, stored[p], p))
  {
    var next, place := Inserted(groups, stored[p], p), stored[p];
    forall c, o, q
      ensures Holds(next, c, o, q) <==>
              q in indices + [p] && InCache(stored, backends, q) && stored[q] == Place(c, o)
    {
      assert Holds(next, c, o, q) <==> if Place(c, o) == place then q == p else Holds(groups, c, o, q);
    }
  }

  method Group(indices: seq<PieceIndex>, stored: map<PieceIndex, Place>, backends: set<CacheIndex>)
    returns (groups: Groups, plot: seq<PieceIndex>)
    requires OneToOne(stored)
    ensures Grouped(stored, backends, indices, groups)
    ensures plot == NotInCache(stored, backends, indices)
  {
    groups, plot := map[], [];
    for i := 0 to |indices|
      invariant Grouped(stored, backends, indices[..i], groups)
      invariant plot == NotInCache(stored, backends, indices[..i])
    {
      var p := indices[i];
      assert indices[..i + 1][..i] == indices[..i] && indices[..i + 1] == indices[..i] + [p];
      if p !in stored {
        plot := plot + [p];
      } else if stored[p].cache in groups || stored[p].cache in backends {
        GroupedInsert(stored, backends, indices[..i], groups, p);
        groups := Inserted(groups, stored[p], p);
      } else {
        plot := plot + [p];
      }
    }
    assert indices[..|indices|] == indices;
  }

  // ---------- one piece cache ----------

  predicate Answers(e: ReadEvent, o: Offset) {
    !e.ReadError? && e.offset == o
  }

  /** A found piece answers a requested offset that was not answered before, with its own index. */
  ghost predicate WellBehaved(requested: map<Offset, PieceIndex>, events: seq<ReadEvent>) {
    forall i | 0 <= i < |events| && events[i].Found? ::
      && events[i].offset in requested && requested[events[i].offset] == events[i].index
      && Unanswered(events[..i], events[i].offset)
  }

  predicate Injective(m: map<Offset, PieceIndex>) {
    forall a, b | a in m && b in m && m[a] == m[b] :: a == b
  }

  function Has(m: map<Offset, PieceIndex>, p: PieceIndex): nat {
    if p in m.Values then 1 else 0
  }

  lemma HasWithout(m: map<Offset, PieceIndex>, o: Offset, p: PieceIndex)
    requires Injective(m) && o in m
    ensures Has(m, p) == Has(m - {o}, p) + if p == m[o] then 1 else 0
  {
    if p in m.Values && p != m[o] {
      var a :| a in m && m[a] == p;
      assert a in m - {o} && (m - {o})[a] == p;
    }
  }

  /** Answered so far plus still left makes what was requested. */
  ghost predicate Conserved(requested: map<Offset, PieceIndex>, left: map<Offset, PieceIndex>, sent: seq<Result>) {
    && left.Keys <= requested.Keys && (forall o | o in left :: left[o] == requested[o])
    && forall p :: Times(sent, p) + Has(left, p) == Has(requested, p)
  }

  lemma ConservedSend(requested: map<Offset, PieceIndex>, left: map<Offset, PieceIndex>, sent: seq<Result>, o: Offset, r: Result)
    requires Injective(requested) && Conserved(requested, left, sent) && o in left && r.index == left[o]
    ensures Conserved(requested, left - {o}, sent + [r])
  {
    TimesAppend(sent, r);
    forall p ensures Times(sent + [r], p) + Has(left - {o}, p) == Has(requested, p) {
      HasWithout(left, o, p);
    }
  }

  /** Sends nothing for what is left. */
  method SendMissing(ghost requested: map<Offset, PieceIndex>, left0: map<Offset, PieceIndex>, sent0: seq<Result>)
    returns (sent: seq<Result>)
    requires Injective(requested) && Conserved(requested, left0, sent0)
    ensures Conserved(requested, map[], sent)
    ensures forall r | r in sent && r.piece.Some? :: r in sent0
    ensures forall r | r in sent0 :: r in sent
  {
    var left := left0;
    sent := sent0;
    while left != map[]
      invariant Conserved(requested, left, sent)
      invariant forall r | r in sent && r.piece.Some? :: r in sent0
      invariant forall r | r in sent0 :: r in sent
      decreases |left|
    {
      var o :| o in left;
      ConservedSend(requested, left, sent, o, Result(left[o], None));
      sent := sent + [Result(left[o], None)];
      left := left - {o};
    }
  }

  /** The piece was found in the stream. */
  ghost predicate FromStream(events: seq<ReadEvent>, r: Result) {
    r.piece.Some? ==> exists e | e in events :: e.Found? && e.index == r.index && e.piece == r.piece.value
  }

  ghost predicate Unanswered(events: seq<ReadEvent>, o: Offset) {
    forall e | e in events :: !Answers(e, o)
  }

  /** An offset is left exactly while no event has answered it. */
  ghost predicate Left(requested: map<Offset, PieceIndex>, left: map<Offset, PieceIndex>, events: seq<ReadEvent>) {
    forall o | o in requested :: o in left <==> Unanswered(events, o)
  }

  /** One event of the stream. */
  method HandleEvent(ghost requested: map<Offset, PieceIndex>, left0: map<Offset, PieceIndex>, sent0: seq<Result>,
                     ghost events: seq<ReadEvent>, i: nat, e: ReadEvent)
    returns (left: map<Offset, PieceIndex>, sent: seq<Result>)
    requires Injective(requested) && WellBehaved(requested, events) && i < |events| && events[i] == e
    requires Conserved(requested, left0, sent0) && Left(requested, left0, events[..i])
    ensures Conserved(requested, left, sent)
    ensures left == if e.ReadError? then left0 else left0 - {e.offset}
    ensures forall r | r in sent :: r in sent0 || FromStream(events, r)
    ensures forall r | r in sent0 :: r in sent
    ensures e.Found? ==> Result(e.index, Some(e.piece)) in sent
  {
    left, sent := left0, sent0;
    match e {
      case Found(o, index, piece) =>
        ConservedSend(requested, left, sent, o, Result(index, Some(piece)));
        left := left - {o};
        sent := sent + [Result(index, Some(piece))];
      case NotFound(o) =>
        if o in left {
          ConservedSend(requested, left, sent, o, Result(left[o], None));
          sent := sent + [Result(left[o], None)];
          left := left - {o};
        } else {
          assert left - {o} == left;
        }
      case ReadError =>
    }
  }

  lemma LeftNext(requested: map<Offset, PieceIndex>, left: map<Offset, PieceIndex>, events: seq<ReadEvent>, i: nat)
    requires i < |events| && Left(requested, left, events[..i])
    ensures Left(requested, if events[i].ReadError? then left else left - {events[i].offset}, events[..i + 1])
  {
    assert events[..i + 1] == events[..i] + [events[i]];
    forall o: Offset ensures Unanswered(events[..i + 1], o) <==> Unanswered(events[..i], o) && !Answers(events[i], o) {
    }
  }

  /** Every requested piece of one cache gets exactly one result, whatever the backend fails to answer. */
  method ReadFromCache(requested: map<Offset, PieceIndex>, response: Response) returns (sent: seq<Result>)
    requires Injective(requested) && (response.Stream? ==> WellBehaved(requested, response.events))
    ensures forall p :: Times(sent, p) == Has(requested, p)
    ensures forall r | r in sent && r.piece.Some? :: response.Stream? && FromStream(response.events, r)
    ensures response.Stream? ==>
              forall e | e in response.events && e.Found? :: Result(e.index, Some(e.piece)) in sent
  {
    var left := requested;
    sent := [];
    if response.Refused? {
      sent := SendMissing(requested, left, sent);
      return;
    }
    var events := response.events;
    for i := 0 to |events|
      invariant Conserved(requested, left, sent) && Left(requested, left, events[..i])
      invariant forall r | r in sent :: FromStream(events, r)
      invariant forall e | e in events[..i] && e.Found? :: Result(e.index, Some(e.piece)) in sent
    {
      assert events[..i + 1] == events[..i] + [events[i]];
      LeftNext(requested, left, events, i);
      left, sent := HandleEvent(requested, left, sent, events, i, events[i]);
    }
    assert events[..|events|] == events;
    sent := SendMissing(requested, left, sent);
  }

  // ---------- plot caches ----------

  type PlotCache = PieceIndex -> Option<Piece>

  /** The answer of the first plot cache that has the piece. */
  function First(caches: seq<PlotCache>, p: PieceIndex): Option<Piece> {
    if caches == [] then None
    else
      match First(caches[..|caches| - 1], p)
      case Some(piece) => Some(piece)
      case None => caches[|caches| - 1](p)
  }

  function Reversed<T>(s: seq<T>): seq<T> {
    if s == [] then [] else Reversed(s[1..]) + [s[0]]
  }

  function SwapRemove<T>(s: seq<T>, i: nat): seq<T>
    requires i < |s|
  {
    s[i := s[|s| - 1]][..|s| - 1]
  }

  /** Swap-removal leaves what is before alone and keeps the rest up to order. */
  lemma SwapRemoveKeeps<T>(s: seq<T>, i: nat)
    requires i < |s|
    ensures SwapRemove(s, i)[..i] == s[..i]
    ensures multiset(SwapRemove(s, i)[i..]) == multiset(s[i + 1..])
  {
    var last := |s| - 1;
    if i < last {
      assert SwapRemove(s, i)[i..] == [s[last]] + s[i + 1..last];
      assert s[i + 1..] == s[i + 1..last] + [s[last]];
    } else {
      assert SwapRemove(s, i)[i..] == [] && s[i + 1..] == [];
    }
  }

  /** The pass has handled everything from `offset` on. */
  ghost predicate PassedTo(pending: seq<PieceIndex>, cache: PlotCache, offset: nat, rest: seq<PieceIndex>, sent: seq<Result>) {
    && offset <= |pending| && offset <= |rest| && rest[..offset] == pending[..offset]
    && Split(pending[offset..], rest[offset..], sent)
    && (forall i | offset <= i < |rest| :: cache(rest[i]).None?)
    && (forall r | r in sent :: r.piece.Some? && r.piece == cache(r.index))
  }

  lemma PassMiss(pending: seq<PieceIndex>, cache: PlotCache, offset: nat, rest: seq<PieceIndex>, sent: seq<Result>)
    requires PassedTo(pending, cache, offset + 1, rest, sent) && cache(rest[offset]).None?
    ensures PassedTo(pending, cache, offset, rest, sent)
  {
    assert rest[offset] == rest[..offset + 1][offset] == pending[..offset + 1][offset];
    assert rest[..offset] == rest[..offset + 1][..offset] && pending[..offset] == pending[..offset + 1][..offset];
    assert rest[offset..] == [rest[offset]] + rest[offset + 1..];
    assert pending[offset..] == [pending[offset]] + pending[offset + 1..];
  }

  lemma PassHit(pending: seq<PieceIndex>, cache: PlotCache, offset: nat, rest: seq<PieceIndex>, sent: seq<Result>)
    requires PassedTo(pending, cache, offset + 1, rest, sent) && cache(rest[offset]).Some?
    ensures PassedTo(pending, cache, offset, SwapRemove(rest, offset), sent + [Result(rest[offset], cache(rest[offset]))])
  {
    assert rest[offset] == rest[..offset + 1][offset] == pending[..offset + 1][offset];
    assert rest[..offset] == rest[..offset + 1][..offset] && pending[..offset] == pending[..offset + 1][..offset];
    assert pending[offset..] == [pending[offset]] + pending[offset + 1..];
    SwapRemoveKeeps(rest, offset);
    TimesAppend(sent, Result(rest[offset], cache(rest[offset])));
  }

  /** One plot cache: each pending entry is read once, found ones are sent and removed. */
  method ReadPass(pending: seq<PieceIndex>, cache: PlotCache)
    returns (rest: seq<PieceIndex>, sent: seq<Result>, visited: seq<PieceIndex>)
    ensures visited == Reversed(pending)
    ensures PassedTo(pending, cache, 0, rest, sent)
  {
    rest, sent, visited := pending, [], [];
    var offset: nat := |pending|;
    while offset > 0
      invariant PassedTo(pending, cache, offset, rest, sent)
      invariant visited == Reversed(pending[offset..])
    {
      offset := offset - 1;
      assert rest[offset] == rest[..offset + 1][offset] == pending[..offset + 1][offset];
      assert pending[offset..][1..] == pending[offset + 1..];
      visited := visited + [rest[offset]];
      var answer := cache(rest[offset]);
      if answer.Some? {
        PassHit(pending, cache, offset, rest, sent);
        sent := sent + [Result(rest[offset], answer)];
        rest := SwapRemove(rest, offset);
      } else {
        PassMiss(pending, cache, offset, rest, sent);
      }
    }
    assert pending[0..] == pending;
  }

  /** All plot caches so far, with `rest` still unanswered. */
  ghost predicate Searched(pending: seq<PieceIndex>, caches: seq<PlotCache>, rest: seq<PieceIndex>, sent: seq<Result>) {
    && Split(pending, rest, sent)
    && (forall p | p in rest :: First(caches, p).None?)
    && (forall r | r in sent :: r.piece.Some? && r.piece == First(caches, r.index))
  }

  lemma PassSplits(rest: seq<PieceIndex>, cache: PlotCache, rest': seq<PieceIndex>, found: seq<Result>)
    requires PassedTo(rest, cache, 0, rest', found)
    ensures Split(rest, rest', found)
    ensures forall p | p in rest' :: p in rest && cache(p).None?
    ensures forall r | r in found :: r.index in rest
  {
    assert rest'[0..] == rest' && rest[0..] == rest;
    forall p | p in rest' ensures p in rest {
      assert multiset(rest')[p] > 0 && multiset(rest)[p] > 0;
    }
    forall r | r in found ensures r.index in rest {
      TimesPositive(found, r);
      assert multiset(rest)[r.index] > 0;
    }
  }

  lemma SplitTwice(pending: seq<PieceIndex>, rest: seq<PieceIndex>, sent: seq<Result>, rest': seq<PieceIndex>, found: seq<Result>)
    requires Split(pending, rest, sent) && Split(rest, rest', found)
    ensures Split(pending, rest', sent + found)
  {
    forall p ensures multiset(rest')[p] + Times(sent + found, p) == multiset(pending)[p] {
      TimesConcat(sent, found, p);
    }
  }

  lemma SearchedNext(pending: seq<PieceIndex>, caches: seq<PlotCache>, n: nat, rest: seq<PieceIndex>, sent: seq<Result>,
                     rest': seq<PieceIndex>, found: seq<Result>)
    requires n < |caches| && Searched(pending, caches[..n], rest, sent) && PassedTo(rest, caches[n], 0, rest', found)
    ensures Searched(pending, caches[..n + 1], rest', sent + found)
  {
    assert caches[..n + 1][..n] == caches[..n];
    PassSplits(rest, caches[n], rest', found);
    SplitTwice(pending, rest, sent, rest', found);
  }

  lemma {:induction false} FirstIsFinal(caches: seq<PlotCache>, n: nat, p: PieceIndex)
    requires n <= |caches| && First(caches[..n], p).Some?
    ensures First(caches, p) == First(caches[..n], p)
    decreases |caches|
  {
    if n == |caches| {
      assert caches[..n] == caches;
    } else {
      var init := caches[..|caches| - 1];
      assert init[..n] == caches[..n];
      FirstIsFinal(init, n, p);
    }
  }

  /** Every pending entry gets one result: the piece from the first plot cache that has it, or none. */
  method ReadFromPlots(pending: seq<PieceIndex>, caches: seq<PlotCache>) returns (sent: seq<Result>)
    ensures forall p :: Times(sent, p) == multiset(pending)[p]
    ensures forall r | r in sent :: r.piece == First(caches, r.index)
  {
    var rest: seq<PieceIndex> := pending;
    sent := [];
    for n := 0 to |caches|
      invariant Searched(pending, caches[..n], rest, sent)
    {
      var rest', found, _ := ReadPass(rest, caches[n]);
      SearchedNext(pending, caches, n, rest, sent, rest', found);
      rest, sent := rest', sent + found;
      if rest == [] {
        forall r | r in sent ensures r.piece == First(caches, r.index) { FirstIsFinal(caches, n + 1, r.index); }
        return;
      }
    }
    assert caches[..|caches|] == caches;
    var misses := SendNone(rest);
    SplitTwice(pending, rest, sent, [], misses);
    forall r | r in misses ensures r.piece == First(caches, r.index) {
      TimesPositive(misses, r);
      assert multiset(rest)[r.index] > 0;
    }
    sent := sent + misses;
  }

  method SendNone(rest: seq<PieceIndex>) returns (sent: seq<Result>)
    ensures forall p :: Times(sent, p) == multiset(rest)[p]
    ensures forall r | r in sent :: r.piece.None?
  {
    sent := [];
    for i := 0 to |rest|
      invariant forall p :: Times(sent, p) == multiset(rest[..i])[p]
      invariant forall r | r in sent :: r.piece.None?
    {
      assert rest[..i + 1] == rest[..i] + [rest[i]];
      TimesAppend(sent, Result(rest[i], None));
      sent := sent + [Result(rest[i], None)];
    }
    assert rest[..|rest|] == rest;
  }

  // ---------- all readers together ----------

  /** `out` is what the receiver may see when the readers send concurrently. */
  ghost predicate Interleaves(tasks: seq<seq<Result>>, out: seq<Result>)
    decreases |out|
  {
    if out == [] then forall i | 0 <= i < |tasks| :: tasks[i] == []
    else
      exists i | 0 <= i < |tasks| ::
        tasks[i] != [] && tasks[i][0] == out[0] && Interleaves(tasks[i := tasks[i][1..]], out[1..])
  }

  function Total(tasks: seq<seq<Result>>, p: PieceIndex): nat {
    if tasks == [] then 0 else Times(tasks[0], p) + Total(tasks[1..], p)
  }

  lemma {:induction false} TotalAppend(tasks: seq<seq<Result>>, task: seq<Result>, p: PieceIndex)
    ensures Total(tasks + [task], p) == Total(tasks, p) + Times(task, p)
  {
    if tasks == [] {
      assert tasks + [task] == [task];
    } else {
      TotalAppend(tasks[1..], task, p);
      assert (tasks + [task])[1..] == tasks[1..] + [task];
    }
  }

  lemma {:induction false} TotalUpdate(tasks: seq<seq<Result>>, i: nat, task: seq<Result>, p: PieceIndex)
    requires i < |tasks|
    ensures Total(tasks[i := task], p) + Times(tasks[i], p) == Total(tasks, p) + Times(task, p)
  {
    if i == 0 {
      assert tasks[0 := task][1..] == tasks[1..];
    } else {
      TotalUpdate(tasks[1..], i - 1, task, p);
      assert tasks[i := task][1..] == tasks[1..][i - 1 := task];
    }
  }

  lemma {:induction false} TotalNothing(tasks: seq<seq<Result>>, p: PieceIndex)
    requires forall i | 0 <= i < |tasks| :: tasks[i] == []
    ensures Total(tasks, p) == 0
  {
    if tasks != [] { TotalNothing(tasks[1..], p); }
  }

  /** No interleaving loses or repeats a result. */
  lemma {:induction false} InterleavingKeeps(tasks: seq<seq<Result>>, out: seq<Result>, p: PieceIndex)
    requires Interleaves(tasks, out)
    ensures Times(out, p) == Total(tasks, p)
    decreases |out|
  {
    if out == [] {
      TotalNothing(tasks, p);
    } else {
      var i :| 0 <= i < |tasks| && tasks[i] != [] && tasks[i][0] == out[0]
               && Interleaves(tasks[i := tasks[i][1..]], out[1..]);
      InterleavingKeeps(tasks[i := tasks[i][1..]], out[1..], p);
      TotalUpdate(tasks, i, tasks[i][1..], p);
    }
  }

  lemma {:induction false} InterleavingFrom(tasks: seq<seq<Result>>, out: seq<Result>, r: Result) returns (i: nat)
    requires Interleaves(tasks, out) && r in out
    ensures i < |tasks| && r in tasks[i]
    decreases |out|
  {
    i :| 0 <= i < |tasks| && tasks[i] != [] && tasks[i][0] == out[0]
         && Interleaves(tasks[i := tasks[i][1..]], out[1..]);
    if r != out[0] {
      var j := InterleavingFrom(tasks[i := tasks[i][1..]], out[1..], r);
      assert r in tasks[j];
      i := j;
    }
  }

  /** The stream of a piece cache has the piece. */
  ghost predicate StreamHas(response: Response, p: PieceIndex, x: Piece) {
    response.Stream? && exists e | e in response.events :: e.Found? && e.index == p && e.piece == x
  }

  /** A piece that a piece cache stores is answered exactly as the stream of that cache has it; one that
      none stores is what the first plot cache that has it gives, or missing if none does. */
  ghost predicate RightAnswer(stored: map<PieceIndex, Place>, backends: set<CacheIndex>,
                              responses: CacheIndex -> Response, plots: seq<PlotCache>, r: Result) {
    if InCache(stored, backends, r.index) then
      forall x: Piece :: r.piece == Some(x) <==> StreamHas(responses(stored[r.index].cache), r.index, x)
    else r.piece == First(plots, r.index)
  }

  /** A backend answers requested offsets at most once, with the piece that is stored there. */
  ghost predicate Truthful(indices: seq<PieceIndex>, stored: map<PieceIndex, Place>, c: CacheIndex, response: Response) {
    response.Stream? ==>
      forall i | 0 <= i < |response.events| && response.events[i].Found? ::
        var e := response.events[i];
        && e.index in indices && e.index in stored && stored[e.index] == Place(c, e.offset)
        && Unanswered(response.events[..i], e.offset)
  }

  lemma GroupIsAnswerable(indices: seq<PieceIndex>, stored: map<PieceIndex, Place>, backends: set<CacheIndex>, groups: Groups,
                          c: CacheIndex, response: Response)
    requires Grouped(stored, backends, indices, groups) && c in groups && Truthful(indices, stored, c, response)
    ensures Injective(groups[c])
    ensures response.Stream? ==> WellBehaved(groups[c], response.events)
  {
    var group := groups[c];
    forall a, b | a in group && b in group && group[a] == group[b] ensures a == b {
      assert Holds(groups, c, a, group[a]) && Holds(groups, c, b, group[b]);
    }
    if response.Stream? {
      var events := response.events;
      forall i | 0 <= i < |events| && events[i].Found?
        ensures events[i].offset in group && group[events[i].offset] == events[i].index
        ensures Unanswered(events[..i], events[i].offset)
      {
        assert Holds(groups, c, events[i].offset, events[i].index);
      }
    }
  }

  /** The share of the piece caches in `done`. */
  function CachedIn(indices: seq<PieceIndex>, stored: map<PieceIndex, Place>, backends: set<CacheIndex>,
                    done: set<CacheIndex>, p: PieceIndex): nat {
    if p in indices && InCache(stored, backends, p) && stored[p].cache in done then 1 else 0
  }

  lemma GroupHas(indices: seq<PieceIndex>, stored: map<PieceIndex, Place>, backends: set<CacheIndex>, groups: Groups,
                 c: CacheIndex, p: PieceIndex)
    requires Grouped(stored, backends, indices, groups) && c in groups
    ensures Has(groups[c], p) == CachedIn(indices, stored, backends, {c}, p)
  {
    if p in groups[c].Values {
      var o :| o in groups[c] && groups[c][o] == p;
      assert Holds(groups, c, o, p);
    } else if p in indices && InCache(stored, backends, p) {
      assert Holds(groups, stored[p].cache, stored[p].offset, p);
    }
  }

  lemma AllCached(indices: seq<PieceIndex>, stored: map<PieceIndex, Place>, backends: set<CacheIndex>, groups: Groups, p: PieceIndex)
    requires Grouped(stored, backends, indices, groups)
    ensures CachedIn(indices, stored, backends, groups.Keys, p)
            == if p in indices && InCache(stored, backends, p) then 1 else 0
  {
    if p in indices && InCache(stored, backends, p) {
      assert Holds(groups, stored[p].cache, stored[p].offset, p);
    }
  }

  lemma {:induction false} NotInCacheTimes(stored: map<PieceIndex, Place>, backends: set<CacheIndex>, indices: seq<PieceIndex>, p: PieceIndex)
    ensures multiset(NotInCache(stored, backends, indices))[p]
            == if InCache(stored, backends, p) then 0 else multiset(indices)[p]
  {
    if indices != [] {
      var n := |indices| - 1;
      NotInCacheTimes(stored, backends, indices[..n], p);
      assert indices == indices[..n] + [indices[n]];
    }
  }

  /** Once for a piece in a piece cache, otherwise once per request. */
  function Expected(indices: seq<PieceIndex>, stored: map<PieceIndex, Place>, backends: set<CacheIndex>, p: PieceIndex): nat {
    if p in indices && InCache(stored, backends, p) then 1 else multiset(indices)[p]
  }

  /** Every result so far is right. */
  ghost predicate AllRight(stored: map<PieceIndex, Place>, backends: set<CacheIndex>,
                           responses: CacheIndex -> Response, plots: seq<PlotCache>, tasks: seq<seq<Result>>) {
    forall k, r | 0 <= k < |tasks| && r in tasks[k] :: RightAnswer(stored, backends, responses, plots, r)
  }

  lemma {:induction false} OnlyResult(sent: seq<Result>, r: Result, q: Result)
    requires r in sent && q in sent && r.index == q.index && Times(sent, r.index) <= 1
    ensures r == q
  {
    if r != sent[0] && q != sent[0] {
      OnlyResult(sent[1..], r, q);
    } else if r != q {
      TimesPositive(sent[1..], if r == sent[0] then q else r);
    }
  }

  /** A result agrees with the stream when found pieces are all sent and no index is answered twice. */
  lemma AnswersAsStreamed(sent: seq<Result>, response: Response, r: Result)
    requires r in sent && Times(sent, r.index) <= 1
    requires r.piece.Some? ==> response.Stream? && FromStream(response.events, r)
    requires response.Stream? ==> forall e | e in response.events && e.Found? :: Result(e.index, Some(e.piece)) in sent
    ensures forall x: Piece :: r.piece == Some(x) <==> StreamHas(response, r.index, x)
  {
    forall x: Piece | StreamHas(response, r.index, x) ensures r.piece == Some(x) {
      var e :| e in response.events && e.Found? && e.index == r.index && e.piece == x;
      OnlyResult(sent, r, Result(e.index, Some(e.piece)));
    }
  }

  lemma CacheTask(indices: seq<PieceIndex>, stored: map<PieceIndex, Place>, backends: set<CacheIndex>,
                  groups: Groups, done: set<CacheIndex>, tasks: seq<seq<Result>>, c: CacheIndex, sent: seq<Result>)
    requires Grouped(stored, backends, indices, groups) && c in groups && c !in done
    requires forall p :: Total(tasks, p) == CachedIn(indices, stored, backends, done, p)
    requires forall p :: Times(sent, p) == Has(groups[c], p)
    ensures forall p :: Total(tasks + [sent], p) == CachedIn(indices, stored, backends, done + {c}, p)
    ensures forall r | r in sent :: InCache(stored, backends, r.index) && stored[r.index].cache == c
  {
    forall p ensures Total(tasks + [sent], p) == CachedIn(indices, stored, backends, done + {c}, p) {
      TotalAppend(tasks, sent, p);
      GroupHas(indices, stored, backends, groups, c, p);
    }
    forall r | r in sent ensures InCache(stored, backends, r.index) && stored[r.index].cache == c {
      TimesPositive(sent, r);
      GroupHas(indices, stored, backends, groups, c, r.index);
    }
  }

  /** One task per piece cache, in any order. */
  method ReadPieceCaches(indices: seq<PieceIndex>, stored: map<PieceIndex, Place>, backends: set<CacheIndex>,
                         responses: CacheIndex -> Response, ghost plots: seq<PlotCache>, groups: Groups)
    returns (tasks: seq<seq<Result>>)
    requires Grouped(stored, backends, indices, groups)
    requires forall c | c in backends :: Truthful(indices, stored, c, responses(c))
    ensures forall p :: Total(tasks, p) == CachedIn(indices, stored, backends, groups.Keys, p)
    ensures AllRight(stored, backends, responses, plots, tasks)
  {
    tasks := [];
    var todo := groups.Keys;
    while todo != {}
      invariant todo <= groups.Keys && AllRight(stored, backends, responses, plots, tasks)
      invariant forall p :: Total(tasks, p) == CachedIn(indices, stored, backends, groups.Keys - todo, p)
      decreases |todo|
    {
      var c :| c in todo;
      GroupIsAnswerable(indices, stored, backends, groups, c, responses(c));
      var sent := ReadFromCache(groups[c], responses(c));
      CacheTask(indices, stored, backends, groups, groups.Keys - todo, tasks, c, sent);
      forall r | r in sent ensures RightAnswer(stored, backends, responses, plots, r) {
        AnswersAsStreamed(sent, responses(c), r);
      }
      assert groups.Keys - todo + {c} == groups.Keys - (todo - {c});
      tasks, todo := tasks + [sent], todo - {c};
    }
    assert groups.Keys - todo == groups.Keys;
  }

  lemma PlotTask(indices: seq<PieceIndex>, stored: map<PieceIndex, Place>, backends: set<CacheIndex>,
                 groups: Groups, tasks: seq<seq<Result>>, sent: seq<Result>)
    requires Grouped(stored, backends, indices, groups)
    requires forall p :: Total(tasks, p) == CachedIn(indices, stored, backends, groups.Keys, p)
    requires forall p :: Times(sent, p) == multiset(NotInCache(stored, backends, indices))[p]
    ensures forall p :: Total(tasks + [sent], p) == Expected(indices, stored, backends, p)
    ensures forall r | r in sent :: !InCache(stored, backends, r.index)
  {
    forall p ensures Total(tasks + [sent], p) == Expected(indices, stored, backends, p) {
      TotalAppend(tasks, sent, p);
      NotInCacheTimes(stored, backends, indices, p);
      AllCached(indices, stored, backends, groups, p);
    }
    forall r | r in sent ensures !InCache(stored, backends, r.index) {
      TimesPositive(sent, r);
      NotInCacheTimes(stored, backends, indices, r.index);
    }
  }

  /** What the concurrent readers send: under every interleaving and whatever the backends fail to
      answer, each piece gets as many results as expected, and they are right. */
  method GetPieces(indices: seq<PieceIndex>, stored: map<PieceIndex, Place>, backends: set<CacheIndex>,
                   responses: CacheIndex -> Response, plots: seq<PlotCache>)
    returns (tasks: seq<seq<Result>>)
    requires OneToOne(stored) && forall c | c in backends :: Truthful(indices, stored, c, responses(c))
    ensures forall out, p | Interleaves(tasks, out) :: Times(out, p) == Expected(indices, stored, backends, p)
    ensures forall out, r | Interleaves(tasks, out) && r in out :: RightAnswer(stored, backends, responses, plots, r)
  {
    var groups, plot := Group(indices, stored, backends);
    tasks := ReadPieceCaches(indices, stored, backends, responses, plots, groups);
    var sent := ReadFromPlots(plot, plots);
    PlotTask(indices, stored, backends, groups, tasks, sent);
    tasks := tasks + [sent];
    forall out, r | Interleaves(tasks, out) && r in out ensures RightAnswer(stored, backends, responses, plots, r) {
      var i := InterleavingFrom(tasks, out, r);
    }
    forall out, p | Interleaves(tasks, out) ensures Times(out, p) == Expected(indices, stored, backends, p) {
      InterleavingKeeps(tasks, out, p);
    }
  }

  // ---------- one result per unique index ----------

  function Indices(out: seq<Result>): seq<PieceIndex> {
    if out == [] then [] else [out[0].index] + Indices(out[1..])
  }

  lemma {:induction false} IndicesTimes(out: seq<Result>, p: PieceIndex)
    ensures |Indices(out)| == |out| && multiset(Indices(out))[p] == Times(out, p)
  {
    if out != [] { IndicesTimes(out[1..], p); }
  }

  function Unique(indices: seq<PieceIndex>): set<PieceIndex> {
    set p | p in indices
  }

  lemma LargerMultiset<T>(a: multiset<T>, b: multiset<T>)
    requires a <= b
    ensures |a| <= |b| && (|a| == |b| ==> a == b)
  {
    assert b == a + (b - a);
  }

  /** There are as many results as unique indices exactly when no index that misses the piece caches is
      requested twice. */
  lemma OneResultPerUniqueIndex(indices: seq<PieceIndex>, stored: map<PieceIndex, Place>, backends: set<CacheIndex>, out: seq<Result>)
    requires forall p :: Times(out, p) == Expected(indices, stored, backends, p)
    ensures |out| == |Unique(indices)| <==>
            (forall p | p in indices && !InCache(stored, backends, p) :: multiset(indices)[p] == 1)
  {
    var unique := Unique(indices);
    var all := multiset(Indices(out));
    forall p ensures all[p] == Expected(indices, stored, backends, p) && |Indices(out)| == |out| {
      IndicesTimes(out, p);
    }
    IndicesTimes(out, 0);
    forall p ensures multiset(unique)[p] <= all[p] {
      assert p in unique ==> p in multiset(indices);
    }
    LargerMultiset(multiset(unique), all);
    if |out| == |unique| {
      forall p | p in indices && !InCache(stored, backends, p) ensures multiset(indices)[p] == 1 {
        assert multiset(unique)[p] == all[p];
      }
    }
    if forall p | p in indices && !InCache(stored, backends, p) :: multiset(indices)[p] == 1 {
      forall p ensures all[p] == multiset(unique)[p] {
        assert p !in unique ==> multiset(indices)[p] == 0;
      }
      assert all == multiset(unique);
    }
  }

  /** A single task is received as it was sent. */
  lemma {:induction false} OneTask(task: seq<Result>)
    ensures Interleaves([task], task)
  {
    if task != [] {
      OneTask(task[1..]);
      var tasks := [task];
      assert tasks[0 := tasks[0][1..]] == [task[1..]];
      assert tasks[0] != [] && tasks[0][0] == task[0];
    }
  }

  /** A piece that no cache has, requested twice, is answered twice. */
  lemma RepeatedMissAnsweredTwice(p: PieceIndex)
    ensures var indices, out := [p, p], [Result(p, None), Result(p, None)];
            && Interleaves([out], out)
            && (forall q :: Times(out, q) == Expected(indices, map[], {}, q))
            && |out| == 2 && |Unique(indices)| == 1
  {
    var r := Result(p, None);
    var out := [r, r];
    OneTask(out);
    assert out[1..] == [r];
    forall q ensures Times(out, q) == Expected([p, p], map[], {}, q) {
      assert Times([r], q) == if q == p then 1 else 0;
    }
    assert Unique([p, p]) == {p};
  }
}
