/** Where every encoded chunk of a sector lives: found-proof bitmaps, ranks, and chunk locations. */
module PlotLayout {
  import opened Options

  /** Chunks in a record. */
  const NUM_CHUNKS: nat := 32768
  /** S-buckets in a sector: source and parity chunks of a record. */
  const NUM_S_BUCKETS: nat := 65536

  /** For one record: the s-buckets at which a proof was found. */
  type Bitmap = f: seq<bool> | |f| == NUM_S_BUCKETS witness seq(NUM_S_BUCKETS, i => false)

  /** One bitmap per piece of the sector. */
  type ContentsMap = seq<Bitmap>

  /** Rank of s-bucket `s` within a record: its set bits below `s`. */
  function Row(f: Bitmap, s: nat): nat
    requires s <= NUM_S_BUCKETS
  {
    if s == 0 then 0 else Row(f, s - 1) + if f[s - 1] then 1 else 0
  }

  /** Rank of piece `p` within s-bucket `s`: earlier pieces that use it. */
  function Col(m: ContentsMap, s: nat, p: nat): nat
    requires s < NUM_S_BUCKETS && p <= |m|
  {
    if p == 0 then 0 else Col(m, s, p - 1) + if m[p - 1][s] then 1 else 0
  }

  /** Chunks stored in the s-buckets before `s`. */
  function Off(m: ContentsMap, s: nat): nat
    requires s <= NUM_S_BUCKETS
  {
    if s == 0 then 0 else Off(m, s - 1) + Col(m, s - 1, |m|)
  }

  /** Position in the plot of the chunk of piece `p` in s-bucket `s`. */
  function Loc(m: ContentsMap, p: nat, s: nat): nat
    requires p < |m| && s < NUM_S_BUCKETS
  {
    Off(m, s) + Col(m, s, p)
  }

  predicate AtMostAllChunks(m: ContentsMap) {
    forall p | 0 <= p < |m| :: Row(m[p], NUM_S_BUCKETS) <= NUM_CHUNKS
  }

  // ---------- ranks ----------

  lemma {:induction false} RowMonotone(f: Bitmap, s: nat, t: nat)
    requires s <= t <= NUM_S_BUCKETS
    ensures Row(f, s) <= Row(f, t) <= Row(f, s) + (t - s)
    decreases t
  {
    if s < t { RowMonotone(f, s, t - 1); }
  }

  /** Set bits have distinct ranks, in order. */
  lemma RowInjective(f: Bitmap, s: nat, t: nat)
    requires s < t < NUM_S_BUCKETS && f[s]
    ensures Row(f, s) < Row(f, t)
  {
    RowMonotone(f, s + 1, t);
  }

  /** Every rank below the number of proofs belongs to an s-bucket. */
  lemma {:induction false} RowSelect(f: Bitmap, k: nat, s: nat) returns (t: nat)
    requires s <= NUM_S_BUCKETS && k < Row(f, s)
    ensures t < s && f[t] && Row(f, t) == k
  {
    if Row(f, s - 1) <= k { t := s - 1; } else { t := RowSelect(f, k, s - 1); }
  }

  lemma {:induction false} ColMonotone(m: ContentsMap, s: nat, p: nat, q: nat)
    requires s < NUM_S_BUCKETS && p <= q <= |m|
    ensures Col(m, s, p) <= Col(m, s, q) <= Col(m, s, p) + (q - p)
    decreases q
  {
    if p < q { ColMonotone(m, s, p, q - 1); }
  }

  lemma {:induction false} OffMonotone(m: ContentsMap, s: nat, t: nat)
    requires s <= t <= NUM_S_BUCKETS
    ensures Off(m, s) <= Off(m, t)
    decreases t
  {
    if s < t { OffMonotone(m, s, t - 1); }
  }

  // ---------- counting by rows and by columns ----------

  function RowSum(m: ContentsMap, s: nat, n: nat): nat
    requires s <= NUM_S_BUCKETS && n <= |m|
  {
    if n == 0 then 0 else RowSum(m, s, n - 1) + Row(m[n - 1], s)
  }

  lemma {:induction false} RowSumStep(m: ContentsMap, s: nat, n: nat)
    requires s < NUM_S_BUCKETS && n <= |m|
    ensures RowSum(m, s + 1, n) == RowSum(m, s, n) + Col(m, s, n)
  {
    if n > 0 { RowSumStep(m, s, n - 1); }
  }

  lemma {:induction false} RowSumZero(m: ContentsMap, n: nat)
    requires n <= |m|
    ensures RowSum(m, 0, n) == 0
  {
    if n > 0 { RowSumZero(m, n - 1); }
  }

  /** Counting chunks s-bucket by s-bucket or record by record gives the same number. */
  lemma {:induction false} CountedBothWays(m: ContentsMap, s: nat)
    requires s <= NUM_S_BUCKETS
    ensures Off(m, s) == RowSum(m, s, |m|)
  {
    if s == 0 {
      RowSumZero(m, |m|);
    } else {
      CountedBothWays(m, s - 1);
      RowSumStep(m, s - 1, |m|);
    }
  }

  lemma {:induction false} RowSumBounded(m: ContentsMap, n: nat)
    requires n <= |m| && AtMostAllChunks(m)
    ensures RowSum(m, NUM_S_BUCKETS, n) <= NUM_CHUNKS * n
  {
    if n > 0 { RowSumBounded(m, n - 1); }
  }

  // ---------- locations ----------

  /** A used chunk lies in the part of its s-bucket, and before the end of the chunk region. */
  lemma LocInRange(m: ContentsMap, p: nat, s: nat)
    requires p < |m| && s < NUM_S_BUCKETS && m[p][s]
    ensures Off(m, s) <= Loc(m, p, s) < Off(m, s + 1) <= Off(m, NUM_S_BUCKETS)
    ensures AtMostAllChunks(m) ==> Loc(m, p, s) < NUM_CHUNKS * |m|
  {
    ColMonotone(m, s, p + 1, |m|);
    OffMonotone(m, s + 1, NUM_S_BUCKETS);
    if AtMostAllChunks(m) {
      CountedBothWays(m, NUM_S_BUCKETS);
      RowSumBounded(m, |m|);
    }
  }

  /** Used chunks are laid out s-bucket by s-bucket, and by piece within an s-bucket. */
  lemma LocOrdered(m: ContentsMap, p: nat, s: nat, q: nat, t: nat)
    requires p < |m| && q < |m| && s < NUM_S_BUCKETS && t < NUM_S_BUCKETS
    requires m[p][s] && m[q][t]
    requires s < t || (s == t && p < q)
    ensures Loc(m, p, s) < Loc(m, q, t)
  {
    if s < t {
      LocInRange(m, p, s);
      OffMonotone(m, s + 1, t);
    } else {
      ColMonotone(m, s, p + 1, q);
    }
  }

  /** Used chunks map one-to-one to locations. */
  lemma LocInjective(m: ContentsMap, p: nat, s: nat, q: nat, t: nat)
    requires p < |m| && q < |m| && s < NUM_S_BUCKETS && t < NUM_S_BUCKETS
    requires m[p][s] && m[q][t]
    ensures Loc(m, p, s) == Loc(m, q, t) <==> p == q && s == t
  {
    if s < t || (s == t && p < q) {
      LocOrdered(m, p, s, q, t);
    } else if t < s || q < p {
      LocOrdered(m, q, t, p, s);
    }
  }

  lemma {:induction false} BucketOf(m: ContentsMap, k: nat, s: nat) returns (t: nat)
    requires s <= NUM_S_BUCKETS && k < Off(m, s)
    ensures t < s && Off(m, t) <= k < Off(m, t + 1)
  {
    if Off(m, s - 1) <= k { t := s - 1; } else { t := BucketOf(m, k, s - 1); }
  }

  /** Select: the piece of rank `k` in an s-bucket. */
  lemma {:induction false} PieceOf(m: ContentsMap, s: nat, k: nat, q: nat) returns (p: nat)
    requires s < NUM_S_BUCKETS && q <= |m| && k < Col(m, s, q)
    ensures p < q && m[p][s] && Col(m, s, p) == k
  {
    if Col(m, s, q - 1) <= k { p := q - 1; } else { p := PieceOf(m, s, k, q - 1); }
  }

  /** The locations of used chunks fill a contiguous range from zero. */
  lemma LocOnto(m: ContentsMap, k: nat) returns (p: nat, s: nat)
    requires k < Off(m, NUM_S_BUCKETS)
    ensures p < |m| && s < NUM_S_BUCKETS && m[p][s] && Loc(m, p, s) == k
  {
    s := BucketOf(m, k, NUM_S_BUCKETS);
    p := PieceOf(m, s, k - Off(m, s), |m|);
  }

  // ---------- iterators of the contents map ----------

  /** Pieces that use s-bucket `s`, among the first `n`. */
  function PieceOffsets(m: ContentsMap, s: nat, n: nat): (r: seq<nat>)
    requires s < NUM_S_BUCKETS && n <= |m|
    ensures |r| == Col(m, s, n)
  {
    if n == 0 then []
    else PieceOffsets(m, s, n - 1) + if m[n - 1][s] then [n - 1] else []
  }

  /** The offset list inverts the rank: its entry `k` is the one piece of rank `k`. */
  lemma {:induction false} PieceOffsetsSelect(m: ContentsMap, s: nat, n: nat, k: nat)
    requires s < NUM_S_BUCKETS && n <= |m| && k < Col(m, s, n)
    ensures var p := PieceOffsets(m, s, n)[k]; p < n && m[p][s] && Col(m, s, p) == k
  {
    if k < Col(m, s, n - 1) { PieceOffsetsSelect(m, s, n - 1, k); }
  }

  /** All used chunks in plot order, up to s-bucket `s`. */
  function Flat(m: ContentsMap, s: nat): (r: seq<(nat, nat)>)
    requires s <= NUM_S_BUCKETS
    ensures |r| == Off(m, s)
  {
    if s == 0 then [] else Flat(m, s - 1) + Tagged(s - 1, PieceOffsets(m, s - 1, |m|))
  }

  function Tagged(s: nat, offsets: seq<nat>): seq<(nat, nat)> {
    seq(|offsets|, i requires 0 <= i < |offsets| => (s, offsets[i]))
  }

  /** Entries among the first `n` of `flat` that belong to piece `p`, with their positions. */
  function Locate(flat: seq<(nat, nat)>, p: nat, n: nat): seq<(nat, nat)>
    requires n <= |flat|
  {
    if n == 0 then []
    else
      var rest := Locate(flat, p, n - 1);
      if flat[n - 1].1 == p then rest + [(flat[n - 1].0, n - 1)] else rest
  }

  /** `iter_record_chunk_to_plot`: the s-buckets of a piece with their plot-wide chunk locations. */
  function RecordChunkToPlot(m: ContentsMap, p: nat): seq<(nat, nat)> {
    var flat := Flat(m, NUM_S_BUCKETS);
    var all := Locate(flat, p, |flat|);
    if |all| <= NUM_CHUNKS then all else all[..NUM_CHUNKS]
  }

  /** `par_iter_record_chunk_to_plot`: the offset within each s-bucket, for one s-bucket. */
  function ChunkOffset(m: ContentsMap, p: nat, s: nat): Option<nat>
    requires p < |m| && s < NUM_S_BUCKETS
  {
    if !m[p][s] then None else Some(Col(m, s, p))
  }

  /** The parallel iterator with the s-bucket offsets added, as a list. */
  function Located(m: ContentsMap, p: nat, s: nat): (r: seq<(nat, nat)>)
    requires p < |m| && s <= NUM_S_BUCKETS
    ensures |r| == Row(m[p], s)
  {
    if s == 0 then []
    else Located(m, p, s - 1) +
         match ChunkOffset(m, p, s - 1)
         case None => []
         case Some(k) => [(s - 1, Off(m, s - 1) + k)]
  }

  /** A used chunk stands at its location. */
  lemma {:induction false} FlatAt(m: ContentsMap, p: nat, s: nat, t: nat)
    requires p < |m| && s < t <= NUM_S_BUCKETS && m[p][s]
    ensures Loc(m, p, s) < Off(m, t) && Flat(m, t)[Loc(m, p, s)] == (s, p)
  {
    ColMonotone(m, s, p + 1, |m|);
    if s == t - 1 {
      PieceOffsetsSelect(m, s, |m|, Col(m, s, p));
      LocInjective(m, p, s, PieceOffsets(m, s, |m|)[Col(m, s, p)], s);
    } else {
      FlatAt(m, p, s, t - 1);
    }
  }

  /** Every used chunk stands at its location in `flat`. */
  ghost predicate InPlotOrder(m: ContentsMap, flat: seq<(nat, nat)>) {
    && |flat| == Off(m, NUM_S_BUCKETS)
    && forall p, s | 0 <= p < |m| && 0 <= s < NUM_S_BUCKETS && m[p][s] ::
         Loc(m, p, s) < |flat| && flat[Loc(m, p, s)] == (s, p)
  }

  lemma FlatInPlotOrder(m: ContentsMap)
    ensures InPlotOrder(m, Flat(m, NUM_S_BUCKETS))
  {
    forall p, s | 0 <= p < |m| && 0 <= s < NUM_S_BUCKETS && m[p][s]
      ensures Loc(m, p, s) < Off(m, NUM_S_BUCKETS) && Flat(m, NUM_S_BUCKETS)[Loc(m, p, s)] == (s, p)
    {
      FlatAt(m, p, s, NUM_S_BUCKETS);
    }
  }

  /** What is located before s-bucket `s`, with piece `p` when it is among the first `n` of that s-bucket. */
  function LocatedTo(m: ContentsMap, p: nat, s: nat, n: nat): seq<(nat, nat)>
    requires p < |m| && s < NUM_S_BUCKETS
  {
    if p < n && m[p][s] then Located(m, p, s) + [(s, Loc(m, p, s))] else Located(m, p, s)
  }

  lemma LocatedNext(m: ContentsMap, p: nat, s: nat)
    requires p < |m| && s < NUM_S_BUCKETS
    ensures Located(m, p, s + 1) == LocatedTo(m, p, s, |m|)
  {
  }

  lemma {:induction false} LocateInBucket(m: ContentsMap, flat: seq<(nat, nat)>, p: nat, s: nat, n: nat)
    requires p < |m| && s < NUM_S_BUCKETS && n <= |m| && InPlotOrder(m, flat)
    requires Off(m, s) <= |flat| && Locate(flat, p, Off(m, s)) == Located(m, p, s)
    ensures Off(m, s) + Col(m, s, n) <= |flat|
    ensures Locate(flat, p, Off(m, s) + Col(m, s, n)) == LocatedTo(m, p, s, n)
  {
    if n > 0 {
      LocateInBucket(m, flat, p, s, n - 1);
      if m[n - 1][s] {
        assert flat[Loc(m, n - 1, s)] == (s, n - 1);
      }
    }
  }

  lemma {:induction false} LocateIsLocated(m: ContentsMap, flat: seq<(nat, nat)>, p: nat, s: nat)
    requires p < |m| && s <= NUM_S_BUCKETS && InPlotOrder(m, flat)
    ensures Off(m, s) <= |flat| && Locate(flat, p, Off(m, s)) == Located(m, p, s)
  {
    if s > 0 {
      LocateIsLocated(m, flat, p, s - 1);
      LocateInBucket(m, flat, p, s - 1, |m|);
      LocatedNext(m, p, s - 1);
    }
  }

  /** The sequential iterator equals the parallel one plus the s-bucket offsets; its early stop after
      `NUM_CHUNKS` entries loses nothing when no record has more proofs than that. */
  lemma SequentialEqualsParallel(m: ContentsMap, p: nat)
    requires p < |m|
    ensures Row(m[p], NUM_S_BUCKETS) <= NUM_CHUNKS ==>
              RecordChunkToPlot(m, p) == Located(m, p, NUM_S_BUCKETS)
    ensures Row(m[p], NUM_S_BUCKETS) > NUM_CHUNKS ==>
              RecordChunkToPlot(m, p) == Located(m, p, NUM_S_BUCKETS)[..NUM_CHUNKS]
              && RecordChunkToPlot(m, p) != Located(m, p, NUM_S_BUCKETS)
  {
    FlatInPlotOrder(m);
    LocateIsLocated(m, Flat(m, NUM_S_BUCKETS), p, NUM_S_BUCKETS);
  }

  // ---------- s-bucket sizes and offsets ----------

  const U16_MAX: nat := 65535
  const U32_LIMIT: nat := 0x1_0000_0000

  function PrefixSum(sizes: seq<nat>, n: nat): nat
    requires n <= |sizes|
  {
    if n == 0 then 0 else PrefixSum(sizes, n - 1) + sizes[n - 1]
  }

  lemma {:induction false} PrefixSumBounded(sizes: seq<nat>, n: nat)
    requires n <= |sizes| && forall s | 0 <= s < |sizes| :: sizes[s] <= U16_MAX
    ensures PrefixSum(sizes, n) <= U16_MAX * n
  {
    if n > 0 { PrefixSumBounded(sizes, n - 1); }
  }

  /** `s_bucket_sizes`; the count always fits the 16-bit size. */
  method SBucketSizes(m: ContentsMap) returns (sizes: seq<nat>)
    requires |m| <= U16_MAX
    ensures |sizes| == NUM_S_BUCKETS
    ensures forall s | 0 <= s < NUM_S_BUCKETS :: sizes[s] == Col(m, s, |m|) <= U16_MAX
  {
    sizes := [];
    for s := 0 to NUM_S_BUCKETS
      invariant |sizes| == s
      invariant forall t | 0 <= t < s :: sizes[t] == Col(m, t, |m|) <= U16_MAX
    {
      ColMonotone(m, s, 0, |m|);
      sizes := sizes + [|PieceOffsets(m, s, |m|)|];
    }
  }

  /** `s_bucket_offsets`: running 32-bit sums, which no 16-bit sizes can overflow. */
  method SBucketOffsets(sizes: seq<nat>) returns (offsets: seq<nat>)
    requires |sizes| == NUM_S_BUCKETS && forall s | 0 <= s < |sizes| :: sizes[s] <= U16_MAX
    ensures |offsets| == NUM_S_BUCKETS
    ensures forall s | 0 <= s < NUM_S_BUCKETS :: offsets[s] == PrefixSum(sizes, s) < U32_LIMIT
  {
    offsets := [];
    var baseOffset := 0;
    for s := 0 to NUM_S_BUCKETS
      invariant |offsets| == s && baseOffset == PrefixSum(sizes, s)
      invariant forall t | 0 <= t < s :: offsets[t] == PrefixSum(sizes, t) < U32_LIMIT
    {
      offsets := offsets + [baseOffset];
      PrefixSumBounded(sizes, s);
      PrefixSumBounded(sizes, s + 1);
      assert baseOffset + sizes[s] < U32_LIMIT;
      baseOffset := baseOffset + sizes[s];
    }
  }

  /** Offsets computed from the stored sizes are the plot-wide offsets of the s-buckets. */
  lemma {:induction false} OffsetsFromSizes(m: ContentsMap, sizes: seq<nat>, s: nat)
    requires |sizes| == NUM_S_BUCKETS && s <= NUM_S_BUCKETS
    requires forall t | 0 <= t < NUM_S_BUCKETS :: sizes[t] == Col(m, t, |m|)
    ensures PrefixSum(sizes, s) == Off(m, s)
  {
    if s > 0 { OffsetsFromSizes(m, sizes, s - 1); }
  }
}
