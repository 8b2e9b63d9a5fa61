/** The sector on disk: writing it, reading pieces back, auditing and proving. */
module PlotSector {
  import opened PlotLayout
  import opened PlotEncoding

  const HASH_SIZE: nat := 32
  const HEADER_SIZE: nat := 984
  /** Piece header and checksum of the whole piece. */
  const METADATA_SIZE: nat := 1016
  const RECORD_SIZE: nat := 1048576

  type Hash = h: seq<Byte> | |h| == HASH_SIZE witness seq(HASH_SIZE, i => 0)
  type Header = h: seq<Byte> | |h| == HEADER_SIZE witness seq(HEADER_SIZE, i => 0)
  type Metadata = m: seq<Byte> | |m| == METADATA_SIZE witness seq(METADATA_SIZE, i => 0)

  function MapSize(pieces: nat): nat { BITMAP_SIZE * pieces + HASH_SIZE }
  function ChunksSize(pieces: nat): nat { RECORD_SIZE * pieces }
  function SectorSize(pieces: nat): nat {
    ChunksSize(pieces) + METADATA_SIZE * pieces + MapSize(pieces) + HASH_SIZE
  }

  function Bitmaps(m: seq<FoundProofs>): (r: ContentsMap)
    ensures |r| == |m| && forall p | 0 <= p < |m| :: r[p] == Bits(m[p])
  {
    seq(|m|, p requires 0 <= p < |m| => Bits(m[p]))
  }

  // ---------- the contents map as bytes ----------

  function Flatten(m: seq<FoundProofs>): (r: seq<Byte>)
    ensures |r| == BITMAP_SIZE * |m|
  {
    if m == [] then [] else Flatten(m[..|m| - 1]) + m[|m| - 1]
  }

  /** `encode_into`: bitmaps and their checksum. */
  function EncodeMap(m: seq<FoundProofs>, hash: seq<Byte> -> Hash): (r: seq<Byte>)
    ensures |r| == MapSize(|m|)
  {
    Flatten(m) + hash(Flatten(m))
  }

  datatype Result<+T> = Ok(value: T) | Err(error: Error)
  datatype Error = InvalidBytesLength | ChecksumMismatch | Io | ErasureDecode

  /** `from_bytes`. */
  function DecodeMap(bytes: seq<Byte>, pieces: nat, hash: seq<Byte> -> Hash): Result<seq<FoundProofs>> {
    if |bytes| != MapSize(pieces) then Err(InvalidBytesLength)
    else
      var (flat, checksum) := (bytes[..BITMAP_SIZE * pieces], bytes[BITMAP_SIZE * pieces..]);
      if hash(flat) != checksum then Err(ChecksumMismatch)
      else Ok(seq(pieces, p requires 0 <= p < pieces => flat[BITMAP_SIZE * p..BITMAP_SIZE * (p + 1)]))
  }

  lemma {:induction false} FlattenSlice(m: seq<FoundProofs>, p: nat)
    requires p < |m|
    ensures Flatten(m)[BITMAP_SIZE * p..BITMAP_SIZE * (p + 1)] == m[p]
  {
    var last := |m| - 1;
    if p < last {
      FlattenSlice(m[..last], p);
      var front := Flatten(m[..last]);
      assert Flatten(m)[..|front|] == front;
      assert Flatten(m)[BITMAP_SIZE * p..BITMAP_SIZE * (p + 1)] == front[BITMAP_SIZE * p..BITMAP_SIZE * (p + 1)];
    }
  }

  /** The map decodes back to itself, for any checksum function. */
  lemma MapRoundTrip(m: seq<FoundProofs>, hash: seq<Byte> -> Hash)
    ensures DecodeMap(EncodeMap(m, hash), |m|, hash) == Ok(m)
  {
    var bytes := EncodeMap(m, hash);
    assert bytes[..BITMAP_SIZE * |m|] == Flatten(m);
    assert bytes[BITMAP_SIZE * |m|..] == hash(Flatten(m));
    forall p | 0 <= p < |m| ensures DecodeMap(bytes, |m|, hash).value[p] == m[p] {
      FlattenSlice(m, p);
    }
    assert DecodeMap(bytes, |m|, hash).value == m;
  }

  lemma {:induction false} FlattenSlices(flat: seq<Byte>, n: nat)
    requires |flat| == BITMAP_SIZE * n
    ensures Flatten(seq(n, p requires 0 <= p < n => flat[BITMAP_SIZE * p..BITMAP_SIZE * (p + 1)])) == flat
  {
    var slices: seq<FoundProofs> := seq(n, p requires 0 <= p < n => flat[BITMAP_SIZE * p..BITMAP_SIZE * (p + 1)]);
    if n > 0 {
      var front := flat[..BITMAP_SIZE * (n - 1)];
      FlattenSlices(front, n - 1);
      forall p | 0 <= p < n - 1
        ensures slices[p] == front[BITMAP_SIZE * p..BITMAP_SIZE * (p + 1)]
      {
        assert BITMAP_SIZE * (p + 1) <= BITMAP_SIZE * (n - 1);
      }
      assert slices[..n - 1] == seq(n - 1, p requires 0 <= p < n - 1 => front[BITMAP_SIZE * p..BITMAP_SIZE * (p + 1)]);
      assert flat == front + flat[BITMAP_SIZE * (n - 1)..BITMAP_SIZE * n];
    }
  }

  /** Only the encoding of a map decodes to it: anything else is refused, for its length or its checksum. */
  lemma DecodesExactly(bytes: seq<Byte>, n: nat, m: seq<FoundProofs>, hash: seq<Byte> -> Hash)
    ensures DecodeMap(bytes, n, hash) == Ok(m) <==> |m| == n && bytes == EncodeMap(m, hash)
    ensures DecodeMap(bytes, n, hash) == Err(InvalidBytesLength) <==> |bytes| != BITMAP_SIZE * n + HASH_SIZE
    ensures |bytes| == BITMAP_SIZE * n + HASH_SIZE && hash(bytes[..BITMAP_SIZE * n]) != bytes[BITMAP_SIZE * n..] ==>
              DecodeMap(bytes, n, hash) == Err(ChecksumMismatch)
  {
    if |m| == n { MapRoundTrip(m, hash); }
    if DecodeMap(bytes, n, hash) == Ok(m) {
      var flat := bytes[..BITMAP_SIZE * n];
      FlattenSlices(flat, n);
      assert bytes == flat + bytes[BITMAP_SIZE * n..];
    }
  }

  // ---------- writing ----------

  /** Byte position of chunk `k` of the s-bucket region. */
  function ChunkPos(pieces: nat, k: nat): nat { MapSize(pieces) + CHUNK_SIZE * k }

  function MetadataPos(pieces: nat, p: nat): nat { MapSize(pieces) + ChunksSize(pieces) + METADATA_SIZE * p }

  /** Chunks below location `n` hold the record chunks of their rank. */
  predicate ChunksBelow(sector: seq<Byte>, used: ContentsMap, records: seq<Record>, n: nat)
    requires |records| == |used| && AtMostAllChunks(used)
  {
    && |sector| == SectorSize(|used|)
    && forall p, s | 0 <= p < |used| && 0 <= s < NUM_S_BUCKETS && used[p][s] && Loc(used, p, s) < n ::
         Holds(sector, used, records, p, s)
  }

  predicate Holds(sector: seq<Byte>, used: ContentsMap, records: seq<Record>, p: nat, s: nat)
    requires |records| == |used| && p < |used| && s < NUM_S_BUCKETS
  {
    && ChunkPos(|used|, Loc(used, p, s)) + CHUNK_SIZE <= |sector|
    && Row(used[p], s) < NUM_CHUNKS
    && sector[ChunkPos(|used|, Loc(used, p, s))..][..CHUNK_SIZE] == records[p][Row(used[p], s)]
  }

  predicate MetadataBelow(sector: seq<Byte>, metadata: seq<Metadata>, n: nat) {
    && |sector| == SectorSize(|metadata|)
    && forall p | 0 <= p < |metadata| && p < n ::
         sector[MetadataPos(|metadata|, p)..][..METADATA_SIZE] == metadata[p]
  }

  /** A written sector: contents map, chunks by s-bucket, record metadata, checksum. */
  predicate Written(sector: seq<Byte>, m: seq<FoundProofs>, records: seq<Record>, metadata: seq<Metadata>,
                    hash: seq<Byte> -> Hash)
    requires |m| == |records| == |metadata| && AtMostAllChunks(Bitmaps(m))
  {
    && |sector| == SectorSize(|m|)
    && sector[..MapSize(|m|)] == EncodeMap(m, hash)
    && ChunksBelow(sector, Bitmaps(m), records, NUM_CHUNKS * |m|)
    && MetadataBelow(sector, metadata, |m|)
    && sector[SectorSize(|m|) - HASH_SIZE..] == hash(sector[..SectorSize(|m|) - HASH_SIZE])
  }

  method CopyInto(output: array<Byte>, at: nat, bytes: seq<Byte>)
    requires at + |bytes| <= output.Length
    modifies output
    ensures output[..] == old(output[..at]) + bytes + old(output[at + |bytes|..])
  {
    for i := 0 to |bytes|
      invariant output[..] == old(output[..at]) + bytes[..i] + old(output[at + i..])
    {
      output[at + i] := bytes[i];
    }
  }

  /** Overwriting one chunk leaves chunks at other locations alone. */
  lemma OtherChunk(before: seq<Byte>, after: seq<Byte>, pieces: nat, k: nat, chunk: Chunk, j: nat)
    requires j != k && ChunkPos(pieces, j) + CHUNK_SIZE <= |before| && ChunkPos(pieces, k) + CHUNK_SIZE <= |before|
    requires after == before[..ChunkPos(pieces, k)] + chunk + before[ChunkPos(pieces, k) + CHUNK_SIZE..]
    ensures after[ChunkPos(pieces, j)..][..CHUNK_SIZE] == before[ChunkPos(pieces, j)..][..CHUNK_SIZE]
  {
    var a, b := ChunkPos(pieces, j), ChunkPos(pieces, k);
    assert forall i | a <= i < a + CHUNK_SIZE :: after[i] == before[i];
  }

  /** Writing the chunk of a used s-bucket at its location completes that location. */
  lemma ChunkWritten(before: seq<Byte>, after: seq<Byte>, used: ContentsMap, records: seq<Record>, p: nat, s: nat)
    requires |records| == |used| && AtMostAllChunks(used) && p < |used| && s < NUM_S_BUCKETS && used[p][s]
    requires Row(used[p], s) < NUM_CHUNKS && ChunksBelow(before, used, records, Loc(used, p, s))
    requires ChunkPos(|used|, Loc(used, p, s)) + CHUNK_SIZE <= |before|
    requires after == before[..ChunkPos(|used|, Loc(used, p, s))] + records[p][Row(used[p], s)]
                      + before[ChunkPos(|used|, Loc(used, p, s)) + CHUNK_SIZE..]
    ensures ChunksBelow(after, used, records, Loc(used, p, s) + 1)
  {
    var k := Loc(used, p, s);
    forall q, t | 0 <= q < |used| && 0 <= t < NUM_S_BUCKETS && used[q][t] && Loc(used, q, t) < k + 1
      ensures Holds(after, used, records, q, t)
    {
      LocInjective(used, q, t, p, s);
      if Loc(used, q, t) < k {
        assert Holds(before, used, records, q, t);
        OtherChunk(before, after, |used|, k, records[p][Row(used[p], s)], Loc(used, q, t));
      }
    }
  }

  /** There is room for every used chunk in the s-bucket region, and a chunk of that rank to copy. */
  lemma ChunkFits(used: ContentsMap, p: nat, s: nat)
    requires AtMostAllChunks(used) && p < |used| && s < NUM_S_BUCKETS && used[p][s]
    ensures Row(used[p], s) < NUM_CHUNKS
    ensures ChunkPos(|used|, Loc(used, p, s)) + CHUNK_SIZE <= MapSize(|used|) + ChunksSize(|used|)
  {
    LocInRange(used, p, s);
    RowMonotone(used[p], s + 1, NUM_S_BUCKETS);
  }

  /** Chunks taken so far from each record, when s-bucket `s` has been handled for the pieces below `p`. */
  predicate Counting(next: seq<nat>, used: ContentsMap, s: nat, p: nat)
    requires s < NUM_S_BUCKETS
  {
    |next| == |used| && forall q | 0 <= q < |used| :: next[q] == Row(used[q], if q < p then s + 1 else s)
  }

  /** State of the writer before s-bucket `s`, piece `p`. */
  predicate Writing(sector: seq<Byte>, next: seq<nat>, position: nat, used: ContentsMap, records: seq<Record>, s: nat, p: nat)
    requires |records| == |used| && AtMostAllChunks(used) && s < NUM_S_BUCKETS && p <= |used|
  {
    && Counting(next, used, s, p)
    && position == Off(used, s) + Col(used, s, p)
    && ChunksBelow(sector, used, records, position)
  }

  /** Copy the next chunk of piece `p` to the next position. */
  method WriteChunk(used: ContentsMap, records: seq<Record>, output: array<Byte>, nextChunk: array<nat>, position: nat,
                    s: nat, p: nat)
    requires |records| == |used| && AtMostAllChunks(used) && s < NUM_S_BUCKETS && p < |used| && used[p][s]
    requires Writing(output[..], nextChunk[..], position, used, records, s, p)
    modifies output, nextChunk
    ensures Writing(output[..], nextChunk[..], position + 1, used, records, s, p + 1)
    ensures output[..MapSize(|used|)] == old(output[..MapSize(|used|)])
  {
    ChunkFits(used, p, s);
    ghost var before := output[..];
    CopyInto(output, ChunkPos(|used|, position), records[p][nextChunk[p]]);
    ChunkWritten(before, output[..], used, records, p, s);
    nextChunk[p] := nextChunk[p] + 1;
  }

  /** Write record chunks, one s-bucket at a time, each piece contributing its next encoded chunk. */
  method WriteChunks(used: ContentsMap, records: seq<Record>, output: array<Byte>)
    requires |records| == |used| && AtMostAllChunks(used) && output.Length == SectorSize(|used|)
    modifies output
    ensures ChunksBelow(output[..], used, records, NUM_CHUNKS * |used|)
    ensures output[..MapSize(|used|)] == old(output[..MapSize(|used|)])
  {
    var pieces := |used|;
    var nextChunk := new nat[pieces](i => 0);
    var position := 0;
    for s := 0 to NUM_S_BUCKETS
      invariant fresh(nextChunk) && nextChunk.Length == pieces
      invariant s < NUM_S_BUCKETS ==> Writing(output[..], nextChunk[..], position, used, records, s, 0)
      invariant s == NUM_S_BUCKETS ==>
                  position == Off(used, s) && ChunksBelow(output[..], used, records, position)
      invariant output[..MapSize(pieces)] == old(output[..MapSize(pieces)])
    {
      for p := 0 to pieces
        invariant Writing(output[..], nextChunk[..], position, used, records, s, p)
        invariant output[..MapSize(pieces)] == old(output[..MapSize(pieces)])
      {
        if used[p][s] {
          WriteChunk(used, records, output, nextChunk, position, s, p);
          position := position + 1;
        } else {
          SkipPiece(output[..], nextChunk[..], position, used, records, s, p);
        }
      }
      NextSBucket(output[..], nextChunk[..], position, used, records, s);
    }
    AllChunksBelow(output[..], used, records, position);
  }

  lemma SkipPiece(sector: seq<Byte>, next: seq<nat>, position: nat, used: ContentsMap, records: seq<Record>, s: nat, p: nat)
    requires |records| == |used| && AtMostAllChunks(used) && s < NUM_S_BUCKETS && p < |used| && !used[p][s]
    requires Writing(sector, next, position, used, records, s, p)
    ensures Writing(sector, next, position, used, records, s, p + 1)
  {
  }

  lemma NextSBucket(sector: seq<Byte>, next: seq<nat>, position: nat, used: ContentsMap, records: seq<Record>, s: nat)
    requires |records| == |used| && AtMostAllChunks(used) && s < NUM_S_BUCKETS
    requires Writing(sector, next, position, used, records, s, |used|)
    ensures position == Off(used, s + 1) && ChunksBelow(sector, used, records, position)
    ensures s + 1 < NUM_S_BUCKETS ==> Writing(sector, next, position, used, records, s + 1, 0)
  {
  }

  lemma AllChunksBelow(sector: seq<Byte>, used: ContentsMap, records: seq<Record>, n: nat)
    requires |records| == |used| && AtMostAllChunks(used) && n == Off(used, NUM_S_BUCKETS)
    requires ChunksBelow(sector, used, records, n)
    ensures ChunksBelow(sector, used, records, NUM_CHUNKS * |used|)
  {
    forall p, s | 0 <= p < |used| && 0 <= s < NUM_S_BUCKETS && used[p][s]
      ensures Holds(sector, used, records, p, s)
    {
      LocInRange(used, p, s);
    }
  }

  /** The chunk region alone decides which chunks a sector holds. */
  lemma ChunksKept(before: seq<Byte>, after: seq<Byte>, used: ContentsMap, records: seq<Record>, n: nat)
    requires |records| == |used| && AtMostAllChunks(used) && ChunksBelow(before, used, records, n)
    requires |after| == |before| && after[..MetadataPos(|used|, 0)] == before[..MetadataPos(|used|, 0)]
    ensures ChunksBelow(after, used, records, n)
  {
    forall p, s | 0 <= p < |used| && 0 <= s < NUM_S_BUCKETS && used[p][s] && Loc(used, p, s) < n
      ensures Holds(after, used, records, p, s)
    {
      ChunkFits(used, p, s);
      assert Holds(before, used, records, p, s);
      var a := ChunkPos(|used|, Loc(used, p, s));
      assert after[a..][..CHUNK_SIZE] == after[..MetadataPos(|used|, 0)][a..a + CHUNK_SIZE];
      assert before[a..][..CHUNK_SIZE] == before[..MetadataPos(|used|, 0)][a..a + CHUNK_SIZE];
    }
  }

  method WriteMetadata(metadata: seq<Metadata>, output: array<Byte>)
    requires output.Length == SectorSize(|metadata|)
    modifies output
    ensures MetadataBelow(output[..], metadata, |metadata|)
    ensures output[..MetadataPos(|metadata|, 0)] == old(output[..MetadataPos(|metadata|, 0)])
  {
    var pieces := |metadata|;
    for p := 0 to pieces
      invariant MetadataBelow(output[..], metadata, p)
      invariant output[..MetadataPos(pieces, 0)] == old(output[..MetadataPos(pieces, 0)])
    {
      ghost var before := output[..];
      CopyInto(output, MetadataPos(pieces, p), metadata[p]);
      MetadataWritten(before, output[..], metadata, p);
    }
  }

  lemma MetadataWritten(before: seq<Byte>, after: seq<Byte>, metadata: seq<Metadata>, p: nat)
    requires p < |metadata| && MetadataBelow(before, metadata, p)
    requires MetadataPos(|metadata|, p) + METADATA_SIZE <= |before|
    requires after == before[..MetadataPos(|metadata|, p)] + metadata[p]
                      + before[MetadataPos(|metadata|, p) + METADATA_SIZE..]
    ensures MetadataBelow(after, metadata, p + 1)
  {
    forall q | 0 <= q < p + 1 ensures after[MetadataPos(|metadata|, q)..][..METADATA_SIZE] == metadata[q] {
      var a := MetadataPos(|metadata|, q);
      if q < p {
        assert forall i | a <= i < a + METADATA_SIZE :: after[i] == before[i];
        assert after[a..][..METADATA_SIZE] == before[a..][..METADATA_SIZE];
      }
    }
  }

  lemma MetadataKept(before: seq<Byte>, after: seq<Byte>, metadata: seq<Metadata>)
    requires MetadataBelow(before, metadata, |metadata|) && |after| == |before|
    requires after[..|before| - HASH_SIZE] == before[..|before| - HASH_SIZE]
    ensures MetadataBelow(after, metadata, |metadata|)
  {
    forall q | 0 <= q < |metadata| ensures after[MetadataPos(|metadata|, q)..][..METADATA_SIZE] == metadata[q] {
      var a, n := MetadataPos(|metadata|, q), |before| - HASH_SIZE;
      assert after[a..][..METADATA_SIZE] == after[..n][a..a + METADATA_SIZE];
      assert before[a..][..METADATA_SIZE] == before[..n][a..a + METADATA_SIZE];
    }
  }

  /** Fill a buffer of the right size. */
  method FillSector(m: seq<FoundProofs>, records: seq<Record>, metadata: seq<Metadata>, hash: seq<Byte> -> Hash,
                    output: array<Byte>)
    requires |m| == |records| == |metadata| && AtMostAllChunks(Bitmaps(m)) && output.Length == SectorSize(|m|)
    modifies output
    ensures Written(output[..], m, records, metadata, hash)
  {
    var pieces, used := |m|, Bitmaps(m);
    CopyInto(output, 0, EncodeMap(m, hash));
    WriteChunks(used, records, output);
    ghost var withChunks := output[..];
    assert withChunks[..MapSize(pieces)] == EncodeMap(m, hash);
    WriteMetadata(metadata, output);
    ghost var withMetadata := output[..];
    ChunksKept(withChunks, withMetadata, used, records, NUM_CHUNKS * pieces);
    var size := SectorSize(pieces) - HASH_SIZE;
    CopyInto(output, size, hash(output[..size]));
    MetadataKept(withMetadata, output[..], metadata);
    assert output[..][..MetadataPos(pieces, 0)] == withMetadata[..MetadataPos(pieces, 0)];
    ChunksKept(withMetadata, output[..], used, records, NUM_CHUNKS * pieces);
    MapKept(withChunks, output[..], pieces);
  }

  lemma MapKept(before: seq<Byte>, after: seq<Byte>, pieces: nat)
    requires |after| == |before| == SectorSize(pieces)
    requires after[..MetadataPos(pieces, 0)] == before[..MetadataPos(pieces, 0)]
    ensures after[..MapSize(pieces)] == before[..MapSize(pieces)]
  {
    assert after[..MapSize(pieces)] == after[..MetadataPos(pieces, 0)][..MapSize(pieces)];
    assert before[..MapSize(pieces)] == before[..MetadataPos(pieces, 0)][..MapSize(pieces)];
  }

  /** `write_sector`: an empty output is allocated, one of another size refused. */
  method WriteSector(m: seq<FoundProofs>, records: seq<Record>, metadata: seq<Metadata>, hash: seq<Byte> -> Hash,
                     sectorOutput: array<Byte>)
    returns (ok: bool, written: array<Byte>)
    requires |m| == |records| == |metadata| && AtMostAllChunks(Bitmaps(m))
    modifies sectorOutput
    ensures ok <==> sectorOutput.Length == 0 || sectorOutput.Length == SectorSize(|m|)
    ensures ok ==> Written(written[..], m, records, metadata, hash)
    ensures sectorOutput.Length != 0 ==> written == sectorOutput
    ensures !ok ==> sectorOutput[..] == old(sectorOutput[..])
  {
    var size := SectorSize(|m|);
    written := sectorOutput;
    ok := sectorOutput.Length == 0 || sectorOutput.Length == size;
    if ok {
      if sectorOutput.Length == 0 {
        written := new Byte[size](i => 0);
      }
      FillSector(m, records, metadata, hash, written);
    }
  }
}
