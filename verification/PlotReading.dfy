/** Reading pieces back from a plotted sector, and what auditing and proving rely on. */
module PlotReading {
  import opened PlotLayout
  import opened PlotEncoding
  import opened PlotSector
  import opened Options

  // ---------- reading chunks ----------

  /** Byte position of the chunk of piece `p` in s-bucket `s`, from stored s-bucket offsets. */
  function ReadPos(pieces: nat, used: ContentsMap, offsets: seq<nat>, p: nat, s: nat): nat
    requires |offsets| == NUM_S_BUCKETS && p < |used| && s < NUM_S_BUCKETS
  {
    ChunkPos(pieces, offsets[s] + Col(used, s, p))
  }

  /** Plotted s-buckets are paired with the proofs in order, so only `NUM_CHUNKS` of them are read. */
  predicate Reads(used: ContentsMap, p: nat, s: nat)
    requires p < |used| && s < NUM_S_BUCKETS
  {
    used[p][s] && Row(used[p], s) < NUM_CHUNKS
  }

  predicate Readable(sector: seq<Byte>, pieces: nat, used: ContentsMap, offsets: seq<nat>, p: nat, n: nat)
    requires |offsets| == NUM_S_BUCKETS && p < |used| && n <= NUM_S_BUCKETS
  {
    forall s | 0 <= s < n && Reads(used, p, s) :: ReadPos(pieces, used, offsets, p, s) + CHUNK_SIZE <= |sector|
  }

  /** `read_sector_record_chunks`: decoded chunks of the plotted s-buckets, nothing if a read fails. */
  method ReadRecordChunks(sector: seq<Byte>, pieces: nat, used: ContentsMap, offsets: seq<nat>, hashes: seq<Chunk>, p: nat)
    returns (r: Option<seq<Option<Chunk>>>)
    requires |offsets| == NUM_S_BUCKETS && |hashes| == NUM_CHUNKS && p < |used|
    ensures r == RecordChunks(sector, pieces, used, offsets, hashes, p)
  {
    var chunks := new Option<Chunk>[NUM_S_BUCKETS](i => None);
    var rank := 0;
    for s := 0 to NUM_S_BUCKETS
      invariant rank == Row(used[p], s)
      invariant Readable(sector, pieces, used, offsets, p, s)
      invariant forall t | 0 <= t < s :: chunks[t] == DecodedChunk(sector, pieces, used, offsets, hashes, p, t)
      invariant forall t | s <= t < NUM_S_BUCKETS :: chunks[t] == None
    {
      if used[p][s] {
        if rank < NUM_CHUNKS {
          var at := ReadPos(pieces, used, offsets, p, s);
          if at + CHUNK_SIZE > |sector| {
            return None;
          }
          chunks[s] := Some(Xor(sector[at..][..CHUNK_SIZE], hashes[rank]));
        }
        rank := rank + 1;
      }
    }
    assert chunks[..] == RecordChunks(sector, pieces, used, offsets, hashes, p).value;
    r := Some(chunks[..]);
  }

  function DecodedChunk(sector: seq<Byte>, pieces: nat, used: ContentsMap, offsets: seq<nat>, hashes: seq<Chunk>,
                        p: nat, s: nat): Option<Chunk>
    requires |offsets| == NUM_S_BUCKETS && |hashes| == NUM_CHUNKS && p < |used| && s < NUM_S_BUCKETS
    requires Reads(used, p, s) ==> ReadPos(pieces, used, offsets, p, s) + CHUNK_SIZE <= |sector|
  {
    if Reads(used, p, s) then
      Some(Xor(sector[ReadPos(pieces, used, offsets, p, s)..][..CHUNK_SIZE], hashes[Row(used[p], s)]))
    else None
  }

  function RecordChunks(sector: seq<Byte>, pieces: nat, used: ContentsMap, offsets: seq<nat>, hashes: seq<Chunk>, p: nat)
    : (r: Option<seq<Option<Chunk>>>)
    requires |offsets| == NUM_S_BUCKETS && |hashes| == NUM_CHUNKS && p < |used|
    ensures r.Some? ==> |r.value| == NUM_S_BUCKETS
  {
    if !Readable(sector, pieces, used, offsets, p, NUM_S_BUCKETS) then None
    else Some(seq(NUM_S_BUCKETS, s requires 0 <= s < NUM_S_BUCKETS =>
                    DecodedChunk(sector, pieces, used, offsets, hashes, p, s)))
  }

  // ---------- recovering the record ----------

  /** The erasure code: parity chunks of a record, and recovery of all chunks from some of them. */
  datatype ErasureCode = ErasureCode(extend: Record -> Record, recover: seq<Option<Chunk>> -> Option<seq<Chunk>>)

  function Present(shards: seq<Option<Chunk>>): Bitmap
    requires |shards| == NUM_S_BUCKETS
  {
    seq(NUM_S_BUCKETS, s requires 0 <= s < NUM_S_BUCKETS => shards[s].Some?)
  }

  /** The shards are chunks of the extended record, some of them missing. */
  predicate ShardsOf(shards: seq<Option<Chunk>>, record: Record, parity: Record) {
    && |shards| == NUM_S_BUCKETS
    && forall s | 0 <= s < NUM_S_BUCKETS && shards[s].Some? :: shards[s].value == Extended(record, parity, s)
  }

  /** What the erasure code promises: any `NUM_CHUNKS` chunks recover the rest. */
  ghost predicate Recovering(code: ErasureCode) {
    forall record: Record, shards: seq<Option<Chunk>> |
      && ShardsOf(shards, record, code.extend(record))
      && Row(Present(shards), NUM_S_BUCKETS) >= NUM_CHUNKS ::
      && code.recover(shards).Some?
      && |code.recover(shards).value| == NUM_S_BUCKETS
      && forall s | 0 <= s < NUM_S_BUCKETS :: code.recover(shards).value[s] == Extended(record, code.extend(record), s)
  }

  /** `recover_source_record`: chunks that are present are copied, the missing ones recovered. */
  function RecoverSource(code: ErasureCode, shards: seq<Option<Chunk>>): Option<Record>
    requires |shards| == NUM_S_BUCKETS
  {
    match code.recover(shards)
    case None => None
    case Some(all) =>
      if |all| != NUM_S_BUCKETS then None
      else Some(seq(NUM_CHUNKS, i requires 0 <= i < NUM_CHUNKS =>
                      if shards[i].Some? then shards[i].value else all[i]))
  }

  function RecordBytes(chunks: seq<Chunk>): seq<Byte> {
    if chunks == [] then [] else RecordBytes(chunks[..|chunks| - 1]) + chunks[|chunks| - 1]
  }

  /** Checksum stored beside a record: over the whole piece. */
  function PieceChecksum(header: Header, record: Record, hash: seq<Byte> -> Hash): Hash {
    hash(header + RecordBytes(record))
  }

  function PrefixSums(sizes: seq<nat>): (r: seq<nat>)
    ensures |r| == |sizes|
  {
    seq(|sizes|, s requires 0 <= s < |sizes| => PrefixSum(sizes, s))
  }

  /** `read_piece`. */
  function ReadPiece(sector: seq<Byte>, pieces: nat, sizes: seq<nat>, p: nat, hashes: seq<Chunk>, code: ErasureCode,
                     hash: seq<Byte> -> Hash): Result<(Header, Record)>
    requires |sizes| == NUM_S_BUCKETS && |hashes| == NUM_CHUNKS && p < pieces
  {
    if MapSize(pieces) > |sector| then Err(Io)
    else match DecodeMap(sector[..MapSize(pieces)], pieces, hash)
      case Err(e) => Err(e)
      case Ok(m) =>
        match RecordChunks(sector, pieces, Bitmaps(m), PrefixSums(sizes), hashes, p)
        case None => Err(Io)
        case Some(shards) =>
          match RecoverSource(code, shards)
          case None => Err(ErasureDecode)
          case Some(record) =>
            if MetadataPos(pieces, p) + METADATA_SIZE > |sector| then Err(Io)
            else
              var metadata := sector[MetadataPos(pieces, p)..][..METADATA_SIZE];
              var header: Header := metadata[..HEADER_SIZE];
              if PieceChecksum(header, record, hash) != metadata[HEADER_SIZE..] then Err(ChecksumMismatch)
              else Ok((header, record))
  }

  /** The bytes of a record are those of its chunks in order. */
  lemma {:induction false} RecordBytesAt(chunks: seq<Chunk>, k: nat, i: nat)
    requires k < |chunks| && i < CHUNK_SIZE
    ensures |RecordBytes(chunks)| == CHUNK_SIZE * |chunks| && RecordBytes(chunks)[CHUNK_SIZE * k + i] == chunks[k][i]
  {
    RecordBytesLength(chunks);
    var last := |chunks| - 1;
    RecordBytesLength(chunks[..last]);
    if k < last { RecordBytesAt(chunks[..last], k, i); }
  }

  lemma {:induction false} RecordBytesLength(chunks: seq<Chunk>)
    ensures |RecordBytes(chunks)| == CHUNK_SIZE * |chunks|
  {
    if chunks != [] { RecordBytesLength(chunks[..|chunks| - 1]); }
  }

  /** A piece is only returned when the checksum stored beside it is that of all its bytes. */
  lemma ReadPieceIsChecked(sector: seq<Byte>, pieces: nat, sizes: seq<nat>, p: nat, hashes: seq<Chunk>, code: ErasureCode,
                           hash: seq<Byte> -> Hash)
    requires |sizes| == NUM_S_BUCKETS && |hashes| == NUM_CHUNKS && p < pieces
    ensures var r := ReadPiece(sector, pieces, sizes, p, hashes, code, hash);
            r.Ok? ==>
              && MetadataPos(pieces, p) + METADATA_SIZE <= |sector|
              && sector[MetadataPos(pieces, p)..][..METADATA_SIZE]
                 == r.value.0 + hash(r.value.0 + RecordBytes(r.value.1))
  {
    var r := ReadPiece(sector, pieces, sizes, p, hashes, code, hash);
    if r.Ok? {
      var metadata := sector[MetadataPos(pieces, p)..][..METADATA_SIZE];
      assert metadata == metadata[..HEADER_SIZE] + metadata[HEADER_SIZE..];
    }
  }

  // ---------- the plot and its round trip ----------

  /** Everything plotting started from and produced for one sector. */
  datatype Plot = Plot(
    found: seq<FoundProofs>,
    headers: seq<Header>,
    records: seq<Record>,
    hashes: seq<seq<Chunk>>,
    encoded: seq<Record>,
    sizes: seq<nat>)

  function MetadataOf(plot: Plot, hash: seq<Byte> -> Hash): (r: seq<Metadata>)
    requires |plot.headers| == |plot.records|
    ensures |r| == |plot.records|
  {
    seq(|plot.records|, p requires 0 <= p < |plot.records| =>
      plot.headers[p] + PieceChecksum(plot.headers[p], plot.records[p], hash))
  }

  predicate Encoded(plot: Plot, code: ErasureCode) {
    && |plot.found| == |plot.headers| == |plot.records| == |plot.hashes| == |plot.encoded|
    && AtMostAllChunks(Bitmaps(plot.found))
    && (forall p | 0 <= p < |plot.found| ::
          && |plot.hashes[p]| == NUM_CHUNKS
          && Row(Bits(plot.found[p]), NUM_S_BUCKETS) <= NUM_CHUNKS
          && EncodedAs(plot.encoded[p], plot.records[p], code.extend(plot.records[p]), Bits(plot.found[p]), plot.hashes[p]))
    && |plot.sizes| == NUM_S_BUCKETS
    && (forall s | 0 <= s < NUM_S_BUCKETS :: plot.sizes[s] == Col(Bitmaps(plot.found), s, |plot.found|))
  }

  /** A sector as encoded by either encoder and written by `WriteSector`. */
  predicate Plotted(sector: seq<Byte>, plot: Plot, code: ErasureCode, hash: seq<Byte> -> Hash) {
    Encoded(plot, code) && Written(sector, plot.found, plot.encoded, MetadataOf(plot, hash), hash)
  }

  /** `encode_sector`: encode every record and count the s-buckets. */
  method EncodeSector(headers: seq<Header>, records: seq<Record>, found: seq<FoundProofs>, hashes: seq<seq<Chunk>>,
                      code: ErasureCode)
    returns (plot: Plot)
    requires |found| == |headers| == |records| == |hashes| <= U16_MAX
    requires forall p | 0 <= p < |found| :: |hashes[p]| == NUM_CHUNKS
    requires forall p | 0 <= p < |found| :: Row(Bits(found[p]), NUM_S_BUCKETS) <= NUM_CHUNKS
    ensures Encoded(plot, code)
    ensures plot.found == found && plot.headers == headers && plot.records == records && plot.hashes == hashes
  {
    var encoded: seq<Record> := [];
    for p := 0 to |found|
      invariant |encoded| == p
      invariant forall q | 0 <= q < p ::
                  EncodedAs(encoded[q], records[q], code.extend(records[q]), Bits(found[q]), hashes[q])
    {
      var record := new Chunk[NUM_CHUNKS](i requires 0 <= i < NUM_CHUNKS => records[p][i]);
      assert record[..] == records[p];
      EncodeRecord(record, code.extend, found[p], hashes[p]);
      encoded := encoded + [record[..]];
    }
    var sizes := SBucketSizes(Bitmaps(found));
    plot := Plot(found, headers, records, hashes, encoded, sizes);
  }

  /** The bytes at a used chunk's location are its encoding, and decode to the extended record. */
  lemma PlottedChunk(sector: seq<Byte>, plot: Plot, code: ErasureCode, hash: seq<Byte> -> Hash, p: nat, s: nat)
    requires Plotted(sector, plot, code, hash) && p < |plot.found| && s < NUM_S_BUCKETS && Bits(plot.found[p])[s]
    ensures var used, n := Bitmaps(plot.found), |plot.found|;
            && ReadPos(n, used, PrefixSums(plot.sizes), p, s) == ChunkPos(n, Loc(used, p, s))
            && Reads(used, p, s)
            && ChunkPos(n, Loc(used, p, s)) + CHUNK_SIZE <= |sector|
            && sector[ChunkPos(n, Loc(used, p, s))..][..CHUNK_SIZE] == plot.encoded[p][Row(used[p], s)]
            && Xor(sector[ChunkPos(n, Loc(used, p, s))..][..CHUNK_SIZE], plot.hashes[p][Row(used[p], s)])
               == Extended(plot.records[p], code.extend(plot.records[p]), s)
  {
    var used, n := Bitmaps(plot.found), |plot.found|;
    OffsetsFromSizes(used, plot.sizes, s);
    ChunkFits(used, p, s);
    LocInRange(used, p, s);
    assert Holds(sector, used, plot.encoded, p, s);
    var k := Row(used[p], s);
    XorTwice(Extended(plot.records[p], code.extend(plot.records[p]), s), plot.hashes[p][k]);
  }

  /** Reading any piece of a plotted sector gives, for every s-bucket, the source or parity chunk when a
      proof was found there and nothing otherwise. */
  lemma ChunksRoundTrip(sector: seq<Byte>, plot: Plot, code: ErasureCode, hash: seq<Byte> -> Hash, p: nat)
    requires Plotted(sector, plot, code, hash) && p < |plot.found|
    ensures var used, n := Bitmaps(plot.found), |plot.found|;
            var r := RecordChunks(sector, n, used, PrefixSums(plot.sizes), plot.hashes[p], p);
            && r.Some?
            && forall s | 0 <= s < NUM_S_BUCKETS ::
                 r.value[s] == if used[p][s] then Some(Extended(plot.records[p], code.extend(plot.records[p]), s)) else None
  {
    var used, n := Bitmaps(plot.found), |plot.found|;
    forall s | 0 <= s < NUM_S_BUCKETS && used[p][s]
      ensures ReadPos(n, used, PrefixSums(plot.sizes), p, s) + CHUNK_SIZE <= |sector|
      ensures DecodedChunk(sector, n, used, PrefixSums(plot.sizes), plot.hashes[p], p, s)
              == Some(Extended(plot.records[p], code.extend(plot.records[p]), s))
    {
      PlottedChunk(sector, plot, code, hash, p, s);
    }
  }

  lemma RecoverPlotted(code: ErasureCode, shards: seq<Option<Chunk>>, record: Record, used: Bitmap)
    requires Recovering(code) && Row(used, NUM_S_BUCKETS) >= NUM_CHUNKS && |shards| == NUM_S_BUCKETS
    requires forall s | 0 <= s < NUM_S_BUCKETS ::
               shards[s] == if used[s] then Some(Extended(record, code.extend(record), s)) else None
    ensures RecoverSource(code, shards) == Some(record)
  {
    assert Present(shards) == used;
    assert ShardsOf(shards, record, code.extend(record));
    var all := code.recover(shards).value;
    assert RecoverSource(code, shards).value == record;
  }

  /** Beside a plotted record stand its header and the checksum of the whole piece. */
  lemma PlottedMetadata(sector: seq<Byte>, plot: Plot, code: ErasureCode, hash: seq<Byte> -> Hash, p: nat)
    requires Plotted(sector, plot, code, hash) && p < |plot.found|
    ensures MetadataPos(|plot.found|, p) + METADATA_SIZE <= |sector|
    ensures sector[MetadataPos(|plot.found|, p)..][..METADATA_SIZE]
            == plot.headers[p] + hash(plot.headers[p] + RecordBytes(plot.records[p]))
  {
  }

  /** The whole round trip: with all proofs found for a piece and a recovering erasure code, reading the
      plotted sector returns the original record and header. */
  lemma PieceRoundTrip(sector: seq<Byte>, plot: Plot, code: ErasureCode, hash: seq<Byte> -> Hash, p: nat)
    requires Plotted(sector, plot, code, hash) && p < |plot.found|
    requires Recovering(code) && Row(Bits(plot.found[p]), NUM_S_BUCKETS) == NUM_CHUNKS
    ensures ReadPiece(sector, |plot.found|, plot.sizes, p, plot.hashes[p], code, hash)
            == Ok((plot.headers[p], plot.records[p]))
  {
    var n, used := |plot.found|, Bitmaps(plot.found);
    MapRoundTrip(plot.found, hash);
    ChunksRoundTrip(sector, plot, code, hash, p);
    var shards := RecordChunks(sector, n, used, PrefixSums(plot.sizes), plot.hashes[p], p).value;
    RecoverPlotted(code, shards, plot.records[p], used[p]);
    var stored := sector[MetadataPos(n, p)..][..METADATA_SIZE];
    assert stored == plot.headers[p] + PieceChecksum(plot.headers[p], plot.records[p], hash);
    assert stored[..HEADER_SIZE] == plot.headers[p];
  }

  // ---------- auditing and proving ----------

  datatype Candidate = Candidate(chunkOffset: nat, distance: nat)

  /** Byte range of the audited s-bucket, from the stored sizes. */
  function AuditOffset(pieces: nat, sizes: seq<nat>, s: nat): nat
    requires s < |sizes|
  {
    MapSize(pieces) + CHUNK_SIZE * PrefixSum(sizes, s)
  }

  function AuditSize(sizes: seq<nat>, s: nat): nat
    requires s < |sizes|
  {
    CHUNK_SIZE * sizes[s]
  }

  function ChunkOf(sBucket: seq<Byte>, k: nat): Chunk
    requires CHUNK_SIZE * (k + 1) <= |sBucket|
  {
    sBucket[CHUNK_SIZE * k..][..CHUNK_SIZE]
  }

  /** By distance, and by position among equal distances. */
  predicate Ordered(cs: seq<Candidate>) {
    forall i, j | 0 <= i < j < |cs| ::
      cs[i].distance < cs[j].distance || (cs[i].distance == cs[j].distance && cs[i].chunkOffset < cs[j].chunkOffset)
  }

  /** Insert behind everything at most as distant. */
  function Insert(cs: seq<Candidate>, c: Candidate): seq<Candidate> {
    if cs == [] || cs[|cs| - 1].distance <= c.distance then cs + [c]
    else Insert(cs[..|cs| - 1], c) + [cs[|cs| - 1]]
  }

  lemma {:induction false} InsertKeeps(cs: seq<Candidate>, c: Candidate)
    requires Ordered(cs) && forall i | 0 <= i < |cs| :: cs[i].chunkOffset < c.chunkOffset
    ensures Ordered(Insert(cs, c))
    ensures forall x :: x in Insert(cs, c) <==> x in cs || x == c
  {
    if cs == [] || cs[|cs| - 1].distance <= c.distance {
      assert forall i | 0 <= i < |cs| :: cs[i].distance <= c.distance;
    } else {
      var front, last := cs[..|cs| - 1], cs[|cs| - 1];
      InsertKeeps(front, c);
      assert cs == front + [last];
      forall i | 0 <= i < |Insert(front, c)|
        ensures var x := Insert(front, c)[i];
                x.distance < last.distance || (x.distance == last.distance && x.chunkOffset < last.chunkOffset)
      {
        assert Insert(front, c)[i] in Insert(front, c);
      }
    }
  }

  /** A chunk of the s-bucket that is close enough to the challenge. */
  predicate Wins(sBucket: seq<Byte>, distance: Chunk -> nat, within: nat -> bool, c: Candidate) {
    && CHUNK_SIZE * (c.chunkOffset + 1) <= |sBucket|
    && c.distance == distance(ChunkOf(sBucket, c.chunkOffset))
    && within(c.distance)
  }

  /** `map_winning_chunks`: all winning chunks of the s-bucket, best first. */
  method MapWinningChunks(sBucket: seq<Byte>, distance: Chunk -> nat, within: nat -> bool)
    returns (r: Option<seq<Candidate>>)
    ensures r.None? ==> forall c :: !Wins(sBucket, distance, within, c)
    ensures r.Some? ==> r.value != [] && Ordered(r.value)
    ensures r.Some? ==> forall c :: c in r.value <==> Wins(sBucket, distance, within, c)
  {
    var candidates: seq<Candidate> := [];
    var n := |sBucket| / CHUNK_SIZE;
    for k := 0 to n
      invariant Ordered(candidates) && forall i | 0 <= i < |candidates| :: candidates[i].chunkOffset < k
      invariant forall c :: c in candidates <==> c.chunkOffset < k && Wins(sBucket, distance, within, c)
    {
      var d := distance(ChunkOf(sBucket, k));
      if within(d) {
        ghost var before := candidates;
        InsertKeeps(before, Candidate(k, d));
        candidates := Insert(candidates, Candidate(k, d));
        forall i | 0 <= i < |candidates| ensures candidates[i].chunkOffset < k + 1 {
          assert candidates[i] in candidates;
        }
      }
    }
    r := if candidates == [] then None else Some(candidates);
  }

  /** What the audit of s-bucket `s` reads lies inside the chunk region of a plotted sector. */
  lemma AuditInBounds(sector: seq<Byte>, plot: Plot, code: ErasureCode, hash: seq<Byte> -> Hash, s: nat)
    requires Plotted(sector, plot, code, hash) && s < NUM_S_BUCKETS
    ensures var n := |plot.found|;
            AuditOffset(n, plot.sizes, s) + AuditSize(plot.sizes, s) <= MetadataPos(n, 0) <= |sector|
  {
    var used := Bitmaps(plot.found);
    OffsetsFromSizes(used, plot.sizes, s);
    OffMonotone(used, s + 1, NUM_S_BUCKETS);
    CountedBothWays(used, NUM_S_BUCKETS);
    RowSumBounded(used, |used|);
  }

  /** Chunk `k` of the audited s-bucket is the one at the location of the piece of rank `k`. */
  lemma AuditedLocation(plot: Plot, code: ErasureCode, s: nat, k: nat)
    requires Encoded(plot, code) && s < NUM_S_BUCKETS && k < plot.sizes[s]
    ensures var used, n := Bitmaps(plot.found), |plot.found|;
            && k < |PieceOffsets(used, s, n)|
            && var p := PieceOffsets(used, s, n)[k];
            && p < n && used[p][s]
            && AuditOffset(n, plot.sizes, s) + CHUNK_SIZE * k == ChunkPos(n, Loc(used, p, s))
  {
    var used, n := Bitmaps(plot.found), |plot.found|;
    PieceOffsetsSelect(used, s, n, k);
    OffsetsFromSizes(used, plot.sizes, s);
  }

  lemma SliceOfSlice(bytes: seq<Byte>, at: nat, len: nat, k: nat)
    requires at + len <= |bytes| && k + CHUNK_SIZE <= len
    ensures bytes[at..][..len][k..][..CHUNK_SIZE] == bytes[at + k..][..CHUNK_SIZE]
  {
    assert bytes[at..][..len] == bytes[at..at + len];
    assert bytes[at..at + len][k..][..CHUNK_SIZE] == bytes[at + k..at + k + CHUNK_SIZE];
  }

  /** A used chunk of a plotted sector has a proof at its rank and is read back as the extended chunk. */
  predicate Provable(sector: seq<Byte>, plot: Plot, code: ErasureCode, p: nat, s: nat)
    requires Encoded(plot, code) && p < |plot.found| && s < NUM_S_BUCKETS
  {
    var used, n := Bitmaps(plot.found), |plot.found|;
    var chunks := RecordChunks(sector, n, used, PrefixSums(plot.sizes), plot.hashes[p], p);
    && used[p][s]
    && ProofIndex(plot.found[p], s) == Some(Row(used[p], s))
    && chunks.Some?
    && chunks.value[s] == Some(Extended(plot.records[p], code.extend(plot.records[p]), s))
  }

  lemma UsedIsProvable(sector: seq<Byte>, plot: Plot, code: ErasureCode, hash: seq<Byte> -> Hash, p: nat, s: nat)
    requires Plotted(sector, plot, code, hash) && p < |plot.found| && s < NUM_S_BUCKETS && Bits(plot.found[p])[s]
    ensures Provable(sector, plot, code, p, s)
  {
    ProofIndexIsRank(plot.found[p], s);
    ChunksRoundTrip(sector, plot, code, hash, p);
  }

  lemma AuditedBytes(sector: seq<Byte>, plot: Plot, code: ErasureCode, hash: seq<Byte> -> Hash, s: nat, k: nat)
    requires Plotted(sector, plot, code, hash) && s < NUM_S_BUCKETS && k < plot.sizes[s]
    requires AuditOffset(|plot.found|, plot.sizes, s) + AuditSize(plot.sizes, s) <= |sector|
    ensures var used, n := Bitmaps(plot.found), |plot.found|;
            && k < |PieceOffsets(used, s, n)|
            && var p := PieceOffsets(used, s, n)[k];
            && p < n && used[p][s] && Row(used[p], s) < NUM_CHUNKS
            && ChunkOf(sector[AuditOffset(n, plot.sizes, s)..][..AuditSize(plot.sizes, s)], k)
               == plot.encoded[p][Row(used[p], s)]
  {
    var used, n := Bitmaps(plot.found), |plot.found|;
    AuditedLocation(plot, code, s, k);
    var p := PieceOffsets(used, s, n)[k];
    PlottedChunk(sector, plot, code, hash, p, s);
    SliceOfSlice(sector, AuditOffset(n, plot.sizes, s), AuditSize(plot.sizes, s), CHUNK_SIZE * k);
  }

  /** Any chunk the audit of s-bucket `s` can pick belongs to a piece whose chunk proving then finds
      present in that s-bucket, whose proof exists, and which decodes to the extended record: none of
      the expectations of the proving code can fail. */
  lemma AuditedChunkIsProvable(sector: seq<Byte>, plot: Plot, code: ErasureCode, hash: seq<Byte> -> Hash, s: nat, c: Candidate,
                               distance: Chunk -> nat, within: nat -> bool)
    requires Plotted(sector, plot, code, hash) && s < NUM_S_BUCKETS
    requires AuditOffset(|plot.found|, plot.sizes, s) + AuditSize(plot.sizes, s) <= |sector|
    requires Wins(sector[AuditOffset(|plot.found|, plot.sizes, s)..][..AuditSize(plot.sizes, s)], distance, within, c)
    ensures var used, n := Bitmaps(plot.found), |plot.found|;
            && c.chunkOffset < |PieceOffsets(used, s, n)|
            && var p := PieceOffsets(used, s, n)[c.chunkOffset];
            && p < n && Provable(sector, plot, code, p, s)
            && Row(used[p], s) < NUM_CHUNKS
            && c.distance == distance(plot.encoded[p][Row(used[p], s)])
  {
    AuditedBytes(sector, plot, code, hash, s, c.chunkOffset);
    var p := PieceOffsets(Bitmaps(plot.found), s, |plot.found|)[c.chunkOffset];
    UsedIsProvable(sector, plot, code, hash, p, s);
  }
}
