/** Encoding of records: in place, bit by bit of the found-proof bytes, on the CPU and for the GPU. */
module PlotEncoding {
  import opened PlotLayout
  import opened Options

  /** Bytes of one found-proof bitmap. */
  const BITMAP_SIZE: nat := 8192
  const CHUNK_SIZE: nat := 32

  type Byte = bv8
  type Chunk = c: seq<Byte> | |c| == CHUNK_SIZE witness seq(CHUNK_SIZE, i => 0)
  const ZERO_CHUNK: Chunk := seq(CHUNK_SIZE, i => 0)
  type Record = r: seq<Chunk> | |r| == NUM_CHUNKS witness seq(NUM_CHUNKS, i => ZERO_CHUNK)

  /** One bit per s-bucket, eight to a byte, least significant first. */
  type FoundProofs = f: seq<Byte> | |f| == BITMAP_SIZE witness seq(BITMAP_SIZE, i => 0)

  /** Shifts, one place at a time; shifting a byte by eight or more gives zero. */
  function Shl(b: Byte, k: nat): Byte {
    if k == 0 then b else Shl(b, k - 1) << 1
  }

  function Shr(b: Byte, k: nat): Byte {
    if k == 0 then b else Shr(b, k - 1) >> 1
  }

  predicate BitAt(b: Byte, o: nat)
    requires o < 8
  {
    b & Shl(1, o) != 0
  }

  function Bits(f: FoundProofs): Bitmap {
    seq(NUM_S_BUCKETS, s requires 0 <= s < NUM_S_BUCKETS => BitAt(f[s / 8], s % 8))
  }

  function Xor(a: Chunk, b: Chunk): Chunk {
    seq(CHUNK_SIZE, i requires 0 <= i < CHUNK_SIZE => a[i] ^ b[i])
  }

  lemma XorCancels(a: Byte, b: Byte)
    ensures (a ^ b) ^ b == a
  {
  }

  lemma XorTwice(a: Chunk, b: Chunk)
    ensures Xor(Xor(a, b), b) == a
  {
    forall i | 0 <= i < CHUNK_SIZE ensures Xor(Xor(a, b), b)[i] == a[i] {
      XorCancels(a[i], b[i]);
    }
  }

  /** Encoding with another hash gives another chunk. */
  lemma XorTells(a: Chunk, b: Chunk, c: Chunk)
    ensures Xor(a, b) == Xor(a, c) <==> b == c
  {
    if Xor(a, b) == Xor(a, c) {
      forall i | 0 <= i < CHUNK_SIZE ensures b[i] == c[i] {
        assert Xor(a, b)[i] == Xor(a, c)[i];
        SameMask(a[i], b[i], c[i]);
      }
    }
  }

  lemma SameMask(a: Byte, b: Byte, c: Byte)
    ensures a ^ b == a ^ c <==> b == c
  {
  }

  /** Source chunks followed by parity chunks. */
  function Extended(record: Record, parity: Record, s: nat): Chunk
    requires s < NUM_S_BUCKETS
  {
    if s < NUM_CHUNKS then record[s] else parity[s - NUM_CHUNKS]
  }

  /** The encoded chunk of every used s-bucket sits at that s-bucket's rank and comes from the original
      record or its parity; whatever lies beyond the last of them is untouched. */
  predicate EncodedAs(encoded: Record, record: Record, parity: Record, used: Bitmap, hashes: seq<Chunk>)
    requires |hashes| == NUM_CHUNKS && Row(used, NUM_S_BUCKETS) <= NUM_CHUNKS
  {
    && (forall s | 0 <= s < NUM_S_BUCKETS && used[s] ::
          && Row(used, s) < NUM_CHUNKS
          && encoded[Row(used, s)] == Xor(Extended(record, parity, s), hashes[Row(used, s)]))
    && (forall k | Row(used, NUM_S_BUCKETS) <= k < NUM_CHUNKS :: encoded[k] == record[k])
  }

  /** The same byte by byte: each byte of a source or parity chunk is masked with that of the hash. */
  predicate MaskedBytes(encoded: Record, record: Record, parity: Record, used: Bitmap, hashes: seq<Chunk>) {
    && |hashes| == NUM_CHUNKS
    && forall s, i | 0 <= s < NUM_S_BUCKETS && used[s] && 0 <= i < CHUNK_SIZE ::
         && Row(used, s) < NUM_CHUNKS
         && encoded[Row(used, s)][i]
            == (if s < NUM_CHUNKS then record[s][i] else parity[s - NUM_CHUNKS][i]) ^ hashes[Row(used, s)][i]
  }

  lemma EncodedIsMasked(encoded: Record, record: Record, parity: Record, used: Bitmap, hashes: seq<Chunk>)
    requires |hashes| == NUM_CHUNKS && Row(used, NUM_S_BUCKETS) <= NUM_CHUNKS
    requires EncodedAs(encoded, record, parity, used, hashes)
    ensures MaskedBytes(encoded, record, parity, used, hashes)
  {
  }

  /** A chunk encoded with another hash is another chunk. */
  lemma HashesTell(a: Record, b: Record, record: Record, parity: Record, used: Bitmap, hashes: seq<Chunk>,
                   others: seq<Chunk>, s: nat)
    requires |hashes| == |others| == NUM_CHUNKS && Row(used, NUM_S_BUCKETS) <= NUM_CHUNKS && s < NUM_S_BUCKETS && used[s]
    requires EncodedAs(a, record, parity, used, hashes) && EncodedAs(b, record, parity, used, others)
    ensures Row(used, s) < NUM_CHUNKS
    ensures a[Row(used, s)] == b[Row(used, s)] <==> hashes[Row(used, s)] == others[Row(used, s)]
  {
    XorTells(Extended(record, parity, s), hashes[Row(used, s)], others[Row(used, s)]);
  }

  /** Progress of an encoder that has handled the s-buckets below `s`. */
  predicate EncodedBelow(encoded: seq<Chunk>, record: Record, parity: Record, used: Bitmap, hashes: seq<Chunk>, s: nat)
    requires |hashes| == NUM_CHUNKS && s <= NUM_S_BUCKETS
  {
    && |encoded| == NUM_CHUNKS
    && (forall t | 0 <= t < s && used[t] ::
          && Row(used, t) < NUM_CHUNKS
          && encoded[Row(used, t)] == Xor(Extended(record, parity, t), hashes[Row(used, t)]))
    && (forall k | Row(used, s) <= k < NUM_CHUNKS :: encoded[k] == record[k])
  }

  /** The write index of a used s-bucket never passes the s-bucket itself, so the chunk it reads is the
      original one and the chunks written earlier stay. */
  lemma EncodeOne(encoded: seq<Chunk>, record: Record, parity: Record, used: Bitmap, hashes: seq<Chunk>, s: nat)
    requires |hashes| == NUM_CHUNKS && s < NUM_S_BUCKETS && used[s] && Row(used, NUM_S_BUCKETS) <= NUM_CHUNKS
    requires EncodedBelow(encoded, record, parity, used, hashes, s)
    ensures Row(used, s) <= s && Row(used, s) < NUM_CHUNKS
    ensures s < NUM_CHUNKS ==> encoded[s] == record[s]
    ensures var k := Row(used, s);
            EncodedBelow(encoded[k := Xor(Extended(record, parity, s), hashes[k])], record, parity, used, hashes, s + 1)
  {
    RowMonotone(used, 0, s);
    RowMonotone(used, s + 1, NUM_S_BUCKETS);
    forall t | 0 <= t < s && used[t] ensures Row(used, t) < Row(used, s) {
      RowInjective(used, t, s);
    }
  }

  lemma SkipChunk(encoded: seq<Chunk>, record: Record, parity: Record, used: Bitmap, hashes: seq<Chunk>, s: nat)
    requires |hashes| == NUM_CHUNKS && s < NUM_S_BUCKETS && !used[s]
    requires EncodedBelow(encoded, record, parity, used, hashes, s)
    ensures EncodedBelow(encoded, record, parity, used, hashes, s + 1)
  {
  }

  lemma BitsAt(f: FoundProofs, b: nat, o: nat)
    requires b < BITMAP_SIZE && o < 8
    ensures Bits(f)[8 * b + o] == BitAt(f[b], o)
  {
    assert (8 * b + o) / 8 == b && (8 * b + o) % 8 == o;
  }

  /** Encode the chunk of a used s-bucket to the next free position of the record. */
  method EncodeChunk(record: array<Chunk>, parity: Record, s: nat, k: nat, hash: Chunk,
                     ghost source: Record, ghost used: Bitmap, ghost hashes: seq<Chunk>)
    requires record.Length == |hashes| == NUM_CHUNKS && s < NUM_S_BUCKETS
    requires used[s] && Row(used, NUM_S_BUCKETS) <= NUM_CHUNKS && k == Row(used, s)
    requires k < NUM_CHUNKS ==> hash == hashes[k]
    requires EncodedBelow(record[..], source, parity, used, hashes, s)
    modifies record
    ensures EncodedBelow(record[..], source, parity, used, hashes, s + 1)
  {
    ghost var before := record[..];
    EncodeOne(before, source, parity, used, hashes, s);
    var chunk := if s < NUM_CHUNKS then record[s] else parity[s - NUM_CHUNKS];
    record[k] := Xor(chunk, hash);
    assert record[..] == before[k := Xor(Extended(source, parity, s), hashes[k])];
  }

  /** `record_encoding`: compaction in place reads only original chunks. */
  method EncodeRecord(record: array<Chunk>, extend: Record -> Record, found: FoundProofs, hashes: seq<Chunk>)
    requires record.Length == NUM_CHUNKS && |hashes| == NUM_CHUNKS
    requires Row(Bits(found), NUM_S_BUCKETS) <= NUM_CHUNKS
    modifies record
    ensures EncodedAs(record[..], old(record[..]), extend(old(record[..])), Bits(found), hashes)
    ensures MaskedBytes(record[..], old(record[..]), extend(old(record[..])), Bits(found), hashes)
  {
    ghost var source: Record, used := record[..], Bits(found);
    var parity := extend(record[..]);
    var numFoundProofs, s := 0, 0;
    for b := 0 to BITMAP_SIZE
      invariant s == 8 * b && numFoundProofs == Row(used, s)
      invariant EncodedBelow(record[..], source, parity, used, hashes, s)
    {
      for o := 0 to 8
        invariant s == 8 * b + o && numFoundProofs == Row(used, s)
        invariant EncodedBelow(record[..], source, parity, used, hashes, s)
      {
        BitsAt(found, b, o);
        if BitAt(found[b], o) {
          RowMonotone(used, s + 1, NUM_S_BUCKETS);
          EncodeChunk(record, parity, s, numFoundProofs, hashes[numFoundProofs], source, used, hashes);
          numFoundProofs := numFoundProofs + 1;
        } else {
          SkipChunk(record[..], source, parity, used, hashes, s);
        }
        s := s + 1;
      }
    }
    EncodedIsMasked(record[..], source, parity, used, hashes);
  }

  // ---------- the GPU loop ----------

  /** Clear all bits from `o` on. */
  function Trim(b: Byte, o: nat): Byte
    requires o < 8
  {
    b & Shr(0xff, 8 - o)
  }

  lemma Masks()
    ensures Shl(1, 1) == 2 && Shl(1, 2) == 4 && Shl(1, 3) == 8 && Shl(1, 4) == 16
    ensures Shl(1, 5) == 32 && Shl(1, 6) == 64 && Shl(1, 7) == 128
    ensures Shr(0xff, 1) == 127 && Shr(0xff, 2) == 63 && Shr(0xff, 3) == 31 && Shr(0xff, 4) == 15
    ensures Shr(0xff, 5) == 7 && Shr(0xff, 6) == 3 && Shr(0xff, 7) == 1 && Shr(0xff, 8) == 0
  {
    assert Shl(1, 1) == 2;
    assert Shl(1, 3) == 8;
    assert Shl(1, 5) == 32;
    assert Shr(0xff, 1) == 127;
    assert Shr(0xff, 3) == 31;
    assert Shr(0xff, 5) == 7;
    assert Shr(0xff, 7) == 1;
  }

  lemma AndOne(b: Byte, x: Byte, m: Byte)
    requires m in {1, 2, 4, 8, 16, 32, 64, 128}
    ensures (b & x) & m != 0 <==> b & m != 0 && x & m != 0
  {
  }

  lemma LowOnes(k: nat, j: nat)
    requires j < 8 && k <= 8
    ensures BitAt(Shr(0xff, k), j) <==> j < 8 - k
    ensures Shl(1, j) in {1 as bv8, 2, 4, 8, 16, 32, 64, 128}
  {
    Masks();
  }

  lemma TrimBits(b: Byte, o: nat, j: nat)
    requires o < 8 && j < 8
    ensures BitAt(Trim(b, o), j) <==> j < o && BitAt(b, j)
  {
    LowOnes(8 - o, j);
    AndOne(b, Shr(0xff, 8 - o), Shl(1, j));
  }

  /** The first `NUM_CHUNKS` found proofs. */
  function Trimmed(used: Bitmap): Bitmap {
    seq(NUM_S_BUCKETS, s requires 0 <= s < NUM_S_BUCKETS => used[s] && Row(used, s) < NUM_CHUNKS)
  }

  lemma {:induction false} TrimmedRow(used: Bitmap, s: nat)
    requires s <= NUM_S_BUCKETS
    ensures Row(Trimmed(used), s) == if Row(used, s) < NUM_CHUNKS then Row(used, s) else NUM_CHUNKS
  {
    if s > 0 { TrimmedRow(used, s - 1); }
  }

  lemma TrimmedFits(used: Bitmap)
    ensures Row(Trimmed(used), NUM_S_BUCKETS) <= NUM_CHUNKS
  {
    TrimmedRow(used, NUM_S_BUCKETS);
  }

  /** Once `NUM_CHUNKS` proofs were found, nothing from `s` on is kept. */
  lemma NothingKept(used: Bitmap, s: nat, t: nat)
    requires s <= t < NUM_S_BUCKETS && Row(Trimmed(used), s) == NUM_CHUNKS
    ensures !Trimmed(used)[t]
  {
    TrimmedRow(used, s);
    RowMonotone(used, s, t);
  }

  /** Per-s-bucket proofs arranged by rank, as the CPU encoder gets them. */
  predicate ByRank(used: Bitmap, proofs: seq<Chunk>, hashes: seq<Chunk>) {
    && |proofs| == NUM_S_BUCKETS && |hashes| == NUM_CHUNKS
    && forall s | 0 <= s < NUM_S_BUCKETS && used[s] ::
         Row(used, s) < NUM_CHUNKS && hashes[Row(used, s)] == proofs[s]
  }

  lemma {:induction false} ArrangeByRank(used: Bitmap, proofs: seq<Chunk>, n: nat) returns (hashes: seq<Chunk>)
    requires |proofs| == NUM_S_BUCKETS && n <= NUM_S_BUCKETS && Row(used, n) <= NUM_CHUNKS
    ensures |hashes| == NUM_CHUNKS
    ensures forall s | 0 <= s < n && used[s] :: Row(used, s) < NUM_CHUNKS && hashes[Row(used, s)] == proofs[s]
  {
    if n == 0 {
      hashes := seq(NUM_CHUNKS, i => ZERO_CHUNK);
    } else {
      RowMonotone(used, n - 1, n);
      var rest := ArrangeByRank(used, proofs, n - 1);
      hashes := if used[n - 1] then rest[Row(used, n - 1) := proofs[n - 1]] else rest;
      forall s | 0 <= s < n && used[s]
        ensures Row(used, s) < NUM_CHUNKS && hashes[Row(used, s)] == proofs[s]
      {
        if s < n - 1 { RowInjective(used, s, n - 1); }
      }
    }
  }

  /** Bytes below `b` hold the kept bits, the others are as found. */
  predicate TrimmedBelow(found: seq<Byte>, original: FoundProofs, kept: Bitmap, b: nat) {
    && |found| == BITMAP_SIZE
    && (forall s | 0 <= s < 8 * b && s < NUM_S_BUCKETS :: BitAt(found[s / 8], s % 8) == kept[s])
    && (forall i | b <= i < BITMAP_SIZE :: found[i] == original[i])
  }

  /** Byte `b` is trimmed at bit `o`, beyond which nothing is kept. */
  lemma TrimByte(found: seq<Byte>, original: FoundProofs, b: nat, o: nat)
    requires b < BITMAP_SIZE && o <= 8
    requires TrimmedBelow(found, original, Trimmed(Bits(original)), b)
    requires forall t | 8 * b <= t < 8 * b + o :: Row(Trimmed(Bits(original)), t) != NUM_CHUNKS
    requires o < 8 ==> Row(Trimmed(Bits(original)), 8 * b + o) == NUM_CHUNKS
    ensures TrimmedBelow(if o < 8 then found[b := Trim(found[b], o)] else found, original,
                         Trimmed(Bits(original)), b + 1)
  {
    var found' := if o < 8 then found[b := Trim(found[b], o)] else found;
    var kept := Trimmed(Bits(original));
    forall s | 0 <= s < 8 * (b + 1) ensures BitAt(found'[s / 8], s % 8) == kept[s] {
      if 8 * b <= s {
        assert s / 8 == b;
        if s < 8 * b + o { TrimmedRow(Bits(original), s); }
        if o < 8 {
          TrimBits(found[b], o, s % 8);
          if 8 * b + o <= s { NothingKept(Bits(original), 8 * b + o, s); }
        }
      }
    }
  }

  lemma TrimmedAll(found: FoundProofs, original: FoundProofs, kept: Bitmap)
    requires TrimmedBelow(found, original, kept, BITMAP_SIZE)
    ensures Bits(found) == kept
  {
  }

  /** While fewer than `NUM_CHUNKS` proofs were found, a bit is kept exactly when it is set. */
  predicate ByteKept(kept: Bitmap, b: nat, byte: Byte)
    requires b < BITMAP_SIZE
  {
    forall o | 0 <= o < 8 :: Row(kept, 8 * b + o) != NUM_CHUNKS ==> kept[8 * b + o] == BitAt(byte, o)
  }

  lemma KeptByte(original: FoundProofs, b: nat)
    requires b < BITMAP_SIZE
    ensures ByteKept(Trimmed(Bits(original)), b, original[b])
  {
    forall o | 0 <= o < 8
      ensures Row(Trimmed(Bits(original)), 8 * b + o) != NUM_CHUNKS ==>
                Trimmed(Bits(original))[8 * b + o] == BitAt(original[b], o)
    {
      TrimmedRow(Bits(original), 8 * b + o);
      BitsAt(original, b, o);
    }
  }

  /** One s-bucket while proofs are still wanted. */
  method EncodeBit(record: array<Chunk>, parity: Record, used: bool, proofs: seq<Chunk>, s: nat, numFoundProofs: nat,
                   ghost source: Record, ghost kept: Bitmap, ghost ranked: seq<Chunk>)
    returns (next: nat)
    requires record.Length == NUM_CHUNKS && s < NUM_S_BUCKETS && used == kept[s] && numFoundProofs == Row(kept, s)
    requires ByRank(kept, proofs, ranked) && Row(kept, NUM_S_BUCKETS) <= NUM_CHUNKS
    requires EncodedBelow(record[..], source, parity, kept, ranked, s)
    modifies record
    ensures next == Row(kept, s + 1) && EncodedBelow(record[..], source, parity, kept, ranked, s + 1)
  {
    if used {
      EncodeChunk(record, parity, s, numFoundProofs, proofs[s], source, kept, ranked);
      next := numFoundProofs + 1;
    } else {
      SkipChunk(record[..], source, parity, kept, ranked, s);
      next := numFoundProofs;
    }
  }

  /** The s-buckets of byte `b`, up to the bit `o` at which enough proofs were found. */
  method EncodeBits(record: array<Chunk>, parity: Record, byte: Byte, proofs: seq<Chunk>, b: nat, start: nat,
                    ghost source: Record, ghost kept: Bitmap, ghost ranked: seq<Chunk>)
    returns (numFoundProofs: nat, o: nat)
    requires record.Length == NUM_CHUNKS && b < BITMAP_SIZE && ByteKept(kept, b, byte)
    requires ByRank(kept, proofs, ranked) && Row(kept, NUM_S_BUCKETS) <= NUM_CHUNKS
    requires start == Row(kept, 8 * b)
    requires EncodedBelow(record[..], source, parity, kept, ranked, 8 * b)
    modifies record
    ensures o <= 8 && numFoundProofs == Row(kept, 8 * b + o) && (o < 8 ==> numFoundProofs == NUM_CHUNKS)
    ensures EncodedBelow(record[..], source, parity, kept, ranked, 8 * b + o)
    ensures forall t | 8 * b <= t < 8 * b + o :: Row(kept, t) != NUM_CHUNKS
  {
    numFoundProofs := start;
    var s := 8 * b;
    o := 0;
    while o < 8
      invariant 0 <= o <= 8 && s == 8 * b + o && numFoundProofs == Row(kept, s)
      invariant EncodedBelow(record[..], source, parity, kept, ranked, s)
      invariant forall t | 8 * b <= t < s :: Row(kept, t) != NUM_CHUNKS
    {
      if numFoundProofs == NUM_CHUNKS {
        break;
      }
      assert kept[8 * b + o] == BitAt(byte, o);
      numFoundProofs := EncodeBit(record, parity, BitAt(byte, o), proofs, s, numFoundProofs, source, kept, ranked);
      s := s + 1;
      o := o + 1;
    }
  }

  /** Clears the bits of byte `b` beyond the last proof that is kept. */
  method ClearBits(found: array<Byte>, b: nat, o: nat, ghost original: FoundProofs)
    requires found.Length == BITMAP_SIZE && b < BITMAP_SIZE && o <= 8
    requires TrimmedBelow(found[..], original, Trimmed(Bits(original)), b)
    requires forall t | 8 * b <= t < 8 * b + o :: Row(Trimmed(Bits(original)), t) != NUM_CHUNKS
    requires o < 8 ==> Row(Trimmed(Bits(original)), 8 * b + o) == NUM_CHUNKS
    modifies found
    ensures TrimmedBelow(found[..], original, Trimmed(Bits(original)), b + 1)
  {
    ghost var before := found[..];
    TrimByte(before, original, b, o);
    if o < 8 {
      found[b] := Trim(found[b], o);
      assert found[..] == before[b := Trim(before[b], o)];
    }
  }

  /** Byte `b` of the bitmap. */
  method EncodeByte(record: array<Chunk>, parity: Record, byte: Byte, proofs: seq<Chunk>, b: nat, start: nat,
                    ghost source: Record, ghost kept: Bitmap, ghost ranked: seq<Chunk>)
    returns (numFoundProofs: nat, o: nat)
    requires record.Length == NUM_CHUNKS && b < BITMAP_SIZE && ByteKept(kept, b, byte)
    requires ByRank(kept, proofs, ranked) && Row(kept, NUM_S_BUCKETS) <= NUM_CHUNKS
    requires start == Row(kept, 8 * b)
    requires EncodedBelow(record[..], source, parity, kept, ranked, 8 * b)
    modifies record
    ensures o <= 8 && numFoundProofs == Row(kept, 8 * (b + 1)) && (o < 8 ==> Row(kept, 8 * b + o) == NUM_CHUNKS)
    ensures EncodedBelow(record[..], source, parity, kept, ranked, 8 * (b + 1))
    ensures forall t | 8 * b <= t < 8 * b + o :: Row(kept, t) != NUM_CHUNKS
  {
    numFoundProofs, o := EncodeBits(record, parity, byte, proofs, b, start, source, kept, ranked);
    if o < 8 { SkipRest(record[..], source, parity, kept, ranked, 8 * b + o, 8 * (b + 1)); }
  }


  /** Only the hashes of kept s-buckets matter. */
  lemma AnyRanking(encoded: Record, record: Record, parity: Record, used: Bitmap, proofs: seq<Chunk>,
                   ranked: seq<Chunk>, hashes: seq<Chunk>)
    requires Row(used, NUM_S_BUCKETS) <= NUM_CHUNKS && ByRank(used, proofs, ranked) && ByRank(used, proofs, hashes)
    requires EncodedAs(encoded, record, parity, used, ranked)
    ensures EncodedAs(encoded, record, parity, used, hashes)
  {
  }

  /** All bytes of the bitmap in turn. */
  method EncodeBytes(record: array<Chunk>, parity: Record, found: array<Byte>, proofs: seq<Chunk>,
                     ghost source: Record, ghost original: FoundProofs, ghost ranked: seq<Chunk>)
    requires record.Length == NUM_CHUNKS && found.Length == BITMAP_SIZE && found[..] == original && record[..] == source
    requires ByRank(Trimmed(Bits(original)), proofs, ranked) && Row(Trimmed(Bits(original)), NUM_S_BUCKETS) <= NUM_CHUNKS
    modifies record, found
    ensures EncodedBelow(record[..], source, parity, Trimmed(Bits(original)), ranked, NUM_S_BUCKETS)
    ensures TrimmedBelow(found[..], original, Trimmed(Bits(original)), BITMAP_SIZE)
  {
    ghost var kept := Trimmed(Bits(original));
    var numFoundProofs := 0;
    for b := 0 to BITMAP_SIZE
      invariant numFoundProofs == Row(kept, 8 * b)
      invariant EncodedBelow(record[..], source, parity, kept, ranked, 8 * b)
      invariant TrimmedBelow(found[..], original, kept, b)
    {
      KeptByte(original, b);
      var o;
      numFoundProofs, o := EncodeByte(record, parity, found[b], proofs, b, numFoundProofs, source, kept, ranked);
      ClearBits(found, b, o, original);
    }
  }

  /** The record is encoded with any arrangement of the proofs by rank. */
  lemma EncodedByRank(encoded: Record, source: Record, parity: Record, kept: Bitmap, proofs: seq<Chunk>, ranked: seq<Chunk>)
    requires Row(kept, NUM_S_BUCKETS) <= NUM_CHUNKS && ByRank(kept, proofs, ranked)
    requires EncodedBelow(encoded, source, parity, kept, ranked, NUM_S_BUCKETS)
    ensures forall hashes | ByRank(kept, proofs, hashes) ::
              EncodedAs(encoded, source, parity, kept, hashes) && MaskedBytes(encoded, source, parity, kept, hashes)
  {
    forall hashes | ByRank(kept, proofs, hashes)
      ensures EncodedAs(encoded, source, parity, kept, hashes) && MaskedBytes(encoded, source, parity, kept, hashes)
    {
      AnyRanking(encoded, source, parity, kept, proofs, ranked, hashes);
      EncodedIsMasked(encoded, source, parity, kept, hashes);
    }
  }

  /** The host loop of the GPU encoder: keeps exactly the first `NUM_CHUNKS` found proofs, clearing the
      other bits, and leaves the record as the CPU encoder would given the same proofs by rank. */
  method EncodeRecordForGpu(record: array<Chunk>, extend: Record -> Record, found: array<Byte>, proofs: seq<Chunk>)
    requires record.Length == NUM_CHUNKS && found.Length == BITMAP_SIZE && |proofs| == NUM_S_BUCKETS
    modifies record, found
    ensures Bits(found[..]) == Trimmed(Bits(old(found[..])))
    ensures Row(Bits(found[..]), NUM_S_BUCKETS) <= NUM_CHUNKS
    ensures forall hashes | ByRank(Bits(found[..]), proofs, hashes) ::
              EncodedAs(record[..], old(record[..]), extend(old(record[..])), Bits(found[..]), hashes)
              && MaskedBytes(record[..], old(record[..]), extend(old(record[..])), Bits(found[..]), hashes)
  {
    ghost var source: Record, original: FoundProofs := record[..], found[..];
    ghost var kept := Trimmed(Bits(original));
    TrimmedFits(Bits(original));
    ghost var ranked := ArrangeByRank(kept, proofs, NUM_S_BUCKETS);
    var parity := extend(record[..]);
    EncodeBytes(record, parity, found, proofs, source, original, ranked);
    TrimmedAll(found[..], original, kept);
    EncodedByRank(record[..], source, parity, kept, proofs, ranked);
  }

  /** Once enough proofs were found, no further s-bucket changes the record. */
  lemma {:induction false} SkipRest(encoded: seq<Chunk>, record: Record, parity: Record, kept: Bitmap,
                                    hashes: seq<Chunk>, s: nat, t: nat)
    requires |hashes| == NUM_CHUNKS && s <= t <= NUM_S_BUCKETS && Row(kept, s) == NUM_CHUNKS
    requires Row(kept, NUM_S_BUCKETS) <= NUM_CHUNKS
    requires EncodedBelow(encoded, record, parity, kept, hashes, s)
    ensures EncodedBelow(encoded, record, parity, kept, hashes, t)
    ensures Row(kept, t) == NUM_CHUNKS
    decreases t
  {
    if s < t {
      SkipRest(encoded, record, parity, kept, hashes, s, t - 1);
      RowMonotone(kept, t, NUM_S_BUCKETS);
      SkipChunk(encoded, record, parity, kept, hashes, t - 1);
    }
  }

  /** The encoding is determined by its specification, so both encoders produce the same record. */
  lemma EncodersAgree(a: Record, b: Record, record: Record, parity: Record, used: Bitmap, hashes: seq<Chunk>)
    requires |hashes| == NUM_CHUNKS && Row(used, NUM_S_BUCKETS) <= NUM_CHUNKS
    requires EncodedAs(a, record, parity, used, hashes) && EncodedAs(b, record, parity, used, hashes)
    ensures a == b
  {
    forall k | 0 <= k < NUM_CHUNKS ensures a[k] == b[k] {
      if k < Row(used, NUM_S_BUCKETS) {
        var s := RowSelect(used, k, NUM_S_BUCKETS);
      }
    }
  }

  // ---------- finding the proof of an s-bucket ----------

  /** Set bits of a byte below bit `o`. */
  function Low(b: Byte, o: nat): nat
    requires o <= 8
  {
    if o == 0 then 0 else Low(b, o - 1) + if BitAt(b, o - 1) then 1 else 0
  }

  function OnesBefore(f: FoundProofs, b: nat): nat
    requires b <= BITMAP_SIZE
  {
    if b == 0 then 0 else OnesBefore(f, b - 1) + Low(f[b - 1], 8)
  }

  /** `proof_index_for_s_bucket`: ones in whole bytes before, plus ones of the shifted byte. */
  function ProofIndex(f: FoundProofs, s: nat): Option<nat>
    requires s < NUM_S_BUCKETS
  {
    if !BitAt(f[s / 8], s % 8) then None
    else Some(OnesBefore(f, s / 8) + Low(Shl(f[s / 8], 8 - s % 8), 8))
  }

  lemma Doubled(c: Byte, m: Byte)
    requires m & 0x80 == 0
    ensures (c << 1) & (m << 1) != 0 <==> c & m != 0
  {
  }

  lemma MaskBelowTop(o: nat)
    requires o < 7
    ensures Shl(1, o) & 0x80 == 0
  {
    Masks();
  }

  lemma {:induction false} ShiftedBit(b: Byte, k: nat, j: nat)
    requires j < 8
    ensures BitAt(Shl(b, k), j) <==> j >= k && BitAt(b, j - k)
  {
    if k > 0 && j > 0 {
      ShiftedBit(b, k - 1, j - 1);
      MaskBelowTop(j - 1);
      Doubled(Shl(b, k - 1), Shl(1, j - 1));
    }
  }

  lemma {:induction false} ShiftedOnes(b: Byte, k: nat, j: nat)
    requires j <= 8
    ensures Low(Shl(b, k), j) == if j <= k then 0 else Low(b, j - k)
  {
    if j > 0 {
      ShiftedOnes(b, k, j - 1);
      ShiftedBit(b, k, j - 1);
    }
  }

  lemma {:induction false} RowInByte(f: FoundProofs, b: nat, o: nat)
    requires b < BITMAP_SIZE && o <= 8
    ensures Row(Bits(f), 8 * b + o) == Row(Bits(f), 8 * b) + Low(f[b], o)
  {
    if o > 0 {
      RowInByte(f, b, o - 1);
      BitsAt(f, b, o - 1);
      assert 8 * b + o - 1 == 8 * b + (o - 1);
    }
  }

  lemma {:induction false} RowByBytes(f: FoundProofs, b: nat)
    requires b <= BITMAP_SIZE
    ensures Row(Bits(f), 8 * b) == OnesBefore(f, b)
  {
    if b > 0 {
      RowByBytes(f, b - 1);
      RowInByte(f, b - 1, 8);
      assert 8 * (b - 1) + 8 == 8 * b;
    }
  }

  lemma RankByBytes(f: FoundProofs, b: nat, o: nat)
    requires b < BITMAP_SIZE && o < 8
    ensures Row(Bits(f), 8 * b + o) == OnesBefore(f, b) + Low(f[b], o)
  {
    RowInByte(f, b, o);
    assert Row(Bits(f), 8 * b) == OnesBefore(f, b) by { RowByBytes(f, b); }
  }

  /** A proof is found for exactly the set bits, and it is the one at the rank of the s-bucket. */
  lemma ProofIndexIsRank(f: FoundProofs, s: nat)
    requires s < NUM_S_BUCKETS
    ensures ProofIndex(f, s) == if Bits(f)[s] then Some(Row(Bits(f), s)) else None
  {
    RankByBytes(f, s / 8, s % 8);
    assert 8 * (s / 8) + s % 8 == s;
    ShiftedOnes(f[s / 8], 8 - s % 8, 8);
  }
}
