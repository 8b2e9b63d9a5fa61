/** What holds of the transaction pool over whole runs. */
module TxPoolProofs {
  import opened TxPoolModel
  import opened Options

  datatype Op =
    | Add(h: TxHash, tx: Tx)
    | Remove(h: TxHash)
    | Mark(h: TxHash, a: Authorized)
    | Best(n: BlockNumber, root: BlockRoot)

  const EMPTY: Pool := Pool(map[], 0, map[], map[])

  /** The running total is the sum of the stored sizes, and both limits hold. */
  ghost predicate Accounted(c: Config, p: Pool) {
    p.totalSize == SumSizes(p.transactions) <= c.maxSize && |p.transactions| <= c.maxCount
  }

  /** A listed hash is stored, with that root. */
  ghost predicate HashesStored(p: Pool) {
    forall r, h | r in p.byRoot && h in p.byRoot[r] :: h in p.transactions && p.transactions[h].tx.blockRoot == r
  }

  predicate Tracked(byNumber: map<BlockNumber, BlockRoot>, r: BlockRoot) {
    exists k | k in byNumber :: byNumber[k] == r
  }

  /** A listed root belongs to a tracked block. */
  ghost predicate RootsTracked(p: Pool) {
    forall r | r in p.byRoot :: Tracked(p.byNumber, r)
  }

  /** Every stored hash is listed under its own root. */
  ghost predicate Indexed(p: Pool) {
    forall h | h in p.transactions ::
      p.transactions[h].tx.blockRoot in p.byRoot && h in p.byRoot[p.transactions[h].tx.blockRoot]
  }

  ghost predicate Sound(c: Config, p: Pool) {
    Accounted(c, p) && HashesStored(p) && RootsTracked(p)
  }

  lemma CanRemove(c: Config, p: Pool, h: TxHash)
    requires Accounted(c, p)
    ensures h in p.transactions ==> p.transactions[h].tx.size <= p.totalSize
  {
    if h in p.transactions { SumWithout(p.transactions, h); }
  }

  ghost function Step(c: Config, p: Pool, op: Op): Pool
    requires Sound(c, p)
  {
    match op
    case Add(h, tx) => AddStep(c, p, h, tx).0
    case Remove(h) => CanRemove(c, p, h); RemoveStep(p, h)
    case Mark(h, a) => MarkStep(c, p, h, a).0
    case Best(n, root) => BestStep(c, p, n, root)
  }

  lemma AddSound(c: Config, p: Pool, h: TxHash, tx: Tx)
    requires Sound(c, p)
    ensures Sound(c, AddStep(c, p, h, tx).0)
  {
    if AddStep(c, p, h, tx).1.None? {
      SumWith(p.transactions, h, PoolTx(tx, New));
    }
  }

  lemma RemoveAccounted(c: Config, p: Pool, h: TxHash)
    requires Accounted(c, p) && h in p.transactions
    ensures p.transactions[h].tx.size <= p.totalSize && Accounted(c, RemoveStep(p, h))
  {
    SumWithout(p.transactions, h);
    assert (p.transactions - {h}).Keys == p.transactions.Keys - {h};
  }

  lemma RemoveListed(p: Pool, h: TxHash)
    requires HashesStored(p) && RootsTracked(p) && h in p.transactions && p.transactions[h].tx.size <= p.totalSize
    ensures HashesStored(RemoveStep(p, h)) && RootsTracked(RemoveStep(p, h))
  {
    var p' := RemoveStep(p, h);
    forall r, g | r in p'.byRoot && g in p'.byRoot[r]
      ensures g in p'.transactions && p'.transactions[g].tx.blockRoot == r
    {
      assert r in p.byRoot && g in p.byRoot[r];
    }
  }

  lemma MarkSound(c: Config, p: Pool, h: TxHash, a: Authorized)
    requires Sound(c, p)
    ensures Sound(c, MarkStep(c, p, h, a).0)
  {
    if h in p.transactions {
      var p' := MarkStep(c, p, h, a).0;
      assert p'.transactions.Keys == p.transactions.Keys;
      SumBySizes(p.transactions, p'.transactions);
    }
  }

  lemma {:induction false} SumMonotone(a: map<TxHash, PoolTx>, b: map<TxHash, PoolTx>)
    requires a.Keys <= b.Keys && forall h | h in a :: a[h] == b[h]
    ensures SumSizes(a) <= SumSizes(b) && |a| <= |b|
    decreases |a|
  {
    if a != map[] {
      var h :| h in a;
      SumWithout(a, h);
      SumWithout(b, h);
      SumMonotone(a - {h}, b - {h});
    }
  }

  lemma BestAccounted(c: Config, p: Pool, n: BlockNumber, root: BlockRoot)
    requires Accounted(c, p)
    ensures Accounted(c, BestStep(c, p, n, root))
  {
    var kept := Kept(p, StaleRoots(c, p, n, p.byNumber.Keys));
    SumMonotone(kept, p.transactions);
    assert CleanedAll(kept, n).Keys == kept.Keys;
    SumBySizes(kept, CleanedAll(kept, n));
  }

  /** A root that is still listed after pruning belongs to a retained block. */
  lemma RetainedRoot(c: Config, p: Pool, n: BlockNumber, r: BlockRoot)
    requires RootsTracked(p) && r in Pruned(c, p, n).0
    ensures Tracked(Pruned(c, p, n).1, r)
  {
    var k :| k in p.byNumber && p.byNumber[k] == r;
    assert Pruned(c, p, n).1[k] == r;
  }

  /** A stored hash that is listed under a root is kept exactly when that root is. */
  lemma KeptWithRoot(c: Config, p: Pool, n: BlockNumber, r: BlockRoot, h: TxHash)
    requires HashesStored(p) && r in p.byRoot && h in p.byRoot[r]
    ensures h in Kept(p, StaleRoots(c, p, n, p.byNumber.Keys)) <==> r in Pruned(c, p, n).0
  {
    var roots := StaleRoots(c, p, n, p.byNumber.Keys);
    if Under(p, roots, h) {
      var q :| q in roots && q in p.byRoot && h in p.byRoot[q];
      assert p.transactions[h].tx.blockRoot == q;
      assert p.transactions[h].tx.blockRoot == r;
    }
  }

  lemma BestListed(c: Config, p: Pool, n: BlockNumber, root: BlockRoot)
    requires HashesStored(p) && RootsTracked(p)
    ensures HashesStored(BestStep(c, p, n, root)) && RootsTracked(BestStep(c, p, n, root))
  {
    var p' := BestStep(c, p, n, root);
    forall r | r in p'.byRoot ensures Tracked(p'.byNumber, r) {
      if r == root {
        assert p'.byNumber[n] == r;
      } else {
        RetainedRoot(c, p, n, r);
        var k :| k in Pruned(c, p, n).1 && Pruned(c, p, n).1[k] == r;
        assert p'.byNumber[k] == r;
      }
    }
    forall r, h | r in p'.byRoot && h in p'.byRoot[r]
      ensures h in p'.transactions && p'.transactions[h].tx.blockRoot == r
    {
      KeptWithRoot(c, p, n, r, h);
    }
  }

  /** In every run the total is the sum of the stored sizes with no underflow, both limits hold, and
      every listed hash is stored under its root. */
  lemma StepSound(c: Config, p: Pool, op: Op)
    requires Sound(c, p)
    ensures Sound(c, Step(c, p, op))
  {
    match op
    case Add(h, tx) => AddSound(c, p, h, tx);
    case Remove(h) => if h in p.transactions { RemoveAccounted(c, p, h); RemoveListed(p, h); }
    case Mark(h, a) => MarkSound(c, p, h, a);
    case Best(n, root) => BestAccounted(c, p, n, root); BestListed(c, p, n, root);
  }

  ghost function Run(c: Config, p: Pool, ops: seq<Op>): (r: Pool)
    requires Sound(c, p)
    ensures Sound(c, r)
    decreases |ops|
  {
    if ops == [] then p
    else
      StepSound(c, p, ops[0]);
      Run(c, Step(c, p, ops[0]), ops[1..])
  }

  // ---------- the indexes agree ----------

  /** Registering the root would not replace a list that still has transactions. */
  predicate Replaceable(c: Config, p: Pool, n: BlockNumber, root: BlockRoot) {
    var byRoot := Pruned(c, p, n).0;
    root !in byRoot || byRoot[root] == {}
  }

  /** The indexes still agree after a new best block exactly when its root is not registered under a
      retained block that has transactions. */
  lemma BestIndexed(c: Config, p: Pool, n: BlockNumber, root: BlockRoot)
    requires HashesStored(p) && Indexed(p)
    ensures Indexed(BestStep(c, p, n, root)) <==> Replaceable(c, p, n, root)
  {
    var p' := BestStep(c, p, n, root);
    var byRoot := Pruned(c, p, n).0;
    forall h | h in p'.transactions
      ensures var r := p'.transactions[h].tx.blockRoot; r in byRoot && h in byRoot[r]
    {
      KeptWithRoot(c, p, n, p'.transactions[h].tx.blockRoot, h);
    }
    if !Replaceable(c, p, n, root) {
      var h :| h in byRoot[root];
      KeptWithRoot(c, p, n, root, h);
      assert h in p'.transactions && h !in p'.byRoot[root];
    }
  }

  lemma StepIndexed(c: Config, p: Pool, op: Op)
    requires Sound(c, p) && Indexed(p)
    requires op.Best? ==> Replaceable(c, p, op.n, op.root)
    ensures Indexed(Step(c, p, op))
  {
    match op
    case Best(n, root) => BestIndexed(c, p, n, root);
    case Remove(h) =>
      if h in p.transactions {
        CanRemove(c, p, h);
        var p' := RemoveStep(p, h);
        forall g | g in p'.transactions
          ensures var r := p'.transactions[g].tx.blockRoot; r in p'.byRoot && g in p'.byRoot[r]
        {
          assert g in p.transactions && g != h;
        }
      }
    case _ =>
  }

  ghost predicate NeverReplaces(c: Config, p: Pool, ops: seq<Op>)
    requires Sound(c, p)
    decreases |ops|
  {
    ops == [] ||
    (&& (ops[0].Best? ==> Replaceable(c, p, ops[0].n, ops[0].root))
     && (StepSound(c, p, ops[0]); NeverReplaces(c, Step(c, p, ops[0]), ops[1..])))
  }

  /** In every run that never re-registers a root with transactions, a hash is stored exactly when it is
      in the set of its own block root. */
  lemma {:induction false} RunIndexed(c: Config, p: Pool, ops: seq<Op>)
    requires Sound(c, p) && Indexed(p) && NeverReplaces(c, p, ops)
    ensures Indexed(Run(c, p, ops)) && HashesStored(Run(c, p, ops))
    decreases |ops|
  {
    if ops != [] {
      StepSound(c, p, ops[0]);
      StepIndexed(c, p, ops[0]);
      RunIndexed(c, Step(c, p, ops[0]), ops[1..]);
    }
  }

  /** A stored hash that is on no list. */
  ghost predicate Orphan(p: Pool, h: TxHash) {
    h in p.transactions && forall r | r in p.byRoot :: h !in p.byRoot[r]
  }

  /** What replacing a list costs: its transactions stay in the pool, beyond the reach of pruning, until
      they are removed one by one. */
  lemma OrphansAreNeverPruned(c: Config, p: Pool, op: Op, h: TxHash)
    requires Sound(c, p) && Orphan(p, h) && op != Remove(h)
    ensures Orphan(Step(c, p, op), h)
  {
    if op.Remove? && op.h in p.transactions { CanRemove(c, p, op.h); }
  }

  // ---------- reorganisation and pruning ----------

  ghost function Numbers(lo: nat, hi: nat): (s: set<nat>)
    requires lo <= hi
    ensures |s| == hi - lo && forall k: nat :: k in s <==> lo <= k < hi
    decreases hi
  {
    if lo == hi then {} else Numbers(lo, hi - 1) + {hi - 1}
  }

  lemma {:induction false} SubsetSize<T>(a: set<T>, b: set<T>)
    requires a <= b
    ensures |a| <= |b|
    decreases |a|
  {
    if a != {} {
      var x :| x in a;
      SubsetSize(a - {x}, b - {x});
    }
  }

  /** The block of a listed root that survives pruning. */
  ghost predicate Anchored(c: Config, p: Pool, n: BlockNumber, r: BlockRoot) {
    exists k | k in p.byNumber :: Allowed(c, n, k) && p.byNumber[k] == r
  }

  lemma BestAnchors(c: Config, p: Pool, n: BlockNumber, root: BlockRoot, h: TxHash)
    requires HashesStored(p) && RootsTracked(p) && Indexed(p) && h in BestStep(c, p, n, root).transactions
    ensures Anchored(c, BestStep(c, p, n, root), n, p.transactions[h].tx.blockRoot)
  {
    var r := p.transactions[h].tx.blockRoot;
    KeptWithRoot(c, p, n, r, h);
    RetainedRoot(c, p, n, r);
    var k :| k in Pruned(c, p, n).1 && Pruned(c, p, n).1[k] == r;
    assert BestStep(c, p, n, root).byNumber[k] == r;
  }

  lemma BlocksBounded(c: Config, n: BlockNumber, byNumber: map<BlockNumber, BlockRoot>)
    requires forall k | k in byNumber :: k == n || Allowed(c, n, k)
    ensures |byNumber| <= c.pruningDepth + 1
  {
    var lo := if n >= c.pruningDepth then n - c.pruningDepth else 0;
    SubsetSize(byNumber.Keys, Numbers(lo, n + 1));
    assert |byNumber| == |byNumber.Keys|;
  }

  lemma BestNumbers(c: Config, p: Pool, n: BlockNumber, root: BlockRoot)
    ensures forall k | k in BestStep(c, p, n, root).byNumber :: k == n || Allowed(c, n, k)
    ensures |BestStep(c, p, n, root).byNumber| <= c.pruningDepth + 1
  {
    BlocksBounded(c, n, BestStep(c, p, n, root).byNumber);
  }

  /** After a new best block every remaining transaction is anchored to a retained block numbered within
      the pruning depth below it, and at most one block more than the depth is tracked. */
  lemma BestPrunes(c: Config, p: Pool, n: BlockNumber, root: BlockRoot)
    requires Sound(c, p) && Indexed(p)
    ensures var p' := BestStep(c, p, n, root);
            && (forall h | h in p'.transactions :: Anchored(c, p', n, p'.transactions[h].tx.blockRoot))
            && (forall k | k in p'.byNumber :: k == n || Allowed(c, n, k))
            && |p'.byNumber| <= c.pruningDepth + 1
  {
    var p' := BestStep(c, p, n, root);
    forall h | h in p'.transactions ensures Anchored(c, p', n, p'.transactions[h].tx.blockRoot) {
      BestAnchors(c, p, n, root, h);
    }
    BestNumbers(c, p, n, root);
  }

  /** Nothing recent is lost: exactly the transactions of surviving blocks stay. */
  lemma BestKeeps(c: Config, p: Pool, n: BlockNumber, root: BlockRoot, h: TxHash)
    requires HashesStored(p) && Indexed(p) && h in p.transactions
    ensures h in BestStep(c, p, n, root).transactions <==>
            (forall k | k in p.byNumber :: p.byNumber[k] == p.transactions[h].tx.blockRoot ==> Allowed(c, n, k))
  {
    var r := p.transactions[h].tx.blockRoot;
    KeptWithRoot(c, p, n, r, h);
    var stale := StaleRoots(c, p, n, p.byNumber.Keys);
    if r in stale {
      var k :| k in p.byNumber && !Allowed(c, n, k) && p.byNumber[k] == r;
    }
  }

  // ---------- authorization histories ----------

  predicate NewestFirst(at: seq<Authorized>, best: int) {
    && (forall i, j | 0 <= i < j < |at| :: at[i].number >= at[j].number)
    && (forall i | 0 <= i < |at| :: at[i].number <= best)
  }

  /** Every history is newest first, within its depth, and has nothing above the best block. */
  ghost predicate Histories(c: Config, p: Pool, best: int) {
    forall h | h in p.transactions && p.transactions[h].state.AuthorizedAt? ::
      |p.transactions[h].state.at| <= c.historyDepth && NewestFirst(p.transactions[h].state.at, best)
  }

  predicate AllBelow(at: seq<Authorized>, n: BlockNumber) {
    forall i | 0 <= i < |at| :: at[i].number < n
  }

  /** No entry at or above `n` behind one below it. */
  predicate ReplacedFirst(at: seq<Authorized>, n: BlockNumber) {
    forall i, j | 0 <= i < j < |at| :: at[j].number >= n ==> at[i].number >= n
  }

  lemma ReplacedFirstTail(at: seq<Authorized>, n: BlockNumber)
    requires at != [] && at[0].number >= n
    ensures ReplacedFirst(at, n) <==> ReplacedFirst(at[1..], n)
  {
    var tail := at[1..];
    if ReplacedFirst(tail, n) {
      forall i, j | 0 <= i < j < |at| ensures at[j].number >= n ==> at[i].number >= n {
        if i > 0 { assert tail[j - 1] == at[j] && tail[i - 1] == at[i]; }
      }
    }
    if ReplacedFirst(at, n) {
      forall i, j | 0 <= i < j < |tail| ensures tail[j].number >= n ==> tail[i].number >= n {
        assert tail[j] == at[j + 1] && tail[i] == at[i + 1];
      }
    }
  }

  /** Entries at or above `n` are all gone exactly when they were all at the front; the rest is a suffix. */
  lemma {:induction false} DropFrontExact(at: seq<Authorized>, n: BlockNumber)
    ensures AllBelow(DropFront(at, n), n) <==> ReplacedFirst(at, n)
    ensures |DropFront(at, n)| <= |at| && DropFront(at, n) == at[|at| - |DropFront(at, n)|..]
  {
    if at != [] && at[0].number >= n {
      DropFrontExact(at[1..], n);
      ReplacedFirstTail(at, n);
    } else if at != [] {
      assert at[0].number < n;
    }
  }

  lemma DropFrontNewestFirst(at: seq<Authorized>, n: BlockNumber, best: int)
    requires NewestFirst(at, best)
    ensures NewestFirst(DropFront(at, n), n - 1)
    ensures |DropFront(at, n)| <= |at|
  {
    DropFrontExact(at, n);
  }

  /** The number of the best block after an operation. */
  function BestAfter(best: int, op: Op): int {
    if op.Best? then op.n else best
  }

  /** With authorizations recorded at the current best block, histories stay newest first and bounded,
      and a new best block leaves nothing at or above it. */
  lemma StepHistories(c: Config, p: Pool, best: int, op: Op)
    requires ValidConfig(c) && Sound(c, p) && Histories(c, p, best) && (op.Mark? ==> op.a.number == best)
    ensures Histories(c, Step(c, p, op), BestAfter(best, op))
    ensures op.Best? ==> Histories(c, Step(c, p, op), op.n - 1)
  {
    match op
    case Best(n, root) =>
      var p' := BestStep(c, p, n, root);
      forall h | h in p'.transactions && p'.transactions[h].state.AuthorizedAt?
        ensures |p'.transactions[h].state.at| <= c.historyDepth && NewestFirst(p'.transactions[h].state.at, n - 1)
      {
        DropFrontNewestFirst(p.transactions[h].state.at, n, best);
      }
    case Remove(h) => if h in p.transactions { CanRemove(c, p, h); }
    case _ =>
  }

  ghost predicate MarksAtBest(ops: seq<Op>, best: int)
    decreases |ops|
  {
    ops == [] || ((ops[0].Mark? ==> ops[0].a.number == best) && MarksAtBest(ops[1..], BestAfter(best, ops[0])))
  }

  function BestOf(ops: seq<Op>, best: int): int
    decreases |ops|
  {
    if ops == [] then best else BestOf(ops[1..], BestAfter(best, ops[0]))
  }

  lemma {:induction false} RunHistories(c: Config, p: Pool, best: int, ops: seq<Op>)
    requires ValidConfig(c) && Sound(c, p) && Histories(c, p, best) && MarksAtBest(ops, best)
    ensures Histories(c, Run(c, p, ops), BestOf(ops, best))
    decreases |ops|
  {
    if ops != [] {
      StepSound(c, p, ops[0]);
      StepHistories(c, p, best, ops[0]);
      RunHistories(c, Step(c, p, ops[0]), BestAfter(best, ops[0]), ops[1..]);
    }
  }
}
