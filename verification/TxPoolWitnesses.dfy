/** When a tracked block still accepts transactions, and short runs from an empty pool in which the
    indexes drift apart. */
module TxPoolWitnesses {
  import opened TxPoolModel
  import opened TxPoolProofs
  import opened Options

  /** The stored transactions that were created at a block. */
  function TransactionsOf(p: Pool, r: BlockRoot): set<TxHash> {
    set h | h in p.transactions && p.transactions[h].tx.blockRoot == r
  }

  /** Whether a block root accepts transactions after an operation: registering it opens it, pruning it or
      removing its last transaction closes it. */
  predicate OpenAfter(c: Config, p: Pool, r: BlockRoot, open: bool, op: Op) {
    match op
    case Best(n, root) => root == r || (open && r !in StaleRoots(c, p, n, p.byNumber.Keys))
    case Remove(h) => open && TransactionsOf(p, r) != {h}
    case _ => open
  }

  lemma ListedAreStored(p: Pool, r: BlockRoot)
    requires HashesStored(p) && Indexed(p) && r in p.byRoot
    ensures p.byRoot[r] == TransactionsOf(p, r)
  {
  }

  lemma OpenStep(c: Config, p: Pool, op: Op, r: BlockRoot)
    requires Sound(c, p) && Indexed(p)
    ensures r in Step(c, p, op).byRoot <==> OpenAfter(c, p, r, r in p.byRoot, op)
  {
    if op.Remove? {
      CanRemove(c, p, op.h);
      if r in p.byRoot { ListedAreStored(p, r); }
    }
  }

  /** Whether a block root accepts transactions after a run. */
  ghost predicate OpenAfterAll(c: Config, p: Pool, r: BlockRoot, open: bool, ops: seq<Op>)
    requires Sound(c, p)
    decreases |ops|
  {
    if ops == [] then open
    else
      StepSound(c, p, ops[0]);
      OpenAfterAll(c, Step(c, p, ops[0]), r, OpenAfter(c, p, r, open, ops[0]), ops[1..])
  }

  /** In every run without replacements a block accepts transactions exactly while it is open: a block
      that is still tracked refuses them once its last transaction was removed. */
  lemma {:induction false} AcceptsWhileOpen(c: Config, p: Pool, ops: seq<Op>, r: BlockRoot)
    requires Sound(c, p) && Indexed(p) && NeverReplaces(c, p, ops)
    ensures r in Run(c, p, ops).byRoot <==> OpenAfterAll(c, p, r, r in p.byRoot, ops)
    decreases |ops|
  {
    if ops != [] {
      StepSound(c, p, ops[0]);
      StepIndexed(c, p, ops[0]);
      OpenStep(c, p, ops[0], r);
      AcceptsWhileOpen(c, Step(c, p, ops[0]), ops[1..], r);
    }
  }

  // ---------- from an empty pool ----------

  function WithBlock(n: BlockNumber, r: BlockRoot): Pool {
    Pool(map[], 0, map[r := {}], map[n := r])
  }

  function WithOne(n: BlockNumber, r: BlockRoot, h: TxHash): Pool {
    Pool(map[h := PoolTx(Tx(r, 1), New)], 1, map[r := {h}], map[n := r])
  }

  lemma FirstBlock(c: Config, r: BlockRoot)
    ensures BestStep(c, EMPTY, 1, r) == WithBlock(1, r)
  {
    var p := BestStep(c, EMPTY, 1, r);
    assert Kept(EMPTY, StaleRoots(c, EMPTY, 1, {})) == map[];
    assert p.transactions == map[] && p.byRoot == map[r := {}] && p.byNumber == map[1 := r];
  }

  lemma FirstTransaction(c: Config, r: BlockRoot, h: TxHash)
    requires ValidConfig(c)
    ensures AddStep(c, WithBlock(1, r), h, Tx(r, 1)) == (WithOne(1, r, h), None)
  {
    assert map[r := {}][r := {} + {h}] == map[r := {h}];
  }

  /** Registering the root again at the next block loses the list of its transaction. */
  lemma OrphanFromEmpty(c: Config, r: BlockRoot, h: TxHash)
    requires ValidConfig(c)
    ensures BestStep(c, EMPTY, 1, r) == WithBlock(1, r)
    ensures AddStep(c, WithBlock(1, r), h, Tx(r, 1)) == (WithOne(1, r, h), None)
    ensures Orphan(BestStep(c, WithOne(1, r, h), 2, r), h)
  {
    FirstBlock(c, r);
    FirstTransaction(c, r, h);
    var p := WithOne(1, r, h);
    assert Allowed(c, 2, 1);
    assert StaleRoots(c, p, 2, p.byNumber.Keys) == {};
    assert h in Kept(p, {});
  }

  /** Removing the only transaction of the best block makes the pool refuse that block. */
  lemma ClosedFromEmpty(c: Config, r: BlockRoot, h: TxHash, h': TxHash)
    requires ValidConfig(c)
    ensures BestStep(c, EMPTY, 1, r) == WithBlock(1, r)
    ensures AddStep(c, WithBlock(1, r), h, Tx(r, 1)) == (WithOne(1, r, h), None)
    ensures var p := RemoveStep(WithOne(1, r, h), h);
            Tracked(p.byNumber, r) && AddStep(c, p, h', Tx(r, 1)).1 == Some(BlockNotFound)
  {
    FirstBlock(c, r);
    FirstTransaction(c, r, h);
    assert RemoveStep(WithOne(1, r, h), h).byNumber[1] == r;
  }
}
