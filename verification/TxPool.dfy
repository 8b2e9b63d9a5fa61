/** The transaction pool as the source keeps it: fields updated in place by loops. */
module TxPool {
  import opened TxPoolModel
  import opened TxPoolProofs
  import opened Options

  /** The hashes of one more dropped root leave the pool. */
  lemma KeptOneMore(p: Pool, roots: set<BlockRoot>, r: BlockRoot)
    requires r in p.byRoot
    ensures Kept(p, roots + {r}) == Kept(p, roots) - p.byRoot[r]
  {
    forall h ensures Under(p, roots + {r}, h) <==> Under(p, roots, h) || h in p.byRoot[r] {
      if Under(p, roots, h) {
        var q :| q in roots && q in p.byRoot && h in p.byRoot[q];
        assert q in roots + {r};
      }
      if h in p.byRoot[r] { assert r in roots + {r}; }
    }
  }

  /** An unlisted root takes nothing with it. */
  lemma KeptUnlisted(p: Pool, roots: set<BlockRoot>, r: BlockRoot)
    requires r !in p.byRoot
    ensures Kept(p, roots + {r}) == Kept(p, roots)
  {
    forall h ensures Under(p, roots + {r}, h) <==> Under(p, roots, h) {
      if Under(p, roots, h) {
        var q :| q in roots && q in p.byRoot && h in p.byRoot[q];
        assert q in roots + {r};
      }
    }
  }

  lemma StaleOneMore(c: Config, p: Pool, n: BlockNumber, done: set<BlockNumber>, k: BlockNumber)
    requires k in p.byNumber
    ensures StaleRoots(c, p, n, done + {k})
            == StaleRoots(c, p, n, done) + if Allowed(c, n, k) then {} else {p.byNumber[k]}
  {
  }

  /** The pool once pruning has visited the blocks in `done`. */
  ghost function PrunedPool(c: Config, p: Pool, n: BlockNumber, done: set<BlockNumber>): Pool {
    var kept := Kept(p, StaleRoots(c, p, n, done));
    Pool(kept, SumSizes(kept), p.byRoot - StaleRoots(c, p, n, done),
         map k | k in p.byNumber && (k !in done || Allowed(c, n, k)) :: p.byNumber[k])
  }

  lemma PrunedNone(c: Config, p: Pool, n: BlockNumber)
    requires p.totalSize == SumSizes(p.transactions)
    ensures PrunedPool(c, p, n, {}) == p
  {
    assert StaleRoots(c, p, n, {}) == {};
    assert Kept(p, {}) == p.transactions;
  }

  lemma BestOfPruned(c: Config, p: Pool, n: BlockNumber, root: BlockRoot)
    ensures var q := PrunedPool(c, p, n, p.byNumber.Keys);
            BestStep(c, p, n, root)
            == Pool(CleanedAll(q.transactions, n), q.totalSize, q.byRoot[root := {}], q.byNumber[n := root])
  {
    assert PrunedPool(c, p, n, p.byNumber.Keys).byNumber == Pruned(c, p, n).1;
  }

  /** Pops entries from the front while they are at or above `n`. */
  method PopReplaced(at: seq<Authorized>, n: BlockNumber) returns (r: seq<Authorized>)
    ensures r == DropFront(at, n)
  {
    r := at;
    while r != [] && r[0].number >= n
      invariant DropFront(r, n) == DropFront(at, n)
      decreases |r|
    {
      r := r[1..];
    }
  }

  class TransactionPool {
    const config: Config
    var transactions: map<TxHash, PoolTx>
    var totalSize: nat
    var byRoot: map<BlockRoot, set<TxHash>>
    var byNumber: map<BlockNumber, BlockRoot>

    function View(): Pool
      reads this
    {
      Pool(transactions, totalSize, byRoot, byNumber)
    }

    ghost predicate Valid()
      reads this
    {
      ValidConfig(config) && Sound(config, View())
    }

    constructor (config: Config)
      requires ValidConfig(config)
      ensures Valid() && this.config == config && View() == EMPTY
    {
      this.config := config;
      transactions, totalSize, byRoot, byNumber := map[], 0, map[], map[];
    }

    method Add(h: TxHash, tx: Tx) returns (r: Option<AddError>)
      requires Valid()
      modifies this
      ensures Valid() && (View(), r) == AddStep(config, old(View()), h, tx)
    {
      AddSound(config, View(), h, tx);
      if h in transactions { return Some(AlreadyExists); }
      if tx.blockRoot !in byRoot { return Some(BlockNotFound); }
      if |transactions| == config.maxCount { return Some(TooManyTransactions); }
      if config.maxSize - totalSize < tx.size { return Some(TotalSizeTooLarge); }
      totalSize := totalSize + tx.size;
      transactions := transactions[h := PoolTx(tx, New)];
      byRoot := byRoot[tx.blockRoot := byRoot[tx.blockRoot] + {h}];
      r := None;
    }

    method MarkAuthorized(h: TxHash, number: BlockNumber, root: BlockRoot) returns (known: bool)
      requires Valid()
      modifies `transactions
      ensures Valid() && (View(), known) == MarkStep(config, old(View()), h, Authorized(number, root))
    {
      MarkSound(config, View(), h, Authorized(number, root));
      if h !in transactions { return false; }
      var details := Authorized(number, root);
      var t := transactions[h];
      match t.state {
        case New => transactions := transactions[h := t.(state := AuthorizedAt([details]))];
        case AuthorizedAt(at) =>
          var kept := at;
          if |kept| == config.historyDepth { kept := kept[..|kept| - 1]; }
          transactions := transactions[h := t.(state := AuthorizedAt([details] + kept))];
      }
      known := true;
    }

    /** The removal itself; the total must cover the transaction. */
    method Detach(h: TxHash)
      requires h in transactions && transactions[h].tx.size <= totalSize
      modifies this
      ensures View() == RemoveStep(old(View()), h)
    {
      var tx := transactions[h].tx;
      transactions := transactions - {h};
      totalSize := totalSize - tx.size;
      if tx.blockRoot in byRoot {
        var rest := byRoot[tx.blockRoot] - {h};
        byRoot := byRoot[tx.blockRoot := rest];
        if rest == {} {
          byRoot := byRoot - {tx.blockRoot};
          assert byRoot == old(byRoot) - {tx.blockRoot};
        }
      }
    }

    method RemoveSingleTx(h: TxHash)
      requires Valid()
      modifies this
      ensures Valid() && View() == Step(config, old(View()), Op.Remove(h))
    {
      StepSound(config, View(), Op.Remove(h));
      CanRemove(config, View(), h);
      if h in transactions { Detach(h); }
    }

    method Remove(hashes: seq<TxHash>)
      requires Valid()
      modifies this
      ensures Valid() && View() == Run(config, old(View()), seq(|hashes|, i requires 0 <= i < |hashes| => Op.Remove(hashes[i])))
    {
      ghost var ops := seq(|hashes|, i requires 0 <= i < |hashes| => Op.Remove(hashes[i]));
      for i := 0 to |hashes|
        invariant Valid() && Run(config, View(), ops[i..]) == Run(config, old(View()), ops)
      {
        assert ops[i..][0] == Op.Remove(hashes[i]) && ops[i..][1..] == ops[i + 1..];
        RemoveSingleTx(hashes[i]);
      }
    }

    /** Removes stored transactions together with their share of the total. */
    method DropHashes(hashes: set<TxHash>)
      requires totalSize == SumSizes(transactions)
      modifies `transactions, `totalSize
      ensures totalSize == SumSizes(transactions) && transactions == old(transactions) - hashes
    {
      var todo := hashes;
      while todo != {}
        invariant todo <= hashes && totalSize == SumSizes(transactions)
        invariant transactions == old(transactions) - (hashes - todo)
        decreases |todo|
      {
        var h :| h in todo;
        if h in transactions {
          SumWithout(transactions, h);
          totalSize := totalSize - transactions[h].tx.size;
          transactions := transactions - {h};
        }
        todo := todo - {h};
      }
      assert hashes - todo == hashes;
    }

    /** One call of the retain closure. */
    method VisitBlock(ghost p: Pool, n: BlockNumber, ghost done: set<BlockNumber>, k: BlockNumber)
      requires View() == PrunedPool(config, p, n, done) && k in p.byNumber && k !in done
      modifies this
      ensures View() == PrunedPool(config, p, n, done + {k})
    {
      StaleOneMore(config, p, n, done, k);
      var oldest := if n >= config.pruningDepth then n - config.pruningDepth else 0;
      if oldest <= k < n {
        assert StaleRoots(config, p, n, done + {k}) == StaleRoots(config, p, n, done);
        assert byNumber == PrunedPool(config, p, n, done + {k}).byNumber;
        return;
      }
      var root := byNumber[k];
      ghost var stale := StaleRoots(config, p, n, done);
      if root in byRoot {
        KeptOneMore(p, stale, root);
        var hashes := byRoot[root];
        byRoot := byRoot - {root};
        DropHashes(hashes);
      } else if root !in p.byRoot {
        KeptUnlisted(p, stale, root);
      } else {
        assert stale + {root} == stale;
      }
      byNumber := byNumber - {k};
    }

    method CleanHistories(n: BlockNumber)
      modifies `transactions
      ensures transactions == CleanedAll(old(transactions), n)
    {
      var todo := transactions.Keys;
      while todo != {}
        invariant todo <= old(transactions).Keys == transactions.Keys
        invariant forall h | h in transactions ::
                    transactions[h] == if h in todo then old(transactions)[h] else Cleaned(old(transactions)[h], n)
        decreases |todo|
      {
        var h :| h in todo;
        var t := transactions[h];
        if t.state.AuthorizedAt? {
          var at := PopReplaced(t.state.at, n);
          transactions := transactions[h := t.(state := AuthorizedAt(at))];
        }
        todo := todo - {h};
      }
    }

    method Prune(n: BlockNumber)
      requires totalSize == SumSizes(transactions)
      modifies this
      ensures View() == PrunedPool(config, old(View()), n, old(byNumber).Keys)
    {
      ghost var p := View();
      var todo := byNumber.Keys;
      PrunedNone(config, p, n);
      assert p.byNumber.Keys - todo == {};
      while todo != {}
        invariant todo <= p.byNumber.Keys && View() == PrunedPool(config, p, n, p.byNumber.Keys - todo)
        decreases |todo|
      {
        var k :| k in todo;
        VisitBlock(p, n, p.byNumber.Keys - todo, k);
        assert p.byNumber.Keys - todo + {k} == p.byNumber.Keys - (todo - {k});
        todo := todo - {k};
      }
      assert p.byNumber.Keys - todo == p.byNumber.Keys;
    }

    method AddBestBlock(n: BlockNumber, root: BlockRoot)
      requires Valid()
      modifies this
      ensures Valid() && View() == BestStep(config, old(View()), n, root)
    {
      StepSound(config, View(), Best(n, root));
      Prune(n);
      BestOfPruned(config, old(View()), n, root);
      CleanHistories(n);
      byNumber := byNumber[n := root];
      byRoot := byRoot[root := {}];
    }
  }
}
