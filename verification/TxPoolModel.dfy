/** The transaction pool as a value: three cross-indexed maps and a running total. */
module TxPoolModel {
  import opened Options

  type TxHash = nat
  type BlockRoot = nat
  type BlockNumber = nat

  datatype Tx = Tx(blockRoot: BlockRoot, size: nat)
  datatype Authorized = Authorized(number: BlockNumber, root: BlockRoot)
  /** `None` until the transaction is authorized for the first time. */
  datatype TxState = New | AuthorizedAt(at: seq<Authorized>)
  datatype PoolTx = PoolTx(tx: Tx, state: TxState)

  datatype Config = Config(pruningDepth: nat, historyDepth: nat, maxCount: nat, maxSize: nat)

  /** All parameters are non-zero. */
  predicate ValidConfig(c: Config) {
    c.pruningDepth > 0 && c.historyDepth > 0 && c.maxCount > 0 && c.maxSize > 0
  }

  datatype Pool = Pool(
    transactions: map<TxHash, PoolTx>,
    totalSize: nat,
    byRoot: map<BlockRoot, set<TxHash>>,
    byNumber: map<BlockNumber, BlockRoot>)

  datatype AddError = AlreadyExists | BlockNotFound | TooManyTransactions | TotalSizeTooLarge
  /** Sum of the sizes of all stored transactions. */
  ghost function SumSizes(txs: map<TxHash, PoolTx>): nat
    decreases |txs|
  {
    if txs == map[] then 0
    else
      var h :| h in txs;
      txs[h].tx.size + SumSizes(txs - {h})
  }

  lemma {:induction false} SumWithout(txs: map<TxHash, PoolTx>, h: TxHash)
    requires h in txs
    ensures SumSizes(txs) == txs[h].tx.size + SumSizes(txs - {h})
    decreases |txs|
  {
    var g :| g in txs && SumSizes(txs) == txs[g].tx.size + SumSizes(txs - {g});
    if g != h {
      SumWithout(txs - {g}, h);
      SumWithout(txs - {h}, g);
      assert txs - {g} - {h} == txs - {h} - {g};
    }
  }

  lemma SumWith(txs: map<TxHash, PoolTx>, h: TxHash, t: PoolTx)
    requires h !in txs
    ensures SumSizes(txs[h := t]) == t.tx.size + SumSizes(txs)
  {
    SumWithout(txs[h := t], h);
    assert txs[h := t] - {h} == txs;
  }

  /** Sizes are all that counts. */
  lemma {:induction false} SumBySizes(a: map<TxHash, PoolTx>, b: map<TxHash, PoolTx>)
    requires a.Keys == b.Keys && forall h | h in a :: a[h].tx == b[h].tx
    ensures SumSizes(a) == SumSizes(b)
    decreases |a|
  {
    if a != map[] {
      var h :| h in a;
      SumWithout(a, h);
      SumWithout(b, h);
      SumBySizes(a - {h}, b - {h});
    } else {
      assert b == map[];
    }
  }

  // ---------- operations ----------

  function AddStep(c: Config, p: Pool, h: TxHash, tx: Tx): (Pool, Option<AddError>) {
    if h in p.transactions then (p, Some(AlreadyExists))
    else if tx.blockRoot !in p.byRoot then (p, Some(BlockNotFound))
    else if |p.transactions| == c.maxCount then (p, Some(TooManyTransactions))
    else if c.maxSize - p.totalSize < tx.size then (p, Some(TotalSizeTooLarge))
    else (Pool(p.transactions[h := PoolTx(tx, New)],
               p.totalSize + tx.size,
               p.byRoot[tx.blockRoot := p.byRoot[tx.blockRoot] + {h}],
               p.byNumber), None)
  }

  /** The total before a removal covers the transaction, or the subtraction underflows. */
  function RemoveStep(p: Pool, h: TxHash): Pool
    requires h in p.transactions ==> p.transactions[h].tx.size <= p.totalSize
  {
    if h !in p.transactions then p
    else
      var tx := p.transactions[h].tx;
      var byRoot :=
        if tx.blockRoot !in p.byRoot then p.byRoot
        else if p.byRoot[tx.blockRoot] - {h} == {} then p.byRoot - {tx.blockRoot}
        else p.byRoot[tx.blockRoot := p.byRoot[tx.blockRoot] - {h}];
      Pool(p.transactions - {h}, p.totalSize - tx.size, byRoot, p.byNumber)
  }

  function Marked(c: Config, st: TxState, a: Authorized): TxState {
    match st
    case New => AuthorizedAt([a])
    case AuthorizedAt(at) =>
      AuthorizedAt([a] + if |at| == c.historyDepth && at != [] then at[..|at| - 1] else at)
  }

  function MarkStep(c: Config, p: Pool, h: TxHash, a: Authorized): (Pool, bool) {
    if h !in p.transactions then (p, false)
    else
      var t := p.transactions[h];
      (p.(transactions := p.transactions[h := PoolTx(t.tx, Marked(c, t.state, a))]), true)
  }

  /** Blocks that survive a new best block. */
  predicate Allowed(c: Config, n: BlockNumber, k: BlockNumber) {
    (if n >= c.pruningDepth then n - c.pruningDepth else 0) <= k < n
  }

  /** Roots of the blocks among `numbers` that do not survive. */
  function StaleRoots(c: Config, p: Pool, n: BlockNumber, numbers: set<BlockNumber>): set<BlockRoot> {
    set k | k in numbers && k in p.byNumber && !Allowed(c, n, k) :: p.byNumber[k]
  }

  /** Listed under one of the given roots. */
  predicate Under(p: Pool, roots: set<BlockRoot>, h: TxHash) {
    exists r | r in roots :: r in p.byRoot && h in p.byRoot[r]
  }

  function Kept(p: Pool, roots: set<BlockRoot>): map<TxHash, PoolTx> {
    map h | h in p.transactions && !Under(p, roots, h) :: p.transactions[h]
  }

  /** Authorizations at the front that belong to replaced blocks. */
  function DropFront(at: seq<Authorized>, n: BlockNumber): seq<Authorized> {
    if at == [] || at[0].number < n then at else DropFront(at[1..], n)
  }

  function Cleaned(t: PoolTx, n: BlockNumber): PoolTx {
    match t.state
    case New => t
    case AuthorizedAt(at) => PoolTx(t.tx, AuthorizedAt(DropFront(at, n)))
  }

  function CleanedAll(txs: map<TxHash, PoolTx>, n: BlockNumber): map<TxHash, PoolTx> {
    map h | h in txs :: Cleaned(txs[h], n)
  }

  /** The block indexes after pruning, before the new block is registered. */
  function Pruned(c: Config, p: Pool, n: BlockNumber): (map<BlockRoot, set<TxHash>>, map<BlockNumber, BlockRoot>) {
    (p.byRoot - StaleRoots(c, p, n, p.byNumber.Keys),
     map k | k in p.byNumber && Allowed(c, n, k) :: p.byNumber[k])
  }

  ghost function BestStep(c: Config, p: Pool, n: BlockNumber, root: BlockRoot): Pool {
    var kept := Kept(p, StaleRoots(c, p, n, p.byNumber.Keys));
    var (byRoot, byNumber) := Pruned(c, p, n);
    Pool(CleanedAll(kept, n), SumSizes(kept), byRoot[root := {}], byNumber[n := root])
  }
}
