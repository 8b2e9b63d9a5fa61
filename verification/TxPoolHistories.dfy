/** What adding, authorizing and new best blocks leave of each transaction. */
module TxPoolHistories {
  import opened TxPoolModel
  import opened TxPoolProofs
  import opened Options

  // ---------- adding ----------

  /** Exactly when each answer is given, in order of precedence. */
  lemma AddAnswers(c: Config, p: Pool, h: TxHash, tx: Tx)
    requires Accounted(c, p)
    ensures var r := AddStep(c, p, h, tx).1;
            && (r == Some(AlreadyExists) <==> h in p.transactions)
            && (r == Some(BlockNotFound) <==> h !in p.transactions && tx.blockRoot !in p.byRoot)
            && (r == Some(TooManyTransactions) <==>
                  h !in p.transactions && tx.blockRoot in p.byRoot && |p.transactions| >= c.maxCount)
            && (r == Some(TotalSizeTooLarge) <==>
                  h !in p.transactions && tx.blockRoot in p.byRoot && |p.transactions| < c.maxCount
                  && SumSizes(p.transactions) + tx.size > c.maxSize)
  {
  }

  /** An accepted transaction is stored without authorizations and listed under its block; a refused one
      changes nothing, and neither touches any other transaction. */
  lemma AddStores(c: Config, p: Pool, h: TxHash, tx: Tx)
    ensures var (p', r) := AddStep(c, p, h, tx);
            && (r.Some? ==> p' == p)
            && (r.None? ==>
                  && p'.transactions.Keys == p.transactions.Keys + {h} && p'.transactions[h] == PoolTx(tx, New)
                  && tx.blockRoot in p'.byRoot && h in p'.byRoot[tx.blockRoot] && p'.byNumber == p.byNumber)
            && forall g | g in p.transactions && g != h :: g in p'.transactions && p'.transactions[g] == p.transactions[g]
  {
  }

  // ---------- authorizing ----------

  /** The authorizations of a transaction, newest first. */
  function Entries(t: PoolTx): seq<Authorized> {
    match t.state
    case New => []
    case AuthorizedAt(at) => at
  }

  /** The first `n` entries, or all of them. */
  function Newest(at: seq<Authorized>, n: nat): seq<Authorized> {
    if |at| <= n then at else at[..n]
  }

  /** Authorizing a transaction puts it in front of its history, cut to the depth, and changes nothing
      else of it or of the pool. */
  lemma MarkExactly(c: Config, p: Pool, h: TxHash, a: Authorized)
    requires ValidConfig(c) && (h in p.transactions ==> |Entries(p.transactions[h])| <= c.historyDepth)
    ensures var (p', known) := MarkStep(c, p, h, a);
            && (known <==> h in p.transactions)
            && p' == p.(transactions := p'.transactions) && p'.transactions.Keys == p.transactions.Keys
            && (forall g | g in p.transactions ::
                  && p'.transactions[g].tx == p.transactions[g].tx
                  && (g != h ==> p'.transactions[g] == p.transactions[g]))
            && (h in p.transactions ==>
                  && p'.transactions[h].state.AuthorizedAt?
                  && Entries(p'.transactions[h]) == Newest([a] + Entries(p.transactions[h]), c.historyDepth))
  {
    if h in p.transactions {
      var at := Entries(p.transactions[h]);
      if |at| == c.historyDepth { assert ([a] + at)[..c.historyDepth] == [a] + at[..|at| - 1]; }
    }
  }

  /** The authorizations that a run records for a transaction, newest first. */
  function MarksOf(ops: seq<Op>, h: TxHash): seq<Authorized>
    decreases |ops|
  {
    if ops == [] then []
    else MarksOf(ops[1..], h) + if ops[0].Mark? && ops[0].h == h then [ops[0].a] else []
  }

  /** No new best block, and the transaction itself is not removed. */
  predicate Undisturbed(ops: seq<Op>, h: TxHash) {
    forall k | 0 <= k < |ops| :: !ops[k].Best? && ops[k] != Remove(h)
  }

  lemma OtherStep(c: Config, p: Pool, op: Op, h: TxHash)
    requires Sound(c, p) && h in p.transactions && !op.Best? && op != Remove(h) && !(op.Mark? && op.h == h)
    ensures h in Step(c, p, op).transactions && Step(c, p, op).transactions[h] == p.transactions[h]
  {
    if op.Remove? { CanRemove(c, p, op.h); }
  }

  lemma NewestTwice(a: seq<Authorized>, b: seq<Authorized>, n: nat)
    ensures Newest(a + Newest(b, n), n) == Newest(a + b, n)
  {
    if |b| > n {
      assert (a + b[..n])[..n] == (a + b)[..n];
    }
  }

  lemma NewestMore(marks: seq<Authorized>, a: Authorized, at: seq<Authorized>, n: nat)
    ensures Newest(marks + Newest([a] + at, n), n) == Newest(marks + [a] + at, n)
  {
    NewestTwice(marks, [a] + at, n);
    assert marks + ([a] + at) == marks + [a] + at;
  }

  /** Over any run without a new best block the history of a stored transaction is the list of its own
      authorizations, newest first, before what it had at the start, cut to the depth. */
  lemma {:induction false} HistoryIsItsMarks(c: Config, p: Pool, ops: seq<Op>, h: TxHash)
    requires ValidConfig(c) && Sound(c, p) && h in p.transactions && Undisturbed(ops, h)
    requires |Entries(p.transactions[h])| <= c.historyDepth
    ensures h in Run(c, p, ops).transactions && Run(c, p, ops).transactions[h].tx == p.transactions[h].tx
    ensures Entries(Run(c, p, ops).transactions[h])
            == Newest(MarksOf(ops, h) + Entries(p.transactions[h]), c.historyDepth)
    decreases |ops|
  {
    if ops != [] {
      StepSound(c, p, ops[0]);
      var p' := Step(c, p, ops[0]);
      var rest := ops[1..];
      assert Undisturbed(rest, h);
      if ops[0].Mark? && ops[0].h == h {
        MarkExactly(c, p, h, ops[0].a);
        HistoryIsItsMarks(c, p', rest, h);
        NewestMore(MarksOf(rest, h), ops[0].a, Entries(p.transactions[h]), c.historyDepth);
      } else {
        OtherStep(c, p, ops[0], h);
        HistoryIsItsMarks(c, p', rest, h);
        assert MarksOf(ops, h) == MarksOf(rest, h);
      }
    } else {
      assert [] + Entries(p.transactions[h]) == Entries(p.transactions[h]);
    }
  }

  // ---------- a new best block ----------

  /** The longest front of entries at or above the block, and what is behind it. */
  ghost predicate FrontTakenOff(at: seq<Authorized>, n: BlockNumber, rest: seq<Authorized>) {
    exists k: nat ::
      && k <= |at| && rest == at[k..]
      && (forall i | 0 <= i < k :: at[i].number >= n)
      && (k < |at| ==> at[k].number < n)
  }

  lemma {:induction false} DropFrontTakesFront(at: seq<Authorized>, n: BlockNumber) returns (k: nat)
    ensures k <= |at| && DropFront(at, n) == at[k..]
    ensures (forall i | 0 <= i < k :: at[i].number >= n) && (k < |at| ==> at[k].number < n)
  {
    if at == [] || at[0].number < n {
      k := 0;
    } else {
      var l := DropFrontTakesFront(at[1..], n);
      k := l + 1;
      assert forall i | 0 < i < |at| :: at[i] == at[1..][i - 1];
    }
  }

  /** A new best block leaves every kept transaction as it was but for the front entries of its history
      at or above the block, which it takes off. */
  lemma BestTakesFront(c: Config, p: Pool, n: BlockNumber, root: BlockRoot, h: TxHash)
    requires h in BestStep(c, p, n, root).transactions
    ensures h in p.transactions
    ensures var t, t' := p.transactions[h], BestStep(c, p, n, root).transactions[h];
            && t'.tx == t.tx && (t'.state.New? <==> t.state.New?)
            && FrontTakenOff(Entries(t), n, Entries(t'))
  {
    var k := DropFrontTakesFront(Entries(p.transactions[h]), n);
  }

  // ---------- the depth ----------

  predicate Bounded(c: Config, p: Pool) {
    forall h | h in p.transactions :: |Entries(p.transactions[h])| <= c.historyDepth
  }

  lemma StepBounded(c: Config, p: Pool, op: Op)
    requires ValidConfig(c) && Sound(c, p) && Bounded(c, p)
    ensures Bounded(c, Step(c, p, op))
  {
    var p' := Step(c, p, op);
    forall h | h in p'.transactions ensures |Entries(p'.transactions[h])| <= c.historyDepth {
      match op
      case Mark(g, a) => MarkExactly(c, p, g, a);
      case Best(n, root) => BestTakesFront(c, p, n, root, h);
      case Add(g, tx) => AddStores(c, p, g, tx);
      case Remove(g) =>
    }
  }

  /** No run, whatever it authorizes, makes a history longer than the depth. */
  lemma {:induction false} RunBounded(c: Config, p: Pool, ops: seq<Op>)
    requires ValidConfig(c) && Sound(c, p) && Bounded(c, p)
    ensures Bounded(c, Run(c, p, ops))
    decreases |ops|
  {
    if ops != [] {
      StepSound(c, p, ops[0]);
      StepBounded(c, p, ops[0]);
      RunBounded(c, Step(c, p, ops[0]), ops[1..]);
    }
  }
}
