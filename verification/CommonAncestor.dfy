/** Walking two chains down to where they meet: FindCommonAncestor of core/database_util.go and the
    branch walk with which TxPool.reset of core/tx_pool.go collects transactions to reinject. */
module CommonAncestor {
  import opened Types
  import opened ChainTree

  /** No stored header has a negative number. */
  ghost predicate Grounded(db: Store) {
    Keyed(db) && forall k :: k in db ==> k.number >= 0
  }

  /** Both chains pass through the same header at number n. */
  ghost predicate Meet(db: Store, a: Header, b: Header, n: int)
    requires Keyed(db)
  {
    && Ancestor(db, a, n).Some? && Ancestor(db, b, n).Some?
    && Ancestor(db, a, n).value.hash == Ancestor(db, b, n).value.hash
  }

  /** The chains meet at n and nowhere above. */
  ghost predicate Highest(db: Store, a: Header, b: Header, n: int)
    requires Keyed(db)
  {
    Meet(db, a, b, n) && forall m :: m > n ==> !Meet(db, a, b, m)
  }

  /** The header x is where the walk down from a has got to. */
  ghost predicate At(db: Store, a: Header, x: Header)
    requires Keyed(db)
  {
    x.number <= a.number && x.number >= 0 && Ancestor(db, a, x.number) == Some(x)
  }

  lemma AtStart(db: Store, a: Header)
    requires Keyed(db) && a.number >= 0
    ensures At(db, a, a)
  {
  }

  /** One step down: either to the parent, or off the end of what is stored. */
  lemma StepDown(db: Store, a: Header, x: Header)
    requires Grounded(db) && At(db, a, x)
    ensures var p := Get(db, x.parent, x.number - 1);
            && (p.Some? ==> At(db, a, p.value) && p.value.number == x.number - 1)
            && (p.None? ==> forall m :: m < x.number ==> Ancestor(db, a, m).None?)
  {
    var p := Get(db, x.parent, x.number - 1);
    if p.Some? {
      AncestorParent(db, a, x.number);
    } else {
      forall m | m < x.number
        ensures Ancestor(db, a, m).None?
      {
        AncestorChain(db, a, x.number, m);
      }
    }
  }

  lemma NoMeetAbove(db: Store, a: Header, b: Header)
    requires Keyed(db)
    ensures forall m :: m > Smaller(a.number, b.number) ==> !Meet(db, a, b, m)
  {
    forall m | m > Smaller(a.number, b.number)
      ensures !Meet(db, a, b, m)
    {
      AncestorNumber(db, a, m);
      AncestorNumber(db, b, m);
    }
  }

  function Smaller(a: int, b: int): int { if a < b then a else b }

  /** Walks down from a to number n. */
  method Descend(db: Store, ghost top: Header, a: Header, n: int) returns (r: Option<Header>)
    requires Grounded(db) && At(db, top, a) && 0 <= n <= a.number
    ensures r == Ancestor(db, top, n)
    ensures r.Some? ==> At(db, top, r.value) && r.value.number == n
    ensures r.None? ==> forall m :: m <= n ==> Ancestor(db, top, m).None?
  {
    var x := a;
    while x.number > n
      invariant At(db, top, x) && n <= x.number
      decreases x.number
    {
      StepDown(db, top, x);
      var p := Get(db, x.parent, x.number - 1);
      if p.None? { return None; }
      x := p.value;
    }
    r := Some(x);
  }

  /** The highest header on both chains, or none when they meet nowhere in the database. */
  method FindCommonAncestor(db: Store, a: Header, b: Header) returns (r: Option<Header>)
    requires Grounded(db) && a.number >= 0 && b.number >= 0
    ensures r.Some? ==> Highest(db, a, b, r.value.number) && Ancestor(db, a, r.value.number) == r
    ensures r.None? ==> forall n :: !Meet(db, a, b, n)
  {
    hide Ancestor;
    AtStart(db, a);
    AtStart(db, b);
    NoMeetAbove(db, a, b);
    var x := Descend(db, a, a, Smaller(a.number, b.number));
    if x.None? { return None; }
    var y := Descend(db, b, b, x.value.number);
    if y.None? { return None; }
    while x.value.hash != y.value.hash
      invariant x.Some? && y.Some? && At(db, a, x.value) && At(db, b, y.value) && x.value.number == y.value.number
      invariant forall m :: m > x.value.number ==> !Meet(db, a, b, m)
      decreases x.value.number
    {
      StepDown(db, a, x.value);
      StepDown(db, b, y.value);
      ghost var n := x.value.number;
      assert !Meet(db, a, b, n);
      x := Get(db, x.value.parent, x.value.number - 1);
      if x.None? { return None; }
      y := Get(db, y.value.parent, y.value.number - 1);
      if y.None? { return None; }
    }
    r := x;
  }

  // ---------- the transactions of two branches ----------

  /** The transactions of the chain of h above number n, top block first. */
  ghost function BranchTxs(db: Store, h: Header, n: int): seq<TxHash>
    requires Keyed(db)
    decreases h.number - n
  {
    if h.number <= n then []
    else
      var p := Get(db, h.parent, h.number - 1);
      h.txs + (if p.None? then [] else BranchTxs(db, p.value, n))
  }

  /** What the branch collects down to a block it passes through. */
  lemma {:induction false} BranchSplit(db: Store, h: Header, m: int, n: int)
    requires Keyed(db) && n <= m && Ancestor(db, h, m).Some?
    ensures BranchTxs(db, h, n) == BranchTxs(db, h, m) + BranchTxs(db, Ancestor(db, h, m).value, n)
    decreases h.number - m
  {
    if h.number > m {
      var p := Get(db, h.parent, h.number - 1).value;
      BranchSplit(db, p, m, n);
      assert h.txs + (BranchTxs(db, p, m) + BranchTxs(db, Ancestor(db, p, m).value, n))
          == h.txs + BranchTxs(db, p, m) + BranchTxs(db, Ancestor(db, p, m).value, n);
    }
  }

  /** Collecting one more block extends the branch by one number. */
  lemma BranchStep(db: Store, a: Header, x: Header)
    requires Keyed(db) && At(db, a, x)
    ensures BranchTxs(db, a, x.number - 1) == BranchTxs(db, a, x.number) + x.txs
  {
    BranchSplit(db, a, x.number, x.number - 1);
    var p := Get(db, x.parent, x.number - 1);
    assert BranchTxs(db, x, x.number - 1) == x.txs + [];
  }

  /** Some block of the chain of h above number n carries tx. */
  ghost predicate OnBranch(db: Store, h: Header, n: int, tx: TxHash)
    requires Keyed(db)
  {
    exists m :: m > n && Carries(db, h, m, tx)
  }

  ghost predicate Carries(db: Store, h: Header, m: int, tx: TxHash)
    requires Keyed(db)
  {
    Ancestor(db, h, m).Some? && tx in Ancestor(db, h, m).value.txs
  }

  /** The collected transactions are exactly those carried above n. */
  lemma {:induction false} BranchMember(db: Store, h: Header, n: int, tx: TxHash)
    requires Keyed(db)
    ensures tx in BranchTxs(db, h, n) <==> OnBranch(db, h, n, tx)
    decreases h.number - n
  {
    if h.number <= n {
      forall m | m > n
        ensures !Carries(db, h, m, tx)
      {
        AncestorNumber(db, h, m);
      }
    } else {
      var p := Get(db, h.parent, h.number - 1);
      if p.Some? { BranchMember(db, p.value, n, tx); }
      if tx in h.txs { assert Carries(db, h, h.number, tx); }
      forall m
        ensures Carries(db, h, m, tx) <==> (m == h.number && tx in h.txs) || (p.Some? && Carries(db, p.value, m, tx))
      {
        if p.Some? { AncestorNumber(db, p.value, m); }
      }
    }
  }

  /** What is kept of a, in order, at exactly the positions where it holds nothing of b. */
  ghost predicate Picks(at: seq<nat>, keep: seq<TxHash>, a: seq<TxHash>, b: seq<TxHash>) {
    && |at| == |keep| && (forall k :: 0 <= k < |at| ==> at[k] < |a| && keep[k] == a[at[k]])
    && (forall j, k :: 0 <= j < k < |at| ==> at[j] < at[k])
    && (forall i :: 0 <= i < |a| ==> (i in at <==> a[i] !in b))
  }

  /** The transactions of a that do not occur in b, in order. */
  method TxDifference(a: seq<TxHash>, b: seq<TxHash>) returns (keep: seq<TxHash>, ghost at: seq<nat>)
    ensures Picks(at, keep, a, b) && forall tx :: tx in keep <==> tx in a && tx !in b
  {
    keep, at := [], [];
    var remove := {};
    for i := 0 to |b|
      invariant forall tx :: tx in remove <==> tx in b[..i]
    {
      remove := remove + {b[i]};
    }
    for i := 0 to |a|
      invariant Picks(at, keep, a[..i], b)
    {
      PicksNext(at, keep, a, i, b);
      if a[i] !in remove {
        keep, at := keep + [a[i]], at + [i];
      }
    }
    assert a[..|a|] == a;
    forall tx
      ensures tx in keep <==> tx in a && tx !in b
    {
      PicksMembers(at, keep, a, b, tx);
    }
  }

  lemma PicksNext(at: seq<nat>, keep: seq<TxHash>, a: seq<TxHash>, i: nat, b: seq<TxHash>)
    requires i < |a| && Picks(at, keep, a[..i], b)
    ensures if a[i] in b then Picks(at, keep, a[..i + 1], b) else Picks(at + [i], keep + [a[i]], a[..i + 1], b)
  {
    var more := a[..i + 1];
    assert more == a[..i] + [a[i]];
    assert forall j :: j in at ==> j < i;
    if a[i] !in b {
      assert forall j :: j in at + [i] <==> j in at || j == i;
    }
  }

  lemma PicksMembers(at: seq<nat>, keep: seq<TxHash>, a: seq<TxHash>, b: seq<TxHash>, tx: TxHash)
    requires Picks(at, keep, a, b)
    ensures tx in keep <==> tx in a && tx !in b
  {
    if tx in keep {
      var k :| 0 <= k < |keep| && keep[k] == tx;
      assert at[k] in at;
    }
    if tx in a && tx !in b {
      var i :| 0 <= i < |a| && a[i] == tx;
      var k :| 0 <= k < |at| && at[k] == i;
      assert keep[k] == tx;
    }
  }

  datatype Reinject = DeepReorg | Unrooted | Txs(txs: seq<TxHash>)

  const MAX_REORG_DEPTH := 64

  /** The collecting walk down a single branch to number n. */
  method Collect(db: Store, ghost top: Header, a: Header, n: int, start: seq<TxHash>) returns (r: Option<Header>,
      txs: seq<TxHash>)
    requires Grounded(db) && At(db, top, a) && 0 <= n <= a.number && start == BranchTxs(db, top, a.number)
    ensures r == Ancestor(db, top, n)
    ensures r.Some? ==> At(db, top, r.value) && r.value.number == n && txs == BranchTxs(db, top, n)
    ensures r.None? ==> forall m :: m <= n ==> Ancestor(db, top, m).None?
  {
    var x := a;
    txs := start;
    while x.number > n
      invariant At(db, top, x) && n <= x.number && txs == BranchTxs(db, top, x.number)
      decreases x.number
    {
      StepDown(db, top, x);
      BranchStep(db, top, x);
      txs := txs + x.txs;
      var p := Get(db, x.parent, x.number - 1);
      if p.None? { return None, txs; }
      x := p.value;
    }
    r := Some(x);
  }

  /** The transactions to put back into the pool when the head moves from oldHead to newHead: those of
      the old branch above the common ancestor that the new branch does not contain. */
  method ReinjectWalk(db: Store, oldHead: Header, newHead: Header) returns (r: Reinject)
    requires Grounded(db) && oldHead.number >= 0 && newHead.number >= 0
    ensures r == DeepReorg <==> oldHead.number - newHead.number > 64 || newHead.number - oldHead.number > 64
    ensures r == Unrooted ==> forall n :: !Meet(db, oldHead, newHead, n)
    ensures r.Txs? ==> exists n ::
              Highest(db, oldHead, newHead, n) && IsBranchDifference(db, oldHead, newHead, n, r.txs)
  {
    hide Ancestor, BranchTxs, OnBranch, Picks;
    if Gap(oldHead.number, newHead.number) > MAX_REORG_DEPTH { return DeepReorg; }
    AtStart(db, oldHead);
    AtStart(db, newHead);
    EmptyBranch(db, oldHead);
    EmptyBranch(db, newHead);
    NoMeetAbove(db, oldHead, newHead);
    var rem, discarded := Collect(db, oldHead, oldHead, Smaller(oldHead.number, newHead.number), []);
    if rem.None? { return Unrooted; }
    var add, included := Collect(db, newHead, newHead, rem.value.number, []);
    if add.None? { return Unrooted; }
    while rem.value.hash != add.value.hash
      invariant rem.Some? && add.Some? && At(db, oldHead, rem.value) && At(db, newHead, add.value)
      invariant rem.value.number == add.value.number
      invariant forall m :: m > rem.value.number ==> !Meet(db, oldHead, newHead, m)
      invariant discarded == BranchTxs(db, oldHead, rem.value.number)
      invariant included == BranchTxs(db, newHead, add.value.number)
      decreases rem.value.number
    {
      StepDown(db, oldHead, rem.value);
      StepDown(db, newHead, add.value);
      BranchStep(db, oldHead, rem.value);
      BranchStep(db, newHead, add.value);
      assert !Meet(db, oldHead, newHead, rem.value.number);
      discarded := discarded + rem.value.txs;
      rem := Get(db, rem.value.parent, rem.value.number - 1);
      if rem.None? { return Unrooted; }
      included := included + add.value.txs;
      add := Get(db, add.value.parent, add.value.number - 1);
      if add.None? { return Unrooted; }
    }
    var txs, at := TxDifference(discarded, included);
    ghost var n := rem.value.number;
    assert Highest(db, oldHead, newHead, n);
    forall tx
      ensures tx in txs <==> OnBranch(db, oldHead, n, tx) && !OnBranch(db, newHead, n, tx)
    {
      BranchMember(db, oldHead, n, tx);
      BranchMember(db, newHead, n, tx);
    }
    r := Txs(txs);
  }

  /** Exactly the transactions carried above n by the old chain and not by the new one, in the order in which the
      old chain is walked. */
  ghost predicate IsBranchDifference(db: Store, oldHead: Header, newHead: Header, n: int, txs: seq<TxHash>)
    requires Keyed(db)
  {
    && (exists at :: Picks(at, txs, BranchTxs(db, oldHead, n), BranchTxs(db, newHead, n)))
    && forall tx :: tx in txs <==> OnBranch(db, oldHead, n, tx) && !OnBranch(db, newHead, n, tx)
  }

  function Gap(a: int, b: int): int { if a < b then b - a else a - b }

  lemma EmptyBranch(db: Store, h: Header)
    requires Keyed(db)
    ensures BranchTxs(db, h, h.number) == []
  {
  }
}
