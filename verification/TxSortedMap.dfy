/** txSortedMap of core/tx_list.go: a nonce-keyed map with a heap of its nonces and a lazily built,
    lazily shifted cache of its contents in nonce order. */
module TxSortedMap {
  import opened Types
  import opened TxTypes
  import Heap

  type Items = map<nat, Tx>

  ghost predicate Keyed(m: Items) {
    forall n :: n in m ==> m[n].nonce == n
  }

  /** A nonce-ordered list of exactly the stored transactions. */
  ghost predicate IsSorting(txs: seq<Tx>, m: Items) {
    && (forall i, j :: 0 <= i < j < |txs| ==> txs[i].nonce < txs[j].nonce)
    && (forall i :: 0 <= i < |txs| ==> txs[i].nonce in m && m[txs[i].nonce] == txs[i])
    && (forall n :: n in m ==> m[n] in txs)
  }

  /** The contents in nonce order. */
  ghost function Sorted(m: Items): seq<Tx>
    decreases |m|
  {
    if m == map[] then []
    else
      var n := Least(m.Keys);
      [m[n]] + Sorted(m - {n})
  }

  ghost function Below(m: Items, t: nat): Items {
    map n | n in m && n < t :: m[n]
  }

  ghost function From(m: Items, t: nat): Items {
    map n | n in m && t <= n :: m[n]
  }

  /** The k lowest nonces, or everything if there are no more than k. */
  ghost function Lowest(m: Items, k: nat): Items
    decreases k
  {
    if k == 0 || m == map[] then map[]
    else
      var n := Least(m.Keys);
      Lowest(m - {n}, k - 1)[n := m[n]]
  }

  /** The first nonce from n on that the map does not hold. */
  ghost function RunEnd(m: Items, n: nat): nat
    decreases |m|
  {
    if n !in m then n else RunEnd(m - {n}, n + 1)
  }

  ghost function Kept(m: Items, drop: Tx -> bool): Items {
    map n | n in m && !drop(m[n]) :: m[n]
  }

  // ---------- facts about sorted contents ----------

  lemma {:induction false} SortedLength(m: Items)
    ensures |Sorted(m)| == |m|
    decreases |m|
  {
    if m != map[] { SortedLength(m - {Least(m.Keys)}); }
  }

  /** The sorted contents list exactly the stored transactions in nonce order. */
  lemma {:induction false} SortedIs(m: Items)
    requires Keyed(m)
    ensures IsSorting(Sorted(m), m)
    decreases |m|
  {
    if m != map[] {
      var n := Least(m.Keys);
      SortedIs(m - {n});
      SortedCons(m, n, Sorted(m - {n}));
    }
  }

  lemma SortedCons(m: Items, n: nat, txs: seq<Tx>)
    requires Keyed(m) && IsLeast(m.Keys, n) && IsSorting(txs, m - {n})
    ensures IsSorting([m[n]] + txs, m)
  {
    var all := [m[n]] + txs;
    forall i | i in m
      ensures m[i] in all
    {
      if i != n { assert i in m - {n}; }
    }
  }

  lemma BoundZero(m: Items, b: nat)
    requires forall n :: n in m ==> b <= n
    ensures From(m, b) == m && Sorted(Below(m, b)) == []
  {
    assert Below(m, b) == map[];
  }

  /** Nonce order determines the list. */
  lemma {:induction false} SortingUnique(txs: seq<Tx>, m: Items)
    requires Keyed(m) && IsSorting(txs, m)
    ensures txs == Sorted(m)
    decreases |m|
  {
    hide IsSorting, Sorted;
    if txs == [] {
      SortingEmpty(m);
    } else {
      var n := txs[0].nonce;
      SortingHead(txs, m);
      SortingTail(txs, m);
      SortingUnique(txs[1..], m - {n});
      LeastIs(m, n);
      assert txs == [txs[0]] + txs[1..];
    }
  }

  lemma SortingEmpty(m: Items)
    requires IsSorting([], m)
    ensures Sorted(m) == []
  {
    assert forall n :: n in m ==> m[n] in [];
  }

  lemma SortingHead(txs: seq<Tx>, m: Items)
    requires Keyed(m) && IsSorting(txs, m) && txs != []
    ensures IsLeast(m.Keys, txs[0].nonce) && m[txs[0].nonce] == txs[0]
  {
    forall i | i in m
      ensures txs[0].nonce <= i
    {
      var j :| 0 <= j < |txs| && txs[j] == m[i];
    }
  }

  lemma SortingTail(txs: seq<Tx>, m: Items)
    requires Keyed(m) && IsSorting(txs, m) && txs != []
    ensures IsSorting(txs[1..], m - {txs[0].nonce})
  {
    var rest, r := txs[1..], m - {txs[0].nonce};
    forall i | 0 <= i < |rest|
      ensures rest[i].nonce in r && r[rest[i].nonce] == rest[i]
    {
      assert rest[i] == txs[i + 1];
    }
    forall i | i in r
      ensures r[i] in rest
    {
      var j :| 0 <= j < |txs| && txs[j] == m[i];
      assert rest[j - 1] == m[i];
    }
  }

  /** Sorted contents split at any nonce. */
  lemma {:induction false} SortedSplit(m: Items, t: nat)
    ensures Sorted(m) == Sorted(Below(m, t)) + Sorted(From(m, t))
    decreases |m|
  {
    if m == map[] || Least(m.Keys) >= t {
      BoundZero(m, t);
    } else {
      var n := Least(m.Keys);
      SortedSplit(m - {n}, t);
      SplitStep(m, t, n);
      hide Below, From;
      LeastIs(m, n);
    }
  }

  lemma SplitStep(m: Items, t: nat, n: nat)
    requires IsLeast(m.Keys, n) && n < t
    ensures From(m - {n}, t) == From(m, t)
    ensures Sorted(Below(m, t)) == [m[n]] + Sorted(Below(m - {n}, t))
  {
    LeastIs(Below(m, t), n);
    assert Below(m - {n}, t) == Below(m, t) - {n};
  }

  lemma LeastIs(m: Items, n: nat)
    requires n in m && forall k :: k in m ==> n <= k
    ensures Sorted(m) == [m[n]] + Sorted(m - {n})
  {
  }

  /** Taking the least nonce that is not below b extends the sorted part below by one transaction. */
  lemma SortedSnoc(m: Items, b: nat, n: nat)
    requires IsLeast(From(m, b).Keys, n)
    ensures Sorted(Below(m, n + 1)) == Sorted(Below(m, b)) + [m[n]]
    ensures From(m, n + 1) == From(m, b) - {n} && n in m && m[n] == From(m, b)[n]
  {
    var u := Below(m, n + 1);
    forall k | k in m && b <= k
      ensures n <= k
    {
      assert k in From(m, b);
    }
    SortedSplit(u, b);
    assert Below(u, b) == Below(m, b);
    assert From(u, b) == map[n := m[n]];
    LeastIs(map[n := m[n]], n);
    assert map[n := m[n]] - {n} == map[];
  }

  /** The forward loop stops once nothing between its bound and the threshold is left. */
  lemma ForwardDone(m: Items, b: nat, t: nat, index: seq<nat>)
    requires b <= t && Indexed(index, From(m, b))
    requires |index| > 0 ==> t <= index[0]
    ensures From(m, b) == From(m, t) && Below(m, b) == Below(m, t)
  {
    hide Indexed, Sorted, Lowest, RunEnd;
    IndexMembers(index, From(m, b));
    if |index| > 0 { IndexRoot(index, From(m, b)); }
    forall n | n in m && b <= n
      ensures t <= n
    {
      assert n in From(m, b);
    }
    BoundReached(m, b, t);
  }

  /** The ready loop stops at the first missing nonce. */
  lemma ReadyDone(m: Items, lo: nat, next: nat, index: seq<nat>)
    requires lo <= next && (forall i :: lo <= i < next ==> i in m)
    requires Indexed(index, From(m, next)) && (|index| > 0 ==> index[0] != next)
    ensures next == RunEnd(m, lo)
  {
    hide Indexed, Sorted, Lowest, RunEnd;
    IndexMembers(index, From(m, next));
    if |index| > 0 { IndexRoot(index, From(m, next)); }
    assert next in m ==> next in From(m, next);
    RunEndUnique(m, lo, next);
  }

  /** A bound with nothing stored between it and t can be read as t. */
  lemma BoundReached(m: Items, b: nat, t: nat)
    requires b <= t && forall n :: n in m && b <= n ==> t <= n
    ensures From(m, b) == From(m, t) && Below(m, b) == Below(m, t)
  {
  }

  /** The k lowest are stored transactions and lie below all the others. */
  lemma {:induction false} LowestOrder(m: Items, k: nat)
    ensures forall n :: n in Lowest(m, k) ==> n in m && Lowest(m, k)[n] == m[n]
    ensures forall a, b :: a in Lowest(m, k) && b in m && b !in Lowest(m, k) ==> a < b
    decreases k
  {
    if k > 0 && m != map[] {
      var n := Least(m.Keys);
      LowestOrder(m - {n}, k - 1);
    }
  }

  /** They are the first k in nonce order. */
  lemma {:induction false} LowestFirst(m: Items, k: nat)
    requires k <= |m|
    ensures |Lowest(m, k)| == k && |Sorted(m)| == |m| && Sorted(Lowest(m, k)) == Sorted(m)[..k]
    decreases k
  {
    SortedLength(m);
    if k > 0 {
      var n := Least(m.Keys);
      LowestFirst(m - {n}, k - 1);
      LowestOrder(m - {n}, k - 1);
      var low := Lowest(m - {n}, k - 1);
      LeastIs(low[n := m[n]], n);
      assert low[n := m[n]] - {n} == low;
    }
  }

  lemma {:induction false} LowestAll(m: Items, k: nat)
    requires |m| <= k
    ensures Lowest(m, k) == m
    decreases k
  {
    if k > 0 && m != map[] { LowestAll(m - {Least(m.Keys)}, k - 1); }
  }

  /** Lowering the limit by one drops the transaction at the last kept position. */
  lemma {:induction false} LowestStep(m: Items, size: nat)
    requires Keyed(m) && 0 < size <= |m| == |Sorted(m)|
    ensures var tx := Sorted(m)[size - 1];
            && tx.nonce in Lowest(m, size) && Lowest(m, size)[tx.nonce] == tx
            && Lowest(m, size - 1) == Lowest(m, size) - {tx.nonce}
    decreases size
  {
    var n := Least(m.Keys);
    var rest := m - {n};
    SortedLength(rest);
    if size == 1 {
      assert Lowest(m, 1) - {n} == map[];
    } else {
      LowestStep(rest, size - 1);
      LowestOrder(rest, size - 1);
      LowestOrder(rest, size - 2);
      assert n !in Lowest(rest, size - 1);
    }
  }

  lemma {:induction false} RunEndIs(m: Items, n: nat)
    ensures n <= RunEnd(m, n) && RunEnd(m, n) !in m
    ensures forall i :: n <= i < RunEnd(m, n) ==> i in m
    decreases |m|
  {
    if n in m {
      RunEndIs(m - {n}, n + 1);
      forall i | n <= i < RunEnd(m, n)
        ensures i in m
      {
        if i != n { assert i in m - {n}; }
      }
    }
  }

  lemma RunEndUnique(m: Items, n: nat, r: nat)
    requires n <= r && r !in m && forall i :: n <= i < r ==> i in m
    ensures r == RunEnd(m, n)
  {
    RunEndIs(m, n);
  }

  // ---------- the nonce heap ----------

  predicate NonceLess(a: nat, b: nat) { a < b }

  lemma NonceOrder()
    ensures Heap.StrictWeakOrder(NonceLess)
  {
  }

  /** The index is a heap holding each stored nonce exactly once. */
  ghost predicate Indexed(index: seq<nat>, m: Items) {
    Heap.IsHeap(NonceLess, index) && multiset(index) == multiset(m.Keys)
  }

  lemma IndexMembers(index: seq<nat>, m: Items)
    requires Indexed(index, m)
    ensures forall n :: n in index <==> n in m
    ensures |index| == |m|
  {
    ListMembers(index, m);
  }

  lemma IndexHas(index: seq<nat>, m: Items, n: nat)
    requires Indexed(index, m) && n in m
    ensures n in index
  {
    ListMembers(index, m);
  }

  lemma ListMembers(index: seq<nat>, m: Items)
    requires multiset(index) == multiset(m.Keys)
    ensures forall n :: n in index <==> n in m
    ensures |index| == |m|
  {
    assert forall n :: n in index <==> n in multiset(index);
    assert |multiset(index)| == |index|;
  }

  lemma IndexPush(index: seq<nat>, m: Items, tx: Tx)
    requires Indexed(index, m) && tx.nonce !in m
    ensures Indexed(Heap.Push(NonceLess, index, tx.nonce), m[tx.nonce := tx])
  {
    NonceOrder();
    Heap.PushCorrect(NonceLess, index, tx.nonce);
    assert m[tx.nonce := tx].Keys == m.Keys + {tx.nonce};
  }

  lemma IndexReplace(index: seq<nat>, m: Items, tx: Tx)
    requires Indexed(index, m) && tx.nonce in m
    ensures Indexed(index, m[tx.nonce := tx])
  {
    assert m[tx.nonce := tx].Keys == m.Keys;
  }

  lemma KeysWithout(m: Items, n: nat)
    requires n in m
    ensures multiset((m - {n}).Keys) == multiset(m.Keys) - multiset{n}
  {
    assert m.Keys == (m - {n}).Keys + {n};
  }

  /** The root of the index is the lowest stored nonce. */
  lemma IndexRoot(index: seq<nat>, m: Items)
    requires Indexed(index, m) && |index| > 0
    ensures index[0] in m && forall n :: n in m ==> index[0] <= n
    ensures Indexed(Heap.Pop(NonceLess, index), m - {index[0]})
  {
    NonceOrder();
    Heap.PopCorrect(NonceLess, index);
    IndexMembers(index, m);
    KeysWithout(m, index[0]);
  }

  lemma IndexRemove(index: seq<nat>, m: Items, i: nat)
    requires Indexed(index, m) && i < |index|
    ensures index[i] in m && Indexed(Heap.Remove(NonceLess, index, i), m - {index[i]})
  {
    NonceOrder();
    Heap.RemoveCorrect(NonceLess, index, i);
    IndexMembers(index, m);
    KeysWithout(m, index[i]);
  }

  lemma IndexInit(index: seq<nat>, m: Items)
    requires multiset(index) == multiset(m.Keys)
    ensures Indexed(Heap.Init(NonceLess, index), m)
  {
    NonceOrder();
    Heap.InitCorrect(NonceLess, index);
  }

  function Identity(n: nat): nat { n }

  function NonceOf(tx: Tx): nat { tx.nonce }

  lemma SortedHead(index: seq<nat>, m: Items)
    requires SortedBy(Identity, index) && multiset(index) == multiset(m.Keys) && m != map[]
    ensures |index| > 0 && index[0] == Least(m.Keys)
    ensures SortedBy(Identity, index[1..]) && multiset(index[1..]) == multiset((m - {index[0]}).Keys)
  {
    ListMembers(index, m);
    var n := Least(m.Keys);
    var k :| 0 <= k < |index| && index[k] == n;
    assert index[0] in m;
    assert Identity(index[0]) <= Identity(index[k]);
    assert index == [index[0]] + index[1..];
    KeysWithout(m, n);
  }

  /** Sorting the index lists the nonces of the sorted contents. */
  lemma {:induction false} IndexSorted(index: seq<nat>, m: Items)
    requires Keyed(m) && SortedBy(Identity, index) && multiset(index) == multiset(m.Keys)
    ensures |index| == |m| == |Sorted(m)| && forall i :: 0 <= i < |index| ==> index[i] == Sorted(m)[i].nonce
    decreases |m|
  {
    if m == map[] {
      ListMembers(index, m);
    } else {
      SortedHead(index, m);
      IndexSorted(index[1..], m - {index[0]});
      forall i | 0 <= i < |index|
        ensures index[i] == Sorted(m)[i].nonce
      {
        if i > 0 { assert index[i] == index[1..][i - 1]; }
      }
    }
  }

  lemma IndexSort(index: seq<nat>, m: Items)
    requires Keyed(m) && Indexed(index, m)
    ensures var r := SortBy(Identity, index);
            |r| == |m| == |Sorted(m)| && forall i :: 0 <= i < |r| ==> r[i] == Sorted(m)[i].nonce
  {
    SortByCorrect(Identity, index);
    IndexSorted(SortBy(Identity, index), m);
  }

  // ---------- the object ----------

  /** What a scan that still has some nonces to visit has taken out: the visited ones to drop, each once. */
  ghost predicate Collected(m: map<nat, Tx>, drop: Tx -> bool, todo: set<nat>, removed: seq<Tx>) {
    && (forall tx :: tx in removed <==> tx.nonce in m && tx.nonce !in todo && m[tx.nonce] == tx && drop(tx))
    && (forall i, j :: 0 <= i < j < |removed| ==> removed[i].nonce != removed[j].nonce)
  }

  lemma CollectedStep(m: map<nat, Tx>, drop: Tx -> bool, todo: set<nat>, removed: seq<Tx>, nonce: nat)
    requires Keyed(m) && Collected(m, drop, todo, removed) && nonce in todo && nonce in m
    ensures Collected(m, drop, todo - {nonce}, if drop(m[nonce]) then removed + [m[nonce]] else removed)
  {
    assert forall i :: 0 <= i < |removed| ==> removed[i] in removed && removed[i].nonce != nonce;
  }

  class SortedMap {
    var items: Items
    var index: seq<nat>
    var cache: Option<seq<Tx>>

    ghost predicate Valid()
      reads this
    {
      Keyed(items) && Indexed(index, items) && (cache.Some? ==> cache.value == Sorted(items))
    }

    constructor ()
      ensures Valid() && items == map[]
    {
      items, index, cache := map[], [], None;
    }

    /** A map with the given contents and nothing cached. */
    constructor Load(m: Items)
      requires Keyed(m)
      ensures Valid() && items == m
    {
      hide Indexed;
      items, cache := m, None;
      var list := NonceList(m);
      IndexInit(list, m);
      index := Heap.Init(NonceLess, list);
    }

    method Get(nonce: nat) returns (r: Option<Tx>)
      requires Valid()
      ensures r == if nonce in items then Some(items[nonce]) else None
      ensures r.Some? ==> r.value.nonce == nonce
    {
      r := if nonce in items then Some(items[nonce]) else None;
    }

    method Put(tx: Tx)
      requires Valid()
      modifies this
      ensures Valid() && items == old(items)[tx.nonce := tx]
    {
      hide Indexed, Sorted, Lowest, RunEnd;
      var nonce := tx.nonce;
      if nonce !in items {
        IndexPush(index, items, tx);
        index := Heap.Push(NonceLess, index, nonce);
      } else {
        IndexReplace(index, items, tx);
      }
      items, cache := items[nonce := tx], None;
    }

    /** Takes out the transaction with the lowest nonce, leaving the cache to the caller. */
    method PopLowest() returns (tx: Tx)
      requires Keyed(items) && Indexed(index, items) && |index| > 0
      modifies this`items, this`index
      ensures Keyed(items) && Indexed(index, items)
      ensures IsLeast(old(items.Keys), tx.nonce) && tx == old(items)[tx.nonce] && tx.nonce == old(index[0])
      ensures items == old(items) - {tx.nonce} && |items| < |old(items)|
    {
      hide Indexed, Sorted, Lowest, RunEnd;
      IndexRoot(index, items);
      var nonce := index[0];
      index := Heap.Pop(NonceLess, index);
      tx := items[nonce];
      items := items - {nonce};
    }

    method Forward(threshold: nat) returns (removed: seq<Tx>)
      requires Valid()
      modifies this
      ensures Valid() && items == From(old(items), threshold)
      ensures removed == Sorted(Below(old(items), threshold))
    {
      hide Indexed, Sorted, Lowest, RunEnd;
      removed := [];
      ghost var m: Items, b: nat := items, 0;
      BoundZero(m, 0);
      while |index| > 0 && index[0] < threshold
        invariant Keyed(items) && Indexed(index, items) && cache == old(cache)
        invariant 0 <= b <= threshold && items == From(m, b) && removed == Sorted(Below(m, b))
        decreases |items|
      {
        var tx := PopLowest();
        SortedSnoc(m, b, tx.nonce);
        removed := removed + [tx];
        b := tx.nonce + 1;
      }
      ForwardDone(m, b, threshold, index);
      SortedSplit(m, threshold);
      if cache.Some? {
        cache := Some(cache.value[|removed|..]);
      }
    }

    /** The collection loop of Filter, which visits the entries in an arbitrary order. */
    method Collect(drop: Tx -> bool) returns (removed: seq<Tx>)
      requires Keyed(items)
      modifies this`items
      ensures items == Kept(old(items), drop) && |removed| + |items| == |old(items)|
      ensures forall tx :: tx in removed <==> tx.nonce in old(items) && old(items)[tx.nonce] == tx && drop(tx)
      ensures forall i, j :: 0 <= i < j < |removed| ==> removed[i].nonce != removed[j].nonce
    {
      removed := [];
      ghost var m := items;
      var todo := items.Keys;
      while todo != {}
        invariant todo <= m.Keys && Collected(m, drop, todo, removed)
        invariant forall n :: n in items <==> n in m && (n in todo || !drop(m[n]))
        invariant forall n :: n in items ==> items[n] == m[n]
        invariant |removed| + |items| == |m|
        decreases |todo|
      {
        hide Collected;
        var nonce :| nonce in todo;
        CollectedStep(m, drop, todo, removed, nonce);
        todo := todo - {nonce};
        if drop(items[nonce]) {
          removed := removed + [items[nonce]];
          items := items - {nonce};
        }
      }
      assert items == Kept(m, drop);
    }

    method Filter(drop: Tx -> bool) returns (removed: seq<Tx>)
      requires Valid()
      modifies this
      ensures Valid() && items == Kept(old(items), drop) && |removed| + |items| == |old(items)|
      ensures forall tx :: tx in removed <==> tx.nonce in old(items) && old(items)[tx.nonce] == tx && drop(tx)
      ensures forall i, j :: 0 <= i < j < |removed| ==> removed[i].nonce != removed[j].nonce
    {
      hide Indexed, Sorted;
      ghost var m := items;
      removed := Collect(drop);
      if |removed| > 0 {
        index := NonceList(items);
        IndexInit(index, items);
        index := Heap.Init(NonceLess, index);
        cache := None;
      } else {
        SameSize(m, items);
      }
    }

    /** The drop loop of Cap, run on the sorted index. */
    method DropHighest(threshold: nat) returns (drops: seq<Tx>)
      requires Keyed(items) && threshold <= |items| == |index| == |Sorted(items)|
      requires forall i :: 0 <= i < |index| ==> index[i] == Sorted(items)[i].nonce
      modifies this`items
      ensures items == Lowest(old(items), threshold) && |drops| == |old(items)| - threshold
      ensures forall i :: 0 <= i < |drops| ==> drops[i] == Sorted(old(items))[|old(items)| - 1 - i]
    {
      ghost var m := items;
      LowestAll(m, |m|);
      drops := [];
      var size := |items|;
      while size > threshold
        invariant threshold <= size <= |m|
        invariant items == Lowest(m, size) && |drops| == |m| - size
        invariant forall i :: 0 <= i < |drops| ==> drops[i] == Sorted(m)[|m| - 1 - i]
      {
        LowestStep(m, size);
        var top := index[size - 1];
        drops := drops + [items[top]];
        items := items - {top};
        size := size - 1;
      }
    }

    method Cap(threshold: nat) returns (drops: seq<Tx>)
      requires Valid()
      modifies this
      ensures Valid() && items == Lowest(old(items), threshold)
      ensures |drops| + |items| == |old(items)| == |Sorted(old(items))|
      ensures forall i :: 0 <= i < |drops| ==> drops[i] == Sorted(old(items))[|old(items)| - 1 - i]
    {
      hide Indexed, Sorted, Lowest, RunEnd;
      SortedLength(items);
      if |items| <= threshold {
        LowestAll(items, threshold);
        return [];
      }
      ghost var m := items;
      IndexSort(index, m);
      index := SortBy(Identity, index);
      drops := DropHighest(threshold);
      CapDone(m, index, threshold);
      index := Heap.Init(NonceLess, index[..threshold]);
      if cache.Some? {
        cache := Some(cache.value[..|cache.value| - |drops|]);
      }
    }

    method Remove(nonce: nat) returns (ok: bool)
      requires Valid()
      modifies this
      ensures Valid() && ok == (nonce in old(items)) && items == old(items) - {nonce}
    {
      hide Indexed, Sorted, Lowest, RunEnd;
      if nonce !in items { return false; }
      IndexHas(index, items, nonce);
      var i := 0;
      while index[i] != nonce
        invariant 0 <= i < |index| && forall k :: 0 <= k < i ==> index[k] != nonce
        decreases |index| - i
      {
        i := i + 1;
      }
      IndexRemove(index, items, i);
      index := Heap.Remove(NonceLess, index, i);
      items := items - {nonce};
      cache := None;
      return true;
    }

    /** The accumulation loop of Ready, from the lowest nonce on. */
    method TakeRun() returns (ready: seq<Tx>)
      requires Keyed(items) && Indexed(index, items) && |index| > 0
      modifies this`items, this`index
      ensures Keyed(items) && Indexed(index, items)
      ensures var end := RunEnd(old(items), old(index[0]));
              ready == Sorted(Below(old(items), end)) && items == From(old(items), end)
    {
      hide Indexed, Sorted, Lowest, RunEnd, Below, From;
      IndexRoot(index, items);
      ready := [];
      ghost var m: Items, lo: nat := items, index[0];
      var next: nat := index[0];
      BoundZero(m, next);
      while |index| > 0 && index[0] == next
        invariant Keyed(items) && Indexed(index, items)
        invariant 0 <= lo <= next && forall i :: lo <= i < next ==> i in m
        invariant items == From(m, next) && ready == Sorted(Below(m, next))
        decreases |items|
      {
        var tx := PopLowest();
        SortedSnoc(m, next, next);
        ready := ready + [tx];
        next := next + 1;
      }
      ReadyDone(m, lo, next, index);
    }

    /** Removes exactly the consecutive run that starts at the lowest nonce, when that is not above start. */
    method Ready(start: nat) returns (ready: seq<Tx>)
      requires Valid()
      modifies this
      ensures Valid()
      ensures old(items) == map[] || Least(old(items.Keys)) > start ==> ready == [] && items == old(items)
      ensures old(items) != map[] && Least(old(items.Keys)) <= start ==>
                var end := RunEnd(old(items), Least(old(items.Keys)));
                ready == Sorted(Below(old(items), end)) && items == From(old(items), end)
    {
      hide Indexed, Sorted, Lowest, RunEnd;
      IndexMembers(index, items);
      if |index| == 0 { return []; }
      IndexRoot(index, items);
      if index[0] > start { return []; }
      ready := TakeRun();
      cache := None;
    }

    /** The loop over the map visits the entries in an arbitrary order; the sort removes the difference. */
    method Flatten() returns (txs: seq<Tx>)
      requires Valid()
      modifies this`cache
      ensures Valid() && txs == Sorted(items)
    {
      hide Indexed, Sorted, Lowest, RunEnd;
      if cache.None? {
        var all: seq<Tx> := [];
        var todo := items.Keys;
        while todo != {}
          invariant todo <= items.Keys
          invariant forall tx :: tx in all ==> tx.nonce in items && tx.nonce !in todo && items[tx.nonce] == tx
          invariant forall n :: n in items && n !in todo ==> items[n] in all
          invariant forall i, j :: 0 <= i < j < |all| ==> all[i] != all[j]
          decreases |todo|
        {
          var nonce :| nonce in todo;
          assert items[nonce] !in all;
          todo := todo - {nonce};
          all := all + [items[nonce]];
        }
        var sorted := SortBy(NonceOf, all);
        SortByCorrect(NonceOf, all);
        SortedContents(all, sorted, items);
        cache := Some(sorted);
      }
      txs := cache.value;
    }
  }

  /** The keys of the map, in whatever order the loop over the map visits them. */
  method NonceList(m: Items) returns (index: seq<nat>)
    ensures multiset(index) == multiset(m.Keys)
  {
    index := [];
    var rest := m.Keys;
    while rest != {}
      invariant rest <= m.Keys && multiset(index) == multiset(m.Keys - rest)
      decreases |rest|
    {
      var nonce :| nonce in rest;
      assert m.Keys - (rest - {nonce}) == m.Keys - rest + {nonce};
      rest := rest - {nonce};
      index := index + [nonce];
    }
    assert m.Keys - rest == m.Keys;
  }

  lemma SameSize(m: Items, r: Items)
    requires r.Keys <= m.Keys && (forall n :: n in r ==> r[n] == m[n]) && |r| == |m|
    ensures r == m
  {
    assert |m.Keys - r.Keys| == 0;
    assert m.Keys - r.Keys == {};
    assert forall n :: n in m ==> n in r;
  }

  lemma PrefixKeys(index: seq<nat>, k: nat, m: Items)
    requires 0 < k <= |index| && index[k - 1] in m
    requires multiset(index[..k - 1]) == multiset((m - {index[k - 1]}).Keys)
    ensures multiset(index[..k]) == multiset(m.Keys)
  {
    assert index[..k] == index[..k - 1] + [index[k - 1]];
    KeysWithout(m, index[k - 1]);
  }

  lemma {:induction false} LowestIndex(m: Items, index: seq<nat>, k: nat)
    requires Keyed(m) && k <= |m| == |index| == |Sorted(m)|
    requires forall i :: 0 <= i < |index| ==> index[i] == Sorted(m)[i].nonce
    ensures multiset(index[..k]) == multiset(Lowest(m, k).Keys)
    decreases k
  {
    if k > 0 {
      LowestIndex(m, index, k - 1);
      LowestStep(m, k);
      hide Sorted, Lowest;
      PrefixKeys(index, k, Lowest(m, k));
    }
  }

  lemma CapDone(m: Items, index: seq<nat>, k: nat)
    requires Keyed(m) && k <= |m| == |index| == |Sorted(m)|
    requires forall i :: 0 <= i < |index| ==> index[i] == Sorted(m)[i].nonce
    ensures Indexed(Heap.Init(NonceLess, index[..k]), Lowest(m, k)) && Keyed(Lowest(m, k))
    ensures |Lowest(m, k)| == k && Sorted(Lowest(m, k)) == Sorted(m)[..k]
  {
    hide Indexed, Sorted, Lowest;
    LowestIndex(m, index, k);
    LowestFirst(m, k);
    LowestOrder(m, k);
    IndexInit(index[..k], Lowest(m, k));
  }

  lemma SortedContents(all: seq<Tx>, sorted: seq<Tx>, m: Items)
    requires Keyed(m)
    requires forall tx :: tx in all ==> tx.nonce in m && m[tx.nonce] == tx
    requires forall n :: n in m ==> m[n] in all
    requires forall i, j :: 0 <= i < j < |all| ==> all[i] != all[j]
    requires SortedBy(NonceOf, sorted) && multiset(sorted) == multiset(all)
    ensures sorted == Sorted(m)
  {
    assert forall tx :: tx in sorted <==> tx in multiset(sorted);
    assert forall tx :: tx in all <==> tx in multiset(all);
    forall i, j | 0 <= i < j < |sorted|
      ensures sorted[i].nonce < sorted[j].nonce
    {
      assert sorted[i] in all && sorted[j] in all;
      if sorted[i].nonce == sorted[j].nonce {
        RepeatCounted(sorted, i, j);
        DistinctCounted(all, sorted[i]);
      }
    }
    SortingUnique(sorted, m);
  }

  lemma {:induction false} DistinctCounted<T>(s: seq<T>, x: T)
    requires forall i, j :: 0 <= i < j < |s| ==> s[i] != s[j]
    ensures multiset(s)[x] <= 1
  {
    if s != [] {
      var k := |s| - 1;
      assert s == s[..k] + [s[k]];
      DistinctCounted(s[..k], x);
      if s[k] == x { assert x !in s[..k]; }
    }
  }
}
