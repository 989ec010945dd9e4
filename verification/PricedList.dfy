/** txPricedList of core/tx_list.go: a price-ordered heap over the pooled transactions from which
    removed transactions are deleted lazily.  The map of live transactions is shared with the pool
    and passed to the operations that read it. */
module PricedList {
  import opened Types
  import opened TxTypes
  import Heap

  type Pool = map<Hash, Tx>

  /** Cheaper first; at equal price the higher nonce is the worse one. */
  predicate PriceLess(a: Tx, b: Tx) {
    a.price < b.price || (a.price == b.price && a.nonce > b.nonce)
  }

  lemma PriceOrder()
    ensures Heap.StrictWeakOrder(PriceLess)
  {
  }

  ghost predicate IsPriceHeap(items: seq<Tx>) {
    Heap.IsHeap(PriceLess, items)
  }

  predicate Live(all: Pool, tx: Tx) {
    tx.hash in all
  }

  predicate Remote(locals: set<Address>, tx: Tx) {
    tx.sender !in locals
  }

  /** Every pooled transaction has an entry in the heap. */
  ghost predicate Covered(all: Pool, items: multiset<Tx>) {
    forall h :: h in all ==> all[h] in items
  }

  /** Pooled transactions sit under their own hash, and a heap entry with a pooled hash is that
      transaction: distinct transactions have distinct hashes. */
  ghost predicate Faithful(all: Pool, items: multiset<Tx>) {
    && (forall h :: h in all ==> all[h].hash == h)
    && (forall tx :: tx in items && tx.hash in all ==> all[tx.hash] == tx)
  }

  /** Entries of live transactions are all still there; only stale ones may have gone. */
  ghost predicate Conserved(all: Pool, before: multiset<Tx>, after: multiset<Tx>) {
    forall tx :: after[tx] <= before[tx] && (Live(all, tx) ==> after[tx] == before[tx])
  }

  // ---------- heap steps ----------

  lemma PopStep(items: seq<Tx>)
    requires IsPriceHeap(items) && |items| > 0
    ensures IsPriceHeap(Heap.Pop(PriceLess, items))
    ensures multiset(Heap.Pop(PriceLess, items)) == multiset(items) - multiset{items[0]}
    ensures items[0] in multiset(items) && |Heap.Pop(PriceLess, items)| < |items|
    ensures forall x :: x in multiset(items) ==> !PriceLess(x, items[0])
  {
    PriceOrder();
    Heap.PopCorrect(PriceLess, items);
    assert items[0] in items;
    assert |multiset(items)| == |items| && |multiset(Heap.Pop(PriceLess, items))| == |Heap.Pop(PriceLess, items)|;
  }

  lemma PushStep(items: seq<Tx>, tx: Tx)
    requires IsPriceHeap(items)
    ensures IsPriceHeap(Heap.Push(PriceLess, items, tx))
    ensures multiset(Heap.Push(PriceLess, items, tx)) == multiset(items) + multiset{tx}
  {
    PriceOrder();
    Heap.PushCorrect(PriceLess, items, tx);
  }

  lemma SeqPush<T>(s: seq<T>, x: T)
    ensures multiset(s + [x]) == multiset(s) + multiset{x}
  {
  }

  lemma SeqMember<T>(s: seq<T>)
    ensures forall x :: x in s <==> x in multiset(s)
  {
  }

  /** The live transactions in whatever order the loop over the map visits them. */
  method PoolList(all: Pool) returns (items: seq<Tx>)
    requires forall h :: h in all ==> all[h].hash == h
    ensures forall tx :: tx in multiset(items) <==> tx.hash in all && all[tx.hash] == tx
    ensures |items| == |all|
  {
    items := [];
    var rest := all.Keys;
    while rest != {}
      invariant rest <= all.Keys && |items| + |rest| == |all|
      invariant forall tx :: tx in multiset(items) <==> tx.hash in all && tx.hash !in rest && all[tx.hash] == tx
      decreases |rest|
    {
      var h :| h in rest;
      rest := rest - {h};
      SeqPush(items, all[h]);
      items := items + [all[h]];
    }
  }

  // ---------- what the operations are for ----------

  /** Heap entries of live remote transactions, in the order of the heap, against what was dropped. */
  ghost predicate CheapestDropped(all: Pool, locals: set<Address>, drop: seq<Tx>, items: multiset<Tx>) {
    forall i, tx :: 0 <= i < |drop| && tx in items && Live(all, tx) && Remote(locals, tx) ==> !PriceLess(tx, drop[i])
  }

  lemma CoverageKept(all: Pool, before: multiset<Tx>, after: multiset<Tx>)
    requires Faithful(all, before) && Covered(all, before) && Conserved(all, before, after)
    ensures Covered(all, after) && Faithful(all, after)
  {
    forall h | h in all
      ensures all[h] in after
    {
      assert Live(all, all[h]);
    }
  }

  lemma CoveredByNothing(all: Pool)
    requires Covered(all, multiset{})
    ensures all == map[]
  {
  }

  lemma ConservedAtStart(all: Pool, start: multiset<Tx>)
    ensures Conserved(all, start, start + (multiset{} + multiset{}))
  {
  }

  /** Taking a stale entry out of the heap conserves the live ones. */
  lemma DropStale(all: Pool, start: multiset<Tx>, heap: multiset<Tx>, out: multiset<Tx>, tx: Tx)
    requires Conserved(all, start, heap + out) && tx in heap && !Live(all, tx)
    ensures Conserved(all, start, heap - multiset{tx} + out)
  {
  }

  /** Moving an entry from the heap to one of the two result lists conserves everything. */
  lemma MoveOut(all: Pool, start: multiset<Tx>, heap: multiset<Tx>, a: multiset<Tx>, b: multiset<Tx>, tx: Tx)
    requires Conserved(all, start, heap + (a + b)) && tx in heap
    ensures Conserved(all, start, heap - multiset{tx} + (a + multiset{tx} + b))
    ensures Conserved(all, start, heap - multiset{tx} + (a + (b + multiset{tx})))
  {
    assert heap - multiset{tx} + (a + multiset{tx} + b) == heap + (a + b);
    assert heap - multiset{tx} + (a + (b + multiset{tx})) == heap + (a + b);
  }

  lemma PutBack(all: Pool, start: multiset<Tx>, heap: multiset<Tx>, a: multiset<Tx>, b: multiset<Tx>)
    requires Conserved(all, start, heap + (a + b))
    ensures Conserved(all, start, heap + b + a)
  {
    assert heap + (a + b) == heap + b + a;
  }

  class PriceList {
    var items: seq<Tx>
    var stales: int

    ghost predicate Valid()
      reads this
    {
      IsPriceHeap(items)
    }

    constructor ()
      ensures Valid() && items == [] && stales == 0
    {
      items, stales := [], 0;
    }

    method Put(tx: Tx)
      requires Valid()
      modifies this`items
      ensures Valid() && multiset(items) == multiset(old(items)) + multiset{tx}
    {
      PushStep(items, tx);
      items := Heap.Push(PriceLess, items, tx);
    }

    /** Counts one more stale entry and rebuilds the heap once a quarter of it is stale. */
    method Removed(all: Pool)
      requires Valid() && forall h :: h in all ==> all[h].hash == h
      modifies this
      ensures Valid()
      ensures old(stales) + 1 <= |old(items)| / 4 ==> items == old(items) && stales == old(stales) + 1
      ensures old(stales) + 1 > |old(items)| / 4 ==>
                stales == 0 && |items| == |all|
                && forall tx :: tx in multiset(items) <==> tx.hash in all && all[tx.hash] == tx
    {
      hide Heap.IsHeap;
      stales := stales + 1;
      if stales <= |items| / 4 { return; }
      var list := PoolList(all);
      stales := 0;
      PriceOrder();
      Heap.InitCorrect(PriceLess, list);
      items := Heap.Init(PriceLess, list);
      assert |multiset(items)| == |items| && |multiset(list)| == |list|;
    }

    method PushBack(save: seq<Tx>)
      requires Valid()
      modifies this`items
      ensures Valid() && multiset(items) == multiset(old(items)) + multiset(save)
    {
      hide Heap.IsHeap;
      for i := 0 to |save|
        invariant Valid() && multiset(items) == multiset(old(items)) + multiset(save[..i])
      {
        PushStep(items, save[i]);
        SeqPush(save[..i], save[i]);
        assert save[..i + 1] == save[..i] + [save[i]];
        items := Heap.Push(PriceLess, items, save[i]);
      }
      assert save[..|save|] == save;
    }

    /** Takes the cheapest entry out of the heap. */
    method PopCheapest() returns (tx: Tx)
      requires Valid() && |items| > 0
      modifies this`items
      ensures Valid() && multiset(items) == multiset(old(items)) - multiset{tx} && |items| < |old(items)|
      ensures tx == old(items[0]) && tx in multiset(old(items))
      ensures forall x :: x in multiset(old(items)) ==> !PriceLess(x, tx)
    {
      hide Heap.IsHeap;
      PopStep(items);
      tx := items[0];
      items := Heap.Pop(PriceLess, items);
    }

    /** The pop loop of Cap: entries to drop, and entries to put back. */
    method TakeBelow(all: Pool, threshold: nat, locals: set<Address>) returns (drop: seq<Tx>, save: seq<Tx>)
      requires Valid()
      modifies this
      ensures Valid() && Conserved(all, multiset(old(items)), multiset(items) + (multiset(drop) + multiset(save)))
      ensures forall x :: x in multiset(drop) ==> Live(all, x) && Remote(locals, x) && x.price < threshold
      ensures forall x :: x in multiset(save) ==> !Remote(locals, x) || x.price >= threshold
      ensures forall tx :: tx in multiset(items) ==> tx.price >= threshold
    {
      hide IsPriceHeap, Conserved, Live, Remote;
      drop, save := [], [];
      ghost var start := multiset(items);
      ConservedAtStart(all, start);
      while |items| > 0
        invariant Valid() && Conserved(all, start, multiset(items) + (multiset(drop) + multiset(save)))
        invariant forall x :: x in multiset(drop) ==> Live(all, x) && Remote(locals, x) && x.price < threshold
        invariant forall x :: x in multiset(save) ==> !Remote(locals, x) || x.price >= threshold
        decreases |items|
      {
        ghost var heap := multiset(items);
        var tx := PopCheapest();
        if !Live(all, tx) {
          DropStale(all, start, heap, multiset(drop) + multiset(save), tx);
          stales := stales - 1;
          continue;
        }
        MoveOut(all, start, heap, multiset(drop), multiset(save), tx);
        if tx.price >= threshold {
          SeqPush(save, tx);
          save := save + [tx];
          break;
        }
        if !Remote(locals, tx) {
          SeqPush(save, tx);
          save := save + [tx];
        } else {
          SeqPush(drop, tx);
          drop := drop + [tx];
        }
      }
    }

    /** Drops every remote live entry below the threshold and no other live entry. */
    method Cap(all: Pool, threshold: nat, locals: set<Address>) returns (drop: seq<Tx>)
      requires Valid()
      modifies this
      ensures Valid() && Conserved(all, multiset(old(items)), multiset(items) + multiset(drop))
      ensures forall i :: 0 <= i < |drop| ==> Live(all, drop[i]) && Remote(locals, drop[i]) && drop[i].price < threshold
      ensures forall tx :: tx in multiset(items) && Live(all, tx) && Remote(locals, tx) ==> tx.price >= threshold
    {
      hide IsPriceHeap, Conserved;
      var save;
      ghost var start := multiset(items);
      drop, save := TakeBelow(all, threshold, locals);
      ghost var left := multiset(items);
      PushBack(save);
      SeqMember(drop);
      PutBack(all, start, left, multiset(drop), multiset(save));
    }

    /** True of a remote transaction exactly when no pooled transaction is cheaper. */
    method Underpriced(all: Pool, tx: Tx, locals: set<Address>) returns (b: bool)
      requires Valid() && Covered(all, multiset(items)) && Faithful(all, multiset(items))
      modifies this
      ensures Valid() && Conserved(all, multiset(old(items)), multiset(items))
      ensures b ==> Remote(locals, tx)
      ensures Remote(locals, tx) && all != map[] ==> (b <==> forall h :: h in all ==> tx.price <= all[h].price)
      ensures all == map[] ==> !b
    {
      hide IsPriceHeap;
      if !Remote(locals, tx) { return false; }
      ghost var start := multiset(items);
      while |items| > 0 && !Live(all, items[0])
        invariant Valid() && Conserved(all, start, multiset(items))
        decreases |items|
      {
        stales := stales - 1;
        var gone := PopCheapest();
      }
      CoverageKept(all, start, multiset(items));
      if |items| == 0 {
        CoveredByNothing(all);
        return false;
      }
      HeadCheapest(all, items, tx);
      b := items[0].price >= tx.price;
    }

    /** The pop loop of Discard: entries to drop, and local entries to put back. */
    method TakeCheapest(all: Pool, count: nat, locals: set<Address>) returns (drop: seq<Tx>, save: seq<Tx>)
      requires Valid()
      modifies this
      ensures Valid() && Conserved(all, multiset(old(items)), multiset(items) + (multiset(drop) + multiset(save)))
      ensures forall x :: x in multiset(drop) ==> Live(all, x) && Remote(locals, x)
      ensures forall x :: x in multiset(save) ==> !Remote(locals, x)
      ensures forall d, x :: d in multiset(drop) && x in multiset(items) ==> !PriceLess(x, d)
      ensures |drop| <= count && (|drop| < count ==> items == [])
    {
      hide IsPriceHeap, Conserved, PriceLess, Live, Remote;
      drop, save := [], [];
      ghost var start := multiset(items);
      ConservedAtStart(all, start);
      while |items| > 0 && |drop| < count
        invariant Valid() && Conserved(all, start, multiset(items) + (multiset(drop) + multiset(save)))
        invariant forall x :: x in multiset(drop) ==> Live(all, x) && Remote(locals, x)
        invariant forall x :: x in multiset(save) ==> !Remote(locals, x)
        invariant forall d, x :: d in multiset(drop) && x in multiset(items) ==> !PriceLess(x, d)
        invariant |drop| <= count
        decreases |items|
      {
        ghost var heap := multiset(items);
        var tx := PopCheapest();
        if !Live(all, tx) {
          DropStale(all, start, heap, multiset(drop) + multiset(save), tx);
          stales := stales - 1;
        } else {
          MoveOut(all, start, heap, multiset(drop), multiset(save), tx);
          if !Remote(locals, tx) {
            SeqPush(save, tx);
            save := save + [tx];
          } else {
            SeqPush(drop, tx);
            drop := drop + [tx];
          }
        }
      }
    }

    /** Drops the cheapest remote live entries until count of them are gone or none is left. */
    method Discard(all: Pool, count: nat, locals: set<Address>) returns (drop: seq<Tx>)
      requires Valid()
      modifies this
      ensures Valid() && Conserved(all, multiset(old(items)), multiset(items) + multiset(drop))
      ensures forall i :: 0 <= i < |drop| ==> Live(all, drop[i]) && Remote(locals, drop[i])
      ensures CheapestDropped(all, locals, drop, multiset(items))
      ensures |drop| <= count
      ensures |drop| < count ==> forall tx :: tx in multiset(items) && Live(all, tx) ==> !Remote(locals, tx)
    {
      hide IsPriceHeap, Conserved;
      var save;
      ghost var start := multiset(items);
      drop, save := TakeCheapest(all, count, locals);
      ghost var left := multiset(items);
      PushBack(save);
      SeqMember(drop);
      PutBack(all, start, left, multiset(drop), multiset(save));
    }
  }

  lemma HeadCheapest(all: Pool, items: seq<Tx>, tx: Tx)
    requires IsPriceHeap(items) && |items| > 0 && Live(all, items[0])
    requires Covered(all, multiset(items)) && Faithful(all, multiset(items))
    ensures items[0].price >= tx.price <==> forall h :: h in all ==> tx.price <= all[h].price
  {
    PopStep(items);
    assert all[items[0].hash] == items[0];
  }

  // ---------- exactness over the pool ----------

  /** A pool transaction is dropped by Cap exactly when it is remote and below the threshold. */
  lemma CapExact(all: Pool, threshold: nat, locals: set<Address>, before: multiset<Tx>, after: multiset<Tx>,
      drop: seq<Tx>, h: Hash)
    requires Faithful(all, before) && Covered(all, before) && h in all
    requires Conserved(all, before, after + multiset(drop))
    requires forall i :: 0 <= i < |drop| ==> Live(all, drop[i]) && Remote(locals, drop[i]) && drop[i].price < threshold
    requires forall tx :: tx in after && Live(all, tx) && Remote(locals, tx) ==> tx.price >= threshold
    ensures all[h] in drop <==> Remote(locals, all[h]) && all[h].price < threshold
  {
    assert Live(all, all[h]);
    assert (after + multiset(drop))[all[h]] == before[all[h]];
    SeqMember(drop);
  }

  /** The pooled transactions of remote accounts. */
  ghost function RemoteHashes(all: Pool, locals: set<Address>): set<Hash> {
    set h | h in all && Remote(locals, all[h])
  }

  ghost function HashesOf(txs: seq<Tx>): set<Hash> {
    set i | 0 <= i < |txs| :: txs[i].hash
  }

  /** No live transaction has two entries in the heap. */
  ghost predicate UniqueLive(all: Pool, items: multiset<Tx>) {
    forall tx :: Live(all, tx) ==> items[tx] <= 1
  }

  lemma {:induction false} HashesSize(txs: seq<Tx>)
    requires forall i, j :: 0 <= i < j < |txs| ==> txs[i].hash != txs[j].hash
    ensures |HashesOf(txs)| == |txs|
  {
    if txs != [] {
      var front, last := txs[..|txs| - 1], txs[|txs| - 1];
      HashesSize(front);
      HashesStep(front, last);
      assert txs == front + [last];
      assert last.hash !in HashesOf(front);
    }
  }

  lemma HashesStep(front: seq<Tx>, last: Tx)
    ensures HashesOf(front + [last]) == HashesOf(front) + {last.hash}
  {
    var txs := front + [last];
    assert txs[|front|] == last;
    forall i | 0 <= i < |front|
      ensures txs[i] == front[i]
    {
    }
  }

  lemma SubsetSize(a: set<Hash>, b: set<Hash>)
    requires a <= b
    ensures |a| <= |b| && (|a| == |b| ==> a == b)
  {
    assert b == a + (b - a);
  }

  /** What Discard drops are pooled remote transactions, distinct when live entries are unique. */
  lemma DroppedDistinct(all: Pool, locals: set<Address>, before: multiset<Tx>, after: multiset<Tx>, drop: seq<Tx>)
    requires Faithful(all, before) && UniqueLive(all, before) && Conserved(all, before, after + multiset(drop))
    requires forall i :: 0 <= i < |drop| ==> Live(all, drop[i]) && Remote(locals, drop[i])
    ensures forall i, j :: 0 <= i < j < |drop| ==> drop[i].hash != drop[j].hash
    ensures HashesOf(drop) <= RemoteHashes(all, locals)
    ensures forall h :: h in HashesOf(drop) ==> all[h] in drop
  {
    SeqMember(drop);
    forall x
      ensures multiset(drop)[x] <= 1
    {
      assert Live(all, x) ==> (after + multiset(drop))[x] == before[x] <= 1;
    }
    CountedDistinct(drop);
    forall i | 0 <= i < |drop|
      ensures all[drop[i].hash] == drop[i]
    {
      assert drop[i] in multiset(drop) && (after + multiset(drop))[drop[i]] == before[drop[i]];
    }
  }

  /** When live entries are unique, Discard drops exactly as many transactions as asked, or all remote
      ones if there are not as many; they are distinct, pooled and remote; and no remote transaction that
      stays is cheaper than one of them. */
  lemma DiscardExact(all: Pool, count: nat, locals: set<Address>, before: multiset<Tx>, after: multiset<Tx>,
      drop: seq<Tx>)
    requires Faithful(all, before) && Covered(all, before) && UniqueLive(all, before)
    requires Conserved(all, before, after + multiset(drop))
    requires forall i :: 0 <= i < |drop| ==> Live(all, drop[i]) && Remote(locals, drop[i])
    requires CheapestDropped(all, locals, drop, after) && |drop| <= count
    requires |drop| < count ==> forall tx :: tx in after && Live(all, tx) ==> !Remote(locals, tx)
    ensures |HashesOf(drop)| == |drop| && HashesOf(drop) <= RemoteHashes(all, locals)
    ensures |drop| == if count <= |RemoteHashes(all, locals)| then count else |RemoteHashes(all, locals)|
    ensures forall g, h :: g in HashesOf(drop) && h in RemoteHashes(all, locals) - HashesOf(drop) ==>
              !PriceLess(all[h], all[g])
  {
    hide Conserved, Covered, Faithful, PriceLess;
    DroppedDistinct(all, locals, before, after, drop);
    HashesSize(drop);
    SubsetSize(HashesOf(drop), RemoteHashes(all, locals));
    forall h | h in RemoteHashes(all, locals) && h !in HashesOf(drop)
      ensures all[h] in after && Live(all, all[h])
    {
      StillEntered(all, before, after, drop, h);
    }
    forall g, h | g in HashesOf(drop) && h in RemoteHashes(all, locals) - HashesOf(drop)
      ensures !PriceLess(all[h], all[g])
    {
      var i :| 0 <= i < |drop| && drop[i] == all[g];
    }
    if |drop| < count {
      assert RemoteHashes(all, locals) == HashesOf(drop);
    }
  }

  /** A pooled transaction that is not dropped keeps its entry. */
  lemma StillEntered(all: Pool, before: multiset<Tx>, after: multiset<Tx>, drop: seq<Tx>, h: Hash)
    requires Faithful(all, before) && Covered(all, before) && Conserved(all, before, after + multiset(drop))
    requires h in all && h !in HashesOf(drop)
    ensures all[h] in after && Live(all, all[h])
  {
    SeqMember(drop);
    assert all[h] !in drop;
    assert (after + multiset(drop))[all[h]] == before[all[h]];
  }
}
