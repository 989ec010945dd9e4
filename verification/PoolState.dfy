/** The agreement between the three indexes of the transaction pool of core/tx_pool.go: the pending
    lists, the queued lists and the map of all known transactions.

    Between taking a transaction out of a list and either forgetting it or filing it elsewhere the
    pool still knows it: such transactions are owed. */
module PoolState {
  import opened Types
  import opened TxTypes
  import opened TxSortedMap
  import opened TxList
  import opened PricedList

  type Lists = map<Address, List>

  ghost predicate OwnList(l: List, a: Address) {
    WellFormed(l) && forall n :: n in l.items ==> l.items[n].sender == a
  }

  ghost predicate OwnLists(x: Lists) {
    forall a :: a in x ==> OwnList(x[a], a)
  }

  ghost predicate AllStrict(x: Lists, strict: bool) {
    forall a :: a in x ==> x[a].strict == strict
  }

  ghost predicate Listed(x: Lists, tx: Tx) {
    tx.sender in x && Has(x[tx.sender].items, tx)
  }

  /** The list of the sender holds some transaction with this nonce. */
  ghost predicate Occupied(x: Lists, tx: Tx) {
    tx.sender in x && tx.nonce in x[tx.sender].items
  }

  ghost predicate SameSlot(s: Tx, t: Tx) {
    s.sender == t.sender && s.nonce == t.nonce
  }

  ghost predicate InPool(all: Pool, tx: Tx) {
    tx.hash in all && all[tx.hash] == tx
  }

  ghost predicate HashKeyed(all: Pool) {
    forall h :: h in all ==> all[h].hash == h
  }

  /** The map knows exactly the listed and the owed transactions, each under its own hash, and no
      account has one nonce in both of its lists. */
  ghost predicate Agree(x: Lists, y: Lists, all: Pool, owed: set<Tx>) {
    && OwnLists(x) && OwnLists(y)
    && HashKeyed(all)
    && (forall tx :: InPool(all, tx) <==> Listed(x, tx) || Listed(y, tx) || tx in owed)
    && (forall tx :: !(Occupied(x, tx) && Occupied(y, tx)))
    && (forall tx :: tx in owed ==> !Listed(x, tx) && !Listed(y, tx))
  }

  /** No owed transaction collides with a listed one. */
  ghost predicate Clear(x: Lists, owed: set<Tx>) {
    forall tx :: tx in owed ==> !Occupied(x, tx)
  }

  ghost predicate DistinctSlots(owed: set<Tx>) {
    forall s, t :: s in owed && t in owed && SameSlot(s, t) ==> s == t
  }

  /** The items of an account, empty if it has no list. */
  ghost function ItemsOf(x: Lists, a: Address): Items {
    if a in x then x[a].items else map[]
  }

  /** What the pool reads off the agreement. */
  lemma AgreeFacts(x: Lists, y: Lists, all: Pool, owed: set<Tx>)
    requires Agree(x, y, all, owed)
    ensures OwnLists(x) && OwnLists(y) && HashKeyed(all)
    ensures forall tx :: tx in owed ==> InPool(all, tx)
  {
  }

  // ---------- steps that keep the agreement ----------

  lemma AgreeFlip(x: Lists, y: Lists, all: Pool, owed: set<Tx>)
    requires Agree(x, y, all, owed)
    ensures Agree(y, x, all, owed)
  {
  }

  /** Taking transactions out of one list makes them owed. */
  lemma TakeAgree(x: Lists, y: Lists, all: Pool, owed: set<Tx>, a: Address, r: List, out: set<Tx>)
    requires Agree(x, y, all, owed) && a in x && OwnList(r, a)
    requires SubMap(r.items, x[a].items)
    requires forall tx :: tx in out <==> Has(x[a].items, tx) && tx.nonce !in r.items
    ensures Agree(x[a := r], y, all, owed + out)
    ensures Clear(x[a := r], out) && Clear(y, out) && DistinctSlots(out)
    ensures Clear(x, owed) ==> Clear(x[a := r], owed)
  {
    var x' := x[a := r];
    forall tx
      ensures Listed(x, tx) <==> Listed(x', tx) || tx in out
      ensures tx in out ==> Listed(x, tx) && !Listed(x', tx) && !Occupied(x', tx)
      ensures Occupied(x', tx) ==> Occupied(x, tx)
    {
      if tx in out { assert x[a].items[tx.nonce].sender == a; }
    }
    assert forall tx :: tx in out ==> Occupied(x, tx);
  }

  lemma ForgetAgree(x: Lists, y: Lists, all: Pool, owed: set<Tx>, tx: Tx)
    requires Agree(x, y, all, owed) && tx in owed
    ensures Agree(x, y, all - {tx.hash}, owed - {tx})
  {
    assert InPool(all, tx);
    forall t
      ensures InPool(all - {tx.hash}, t) <==> InPool(all, t) && t != tx
    {
    }
  }

  lemma OweAgree(x: Lists, y: Lists, all: Pool, owed: set<Tx>, tx: Tx)
    requires Agree(x, y, all, owed) && tx.hash !in all
    ensures Agree(x, y, all[tx.hash := tx], owed + {tx})
  {
    assert !InPool(all, tx);
    forall t
      ensures InPool(all[tx.hash := tx], t) <==> InPool(all, t) || t == tx
    {
    }
  }

  lemma DropEmptyAgree(x: Lists, y: Lists, all: Pool, owed: set<Tx>, a: Address)
    requires Agree(x, y, all, owed) && a in x && x[a].items == map[]
    ensures Agree(x - {a}, y, all, owed)
    ensures forall tx :: Occupied(x - {a}, tx) <==> Occupied(x, tx)
    ensures forall tx :: Listed(x - {a}, tx) <==> Listed(x, tx)
  {
    forall tx
      ensures Occupied(x - {a}, tx) <==> Occupied(x, tx)
      ensures Listed(x - {a}, tx) <==> Listed(x, tx)
    {
    }
  }

  /** Filing an owed transaction under a free nonce. */
  lemma InsertAgree(x: Lists, y: Lists, all: Pool, owed: set<Tx>, tx: Tx, r: List)
    requires Agree(x, y, all, owed) && tx in owed && !Occupied(x, tx) && !Occupied(y, tx)
    requires OwnList(r, tx.sender) && r.items == ItemsOf(x, tx.sender)[tx.nonce := tx]
    ensures Agree(x[tx.sender := r], y, all, owed - {tx})
    ensures forall t :: Occupied(x[tx.sender := r], t) <==> Occupied(x, t) || SameSlot(t, tx)
  {
    var x' := x[tx.sender := r];
    forall t
      ensures Listed(x', t) <==> Listed(x, t) || t == tx
      ensures Occupied(x', t) <==> Occupied(x, t) || SameSlot(t, tx)
    {
    }
    forall t
      ensures !(Occupied(x', t) && Occupied(y, t))
    {
      if SameSlot(t, tx) { assert !Occupied(y, t); }
    }
  }

  /** Filing an owed transaction in the place of another one, which becomes owed. */
  lemma ReplaceAgree(x: Lists, y: Lists, all: Pool, owed: set<Tx>, tx: Tx, prev: Tx, r: List)
    requires Agree(x, y, all, owed) && tx in owed && !Occupied(y, tx)
    requires Listed(x, prev) && SameSlot(prev, tx)
    requires OwnList(r, tx.sender) && r.items == x[tx.sender].items[tx.nonce := tx]
    ensures Agree(x[tx.sender := r], y, all, owed - {tx} + {prev})
    ensures forall t :: Occupied(x[tx.sender := r], t) <==> Occupied(x, t)
  {
    VacateAgree(x, y, all, owed, tx, prev);
    hide Agree, Occupied, Listed, OwnList;
    var x1 := x[tx.sender := Vacated(x[tx.sender], tx.nonce)];
    InsertAgree(x1, y, all, owed + {prev}, tx, r);
    assert x1[tx.sender := r] == x[tx.sender := r];
    assert owed + {prev} - {tx} == owed - {tx} + {prev};
  }

  /** A list without one of its nonces. */
  ghost function Vacated(l: List, n: nat): List { l.(items := l.items - {n}) }

  /** The first half of a replacement: the transaction in the way becomes owed. */
  lemma VacateAgree(x: Lists, y: Lists, all: Pool, owed: set<Tx>, tx: Tx, prev: Tx)
    requires Agree(x, y, all, owed) && tx in owed && Listed(x, prev) && SameSlot(prev, tx)
    ensures prev != tx && tx.sender in x
    ensures var x1 := x[tx.sender := Vacated(x[tx.sender], tx.nonce)];
            && Agree(x1, y, all, owed + {prev}) && !Occupied(x1, tx)
            && forall t :: Occupied(x, t) <==> Occupied(x1, t) || SameSlot(t, tx)
  {
    var l := Vacated(x[tx.sender], tx.nonce);
    assert WellFormed(l);
    assert !Listed(x, tx);
    TakeAgree(x, y, all, owed, tx.sender, l, {prev});
  }

  /** The list an account has or would be given. */
  function ListOf(x: Lists, a: Address, strict: bool): List {
    if a in x then x[a] else List(strict, map[], 0, 0)
  }

  lemma ListOfOwn(x: Lists, a: Address, strict: bool)
    requires OwnLists(x)
    ensures OwnList(ListOf(x, a, strict), a) && ListOf(x, a, strict).items == ItemsOf(x, a)
  {
  }

  /** The map once tx has been filed and the transaction it replaced, if any, has been forgotten. */
  ghost function Filed(all: Pool, tx: Tx, prev: Option<Tx>): Pool {
    (if prev.Some? then all - {prev.value.hash} else all)[tx.hash := tx]
  }

  /** Filing a new or owed transaction in a list that accepted it. */
  lemma FileAgree(x: Lists, y: Lists, all: Pool, owed: set<Tx>, tx: Tx, strict: bool, prev: Option<Tx>)
    requires Agree(x, y, all, owed) && !Occupied(y, tx)
    requires tx in owed || tx.hash !in all
    requires prev == if Occupied(x, tx) then Some(x[tx.sender].items[tx.nonce]) else None
    ensures var x' := x[tx.sender := Inserted(ListOf(x, tx.sender, strict), tx)];
            && Agree(x', y, Filed(all, tx, prev), owed - {tx})
            && Listed(x', tx)
            && forall t :: Occupied(x', t) <==> Occupied(x, t) || SameSlot(t, tx)
    ensures prev.Some? ==> prev.value.hash != tx.hash
  {
    var r := Inserted(ListOf(x, tx.sender, strict), tx);
    var x' := x[tx.sender := r];
    var all1 := all[tx.hash := tx];
    var owed1 := owed + {tx};
    InsertedOwn(x, tx, strict);
    if tx in owed {
      assert InPool(all, tx);
      assert all1 == all && owed1 == owed;
    } else {
      OweAgree(x, y, all, owed, tx);
    }
    if prev.Some? {
      FiledPrev(x, y, all1, owed1, tx, prev.value);
      ReplaceAgree(x, y, all1, owed1, tx, prev.value, r);
      ForgetAgree(x', y, all1, owed1 - {tx} + {prev.value}, prev.value);
      assert all1 - {prev.value.hash} == Filed(all, tx, prev);
      assert owed1 - {tx} + {prev.value} - {prev.value} == owed - {tx};
    } else {
      InsertAgree(x, y, all1, owed1, tx, r);
      assert owed1 - {tx} == owed - {tx};
    }
  }

  lemma InsertedOwn(x: Lists, tx: Tx, strict: bool)
    requires OwnLists(x)
    ensures var r := Inserted(ListOf(x, tx.sender, strict), tx);
            OwnList(r, tx.sender) && r.items == ItemsOf(x, tx.sender)[tx.nonce := tx]
  {
    ListOfOwn(x, tx.sender, strict);
    InsertedWellFormed(ListOf(x, tx.sender, strict), tx);
  }

  lemma FiledPrev(x: Lists, y: Lists, all: Pool, owed: set<Tx>, tx: Tx, prev: Tx)
    requires Agree(x, y, all, owed) && tx in owed && Occupied(x, tx) && prev == x[tx.sender].items[tx.nonce]
    ensures Listed(x, prev) && SameSlot(prev, tx) && prev.hash != tx.hash && prev !in owed
  {
    assert OwnList(x[tx.sender], tx.sender);
    assert Listed(x, prev) && InPool(all, prev) && InPool(all, tx);
  }

  // ---------- the price heap covers the pool ----------

  lemma CoverForget(txOf: Hash -> Tx, all: Pool, heap: multiset<Tx>, popped: set<Tx>, h: Hash)
    requires Cover(txOf, all, heap, popped)
    ensures Cover(txOf, all - {h}, heap, popped)
  {
  }

  lemma CoverPut(txOf: Hash -> Tx, all: Pool, heap: multiset<Tx>, popped: set<Tx>, tx: Tx)
    requires Cover(txOf, all, heap, popped) && txOf(tx.hash) == tx
    ensures Cover(txOf, all[tx.hash := tx], heap + multiset{tx}, popped)
  {
  }

  /** Every known transaction has a heap entry unless it was popped for removal.  txOf gives the one
      transaction behind each hash. */
  ghost predicate Cover(txOf: Hash -> Tx, all: Pool, heap: multiset<Tx>, popped: set<Tx>) {
    && (forall h :: h in all ==> txOf(h) == all[h] && (all[h] in heap || all[h] in popped))
    && (forall tx :: tx in heap ==> txOf(tx.hash) == tx)
  }

  lemma CoverRebuilt(txOf: Hash -> Tx, all: Pool, heap: multiset<Tx>, popped: set<Tx>, rebuilt: multiset<Tx>)
    requires Cover(txOf, all, heap, popped) && HashKeyed(all)
    requires rebuilt == heap || forall tx :: tx in rebuilt <==> tx.hash in all && all[tx.hash] == tx
    ensures Cover(txOf, all, rebuilt, popped)
  {
  }

  lemma CoverFaithful(txOf: Hash -> Tx, all: Pool, heap: multiset<Tx>)
    requires Cover(txOf, all, heap, {}) && HashKeyed(all)
    ensures Covered(all, heap) && Faithful(all, heap)
  {
  }

  /** Entries that were dropped from the heap are the popped ones from then on. */
  lemma CoverDropped(txOf: Hash -> Tx, all: Pool, before: multiset<Tx>, after: multiset<Tx>, drop: seq<Tx>,
      popped: set<Tx>)
    requires Cover(txOf, all, before, {}) && Conserved(all, before, after + multiset(drop))
    requires HashKeyed(all)
    requires forall tx :: tx in popped <==> tx in drop
    ensures Cover(txOf, all, after, popped)
  {
    SeqMember(drop);
    forall h | h in all
      ensures all[h] in after || all[h] in popped
    {
      assert Live(all, all[h]);
      assert (after + multiset(drop))[all[h]] == before[all[h]];
    }
    forall tx | tx in after
      ensures tx in before
    {
      assert (after + multiset(drop))[tx] <= before[tx];
    }
  }
}
