/** The transaction pool of core/tx_pool.go.  Lists are kept as values and run through the list
    object of TxList; each locked method is one step. */
module TxPool {
  import opened Types
  import opened TxTypes
  import opened TxSortedMap
  import opened TxList
  import opened PricedList
  import opened PoolState
  import opened PendingLevels
  import opened PoolBook
  import Sums
  import ChainTree
  import CommonAncestor

  ghost function Elems(s: seq<Tx>): set<Tx> {
    set tx | tx in s
  }

  class Pool {
    const cfg: Config
    ghost const txOf: Hash -> Tx
    const priced: PriceList
    var pending: Lists
    var queue: Lists
    var all: PricedList.Pool
    var locals: set<Address>
    var gasPrice: nat
    var ledger: Ledger
    var maxGas: nat
    var pendingNonce: map<Address, nat>
    var beats: map<Address, nat>

    /** The indexes agree up to the owed transactions, and the price heap covers what is known up to
        the popped ones. */
    ghost predicate State(owed: set<Tx>, popped: set<Tx>)
      reads this, priced
    {
      && Agree(pending, queue, all, owed)
      && AllStrict(pending, true) && AllStrict(queue, false)
      && priced.Valid() && Cover(txOf, all, multiset(priced.items), popped)
    }

    ghost predicate Valid()
      reads this, priced
    {
      State({}, {})
    }

    constructor (cfg: Config, ledger: Ledger, maxGas: nat, gasPrice: nat, ghost txOf: Hash -> Tx)
      ensures Valid() && all == map[] && pending == map[] && queue == map[] && fresh(priced)
      ensures this.txOf == txOf && this.cfg == cfg
    {
      this.cfg, this.ledger, this.maxGas, this.gasPrice, this.txOf := cfg, ledger, maxGas, gasPrice, txOf;
      pending, queue, all, locals, pendingNonce, beats := map[], map[], map[], {}, map[], map[];
      priced := new PriceList();
    }

    function PendingNonce(a: Address): nat
      reads this
    {
      NonceIn(pendingNonce, ledger, a)
    }

    ghost function Now(): Book
      reads this
    {
      Book(pending, queue, all, pendingNonce, beats, locals)
    }

    function CurrentTerms(now: nat): Terms
      reads this
    {
      Terms(ledger, maxGas, gasPrice, cfg, now)
    }

    // ---------- filing and forgetting ----------

    /** Deletes one owed transaction from the map and tells the price heap. */
    method Forget(tx: Tx, ghost owed: set<Tx>, ghost popped: set<Tx>)
      requires State(owed, popped) && tx in owed
      modifies this`all, priced
      ensures State(owed - {tx}, popped) && all == old(all) - {tx.hash}
    {
      hide Agree, Cover, IsPriceHeap;
      ForgetAgree(pending, queue, all, owed, tx);
      AgreeFacts(pending, queue, all - {tx.hash}, owed - {tx});
      CoverForget(txOf, all, multiset(priced.items), popped, tx.hash);
      all := all - {tx.hash};
      NotifyRemoved(popped);
    }

    /** Tells the price heap that a transaction has left the map. */
    method NotifyRemoved(ghost popped: set<Tx>)
      requires HashKeyed(all) && priced.Valid() && Cover(txOf, all, multiset(priced.items), popped)
      modifies priced
      ensures priced.Valid() && Cover(txOf, all, multiset(priced.items), popped)
    {
      hide Cover, IsPriceHeap;
      ghost var before := multiset(priced.items);
      priced.Removed(all);
      CoverRebuilt(txOf, all, before, popped, multiset(priced.items));
    }

    /** Brings the map and the heap up to date after tx was filed in a list. */
    method RecordFiled(tx: Tx, prev: Option<Tx>, ghost popped: set<Tx>)
      requires HashKeyed(all) && priced.Valid() && Cover(txOf, all, multiset(priced.items), popped)
      requires prev.Some? ==> prev.value.hash != tx.hash
      requires txOf(tx.hash) == tx && (tx.hash in all ==> all[tx.hash] == tx)
      modifies this`all, priced
      ensures all == Filed(old(all), tx, prev)
      ensures priced.Valid() && Cover(txOf, all, multiset(priced.items), popped)
    {
      hide Cover, IsPriceHeap;
      if prev.Some? {
        CoverForget(txOf, all, multiset(priced.items), popped, prev.value.hash);
        all := all - {prev.value.hash};
        NotifyRemoved(popped);
      }
      if tx.hash !in all {
        CoverPut(txOf, all, multiset(priced.items), popped, tx);
        all := all[tx.hash := tx];
        priced.Put(tx);
      }
    }

    method ForgetAll(txs: seq<Tx>, ghost owed: set<Tx>, ghost popped: set<Tx>)
      requires State(owed, popped) && Elems(txs) <= owed && DistinctNonces(txs)
      modifies this`all, priced
      ensures State(owed - Elems(txs), popped) && all == Without(old(all), txs)
    {
      hide Agree, Cover, IsPriceHeap;
      assert owed - Elems(txs[..0]) == owed;
      for i := 0 to |txs|
        invariant State(owed - Elems(txs[..i]), popped) && all == Without(old(all), txs[..i])
      {
        WithoutStep(old(all), txs, i);
        ElemsStep(txs, i);
        Forget(txs[i], owed - Elems(txs[..i]), popped);
        assert owed - Elems(txs[..i]) - {txs[i]} == owed - Elems(txs[..i + 1]);
      }
      assert txs[..|txs|] == txs;
    }

    /** Files a new or owed transaction in the future queue of its sender.  An owed one always goes in. */
    method EnqueueTx(tx: Tx, ghost owed: set<Tx>, ghost popped: set<Tx>) returns (replaced: bool, ok: bool)
      requires State(owed, popped) && !Occupied(pending, tx) && txOf(tx.hash) == tx
      requires if tx in owed then !Occupied(queue, tx) else tx.hash !in all
      modifies this`queue, this`all, priced
      ensures State(owed - {tx}, popped)
      ensures tx in owed ==> ok && !replaced && all == old(all)
      ensures ok ==> Listed(queue, tx) && forall t :: Occupied(queue, t) <==> old(Occupied(queue, t)) || SameSlot(t, tx)
      ensures ok == old(Accepts(ListOf(queue, tx.sender, false), tx, cfg.priceBump))
      ensures ok ==>
                all == old(Filed(all, tx, if Occupied(queue, tx) then Some(queue[tx.sender].items[tx.nonce]) else None))
      ensures !ok ==> !replaced && all == old(all) && queue == old(queue)
      ensures ok ==> queue == old(queue[tx.sender := Inserted(ListOf(queue, tx.sender, false), tx)])
      ensures ok ==> replaced == old(Occupied(queue, tx))
    {
      hide Agree, Cover, IsPriceHeap;
      var from := tx.sender;
      AgreeFacts(pending, queue, all, owed);
      ListOfOwn(queue, from, false);
      var list := ListOf(queue, from, false);
      var r, inserted, prev := AddTo(list, tx, cfg.priceBump);
      if !inserted {
        assert owed - {tx} == owed;
        return false, false;
      }
      AgreeFlip(pending, queue, all, owed);
      FileAgree(queue, pending, all, owed, tx, false, prev);
      queue := queue[from := r];
      RecordFiled(tx, prev, popped);
      AgreeFlip(queue, pending, all, owed - {tx});
      assert tx in owed ==> all == old(all);
      return prev.Some?, true;
    }

    /** Files a new or owed transaction in the pending list of its sender, or forgets it when the one
        it would replace is better. */
    method PromoteTx(tx: Tx, now: nat, ghost owed: set<Tx>, ghost popped: set<Tx>)
      requires State(owed, popped) && !Occupied(queue, tx) && txOf(tx.hash) == tx
      requires tx in owed || tx.hash !in all
      modifies this`pending, this`all, this`beats, this`pendingNonce, priced
      ensures State(owed - {tx}, popped)
      ensures old(Accepts(ListOf(pending, tx.sender, true), tx, cfg.priceBump)) ==> Listed(pending, tx)
      ensures forall t :: Occupied(pending, t) ==> old(Occupied(pending, t)) || SameSlot(t, tx)
      ensures tx in owed && !old(Occupied(pending, tx)) ==> all == old(all)
      ensures if old(Accepts(ListOf(pending, tx.sender, true), tx, cfg.priceBump))
              then pending == old(pending[tx.sender := Inserted(ListOf(pending, tx.sender, true), tx)])
                   && pendingNonce == old(pendingNonce)[tx.sender := tx.nonce + 1]
                   && beats == old(beats)[tx.sender := now]
              else pending == old(pending) && pendingNonce == old(pendingNonce) && beats == old(beats)
    {
      hide Agree, Cover, IsPriceHeap;
      var from := tx.sender;
      AgreeFacts(pending, queue, all, owed);
      ListOfOwn(pending, from, true);
      var list := ListOf(pending, from, true);
      var r, inserted, prev := AddTo(list, tx, cfg.priceBump);
      if !inserted {
        DiscardAgree(pending, queue, all, owed, tx);
        AgreeFacts(pending, queue, all - {tx.hash}, owed - {tx});
        CoverForget(txOf, all, multiset(priced.items), popped, tx.hash);
        all := all - {tx.hash};
        NotifyRemoved(popped);
        return;
      }
      FileAgree(pending, queue, all, owed, tx, true, prev);
      pending := pending[from := r];
      RecordFiled(tx, prev, popped);
      beats := beats[from := now];
      pendingNonce := pendingNonce[from := tx.nonce + 1];
    }

    /** Files owed transactions in the queue; none of these insertions can fail. */
    method EnqueueAll(txs: seq<Tx>, ghost popped: set<Tx>)
      requires State(Elems(txs), popped) && DistinctNonces(txs) && DistinctSlots(Elems(txs))
      requires Clear(pending, Elems(txs)) && Clear(queue, Elems(txs))
      modifies this`queue, this`all, priced
      ensures State({}, popped) && all == old(all)
    {
      hide Agree, Cover, IsPriceHeap;
      assert txs[0..] == txs;
      for i := 0 to |txs|
        invariant State(Elems(txs[i..]), popped) && all == old(all)
        invariant Clear(pending, Elems(txs[i..])) && Clear(queue, Elems(txs[i..]))
      {
        ghost var owed := Elems(txs[i..]);
        TailStep(txs, i);
        AgreeFacts(pending, queue, all, owed);
        CoverHonest(txOf, all, multiset(priced.items), popped, txs[i]);
        var replaced, ok := EnqueueTx(txs[i], owed, popped);
        ClearAfter(queue, owed, txs[i], Elems(txs[i + 1..]), txs);
      }
      assert Elems(txs[|txs|..]) == {};
    }

    /** Removes one transaction from the pool, sending the pending ones that depended on it back to
        the queue. */
    method RemoveTx(hash: Hash, outofbound: bool, ghost popped: set<Tx>)
      requires State({}, popped)
      modifies this`pending, this`queue, this`all, this`beats, this`pendingNonce, priced
      ensures State({}, popped) && all == old(all) - {hash} && Shrunk(Now(), old(Now()), ledger)
      ensures old(hash in all && !Occupied(pending, all[hash])) ==>
                && pending == old(pending) && queue == QueueWithout(old(queue), old(all)[hash])
                && beats == old(beats) && pendingNonce == old(pendingNonce)
      ensures old(hash in all && Occupied(pending, all[hash])) ==>
                BelowOnly(pending, old(pending), old(all)[hash])
                    && PendingNonce(old(all)[hash].sender) <= old(all)[hash].nonce
    {
      hide Agree, Cover, IsPriceHeap, BelowOnly, Shrunk;
      if hash !in all {
        assert all - {hash} == all;
        ShrunkNothing(Now(), ledger);
        return;
      }
      var tx := all[hash];
      AgreeFacts(pending, queue, all, {});
      CoverForget(txOf, all, multiset(priced.items), popped, hash);
      ghost var known := all;
      all := all - {hash};
      if outofbound {
        NotifyRemoved(popped);
      }
      var done := RemoveFromPending(tx, known, popped);
      if done {
        ShrunkBelow(Now(), old(Now()), tx, ledger);
      } else {
        RemoveFromQueue(tx, known, popped);
        ShrunkQueued(Now(), old(Now()), tx, ledger);
      }
    }

    /** The part of removal that looks in the pending list of the sender. */
    method RemoveFromPending(tx: Tx, ghost known: PricedList.Pool, ghost popped: set<Tx>) returns (done: bool)
      requires Agree(pending, queue, known, {}) && InPool(known, tx) && all == known - {tx.hash}
      requires AllStrict(pending, true) && AllStrict(queue, false)
      requires priced.Valid() && Cover(txOf, all, multiset(priced.items), popped)
      modifies this`pending, this`queue, this`all, this`beats, this`pendingNonce, priced
      ensures all == old(all) && done == old(Occupied(pending, tx))
      ensures done ==> State({}, popped)
      ensures done ==> BelowOnly(pending, old(pending), tx)
      ensures done ==> (tx.sender in pending <==> ItemsOf(pending, tx.sender) != map[])
      ensures done ==> beats == old(beats) - (old(pending).Keys - pending.Keys)
      ensures done ==>
                pendingNonce == if old(PendingNonce(tx.sender)) > tx.nonce then old(pendingNonce)[tx.sender := tx.nonce]
                                else old(pendingNonce)
      ensures !done ==> pending == old(pending) && queue == old(queue) && priced.items == old(priced.items)
      ensures !done ==> priced.Valid() && beats == old(beats) && pendingNonce == old(pendingNonce)
    {
      hide Agree, Cover, IsPriceHeap, BelowOnly, Below, Clear, DistinctSlots, Put, AllStrict;
      var addr := tx.sender;
      AgreeFacts(pending, queue, known, {});
      if addr !in pending { return false; }
      var r, removed, invalids := RemoveFrom(pending[addr], tx);
      if !removed { return false; }
      RemovePending(pending, queue, known, tx, r, invalids);
      ListFacts(pending, addr, true);
      OnlyBelow(pending, r, tx);
      PutStrict(pending, addr, r);
      PutPending(addr, r);
      EnqueueAll(invalids, popped);
      if PendingNonce(addr) > tx.nonce {
        pendingNonce := pendingNonce[addr := tx.nonce];
      }
      return true;
    }

    /** Puts a pending list in place; an empty one goes, and the heartbeat with it. */
    method PutPending(addr: Address, r: List)
      requires addr in pending
      modifies this`pending, this`beats
      ensures pending == Put(old(pending), addr, r) && beats == old(beats) - (old(pending).Keys - pending.Keys)
    {
      if r.items == map[] {
        pending := pending - {addr};
        beats := beats - {addr};
      } else {
        pending := pending[addr := r];
      }
    }

    /** The part of removal that looks in the future queue of the sender. */
    method RemoveFromQueue(tx: Tx, ghost known: PricedList.Pool, ghost popped: set<Tx>)
      requires Agree(pending, queue, known, {}) && InPool(known, tx) && all == known - {tx.hash}
      requires AllStrict(pending, true) && AllStrict(queue, false) && !Occupied(pending, tx)
      requires priced.Valid() && Cover(txOf, all, multiset(priced.items), popped)
      modifies this`queue
      ensures State({}, popped) && queue == QueueWithout(old(queue), tx)
    {
      hide Agree, Cover, IsPriceHeap;
      var addr := tx.sender;
      AgreeFacts(pending, queue, known, {});
      QueuedHit(pending, queue, known, tx);
      if addr in queue {
        var r, removed, invalids := RemoveFrom(queue[addr], tx);
        RemoveQueued(pending, queue, known, tx, r);
        queue := queue[addr := r];
        if r.items == map[] {
          DropEmptyQueue(pending, queue, all, {}, addr);
          queue := queue - {addr};
        }
      }
    }

    /** Removes a batch of transactions; those already gone are skipped. */
    method RemoveAll(txs: seq<Tx>, outofbound: bool, ghost popped: set<Tx>)
      requires State({}, popped)
      modifies this`pending, this`queue, this`all, this`beats, this`pendingNonce, priced
      ensures State({}, popped) && all == Without(old(all), txs) && Shrunk(Now(), old(Now()), ledger)
    {
      hide Agree, Cover, IsPriceHeap, Shrunk;
      ShrunkNothing(Now(), ledger);
      for i := 0 to |txs|
        invariant State({}, popped) && all == Without(old(all), txs[..i]) && Shrunk(Now(), old(Now()), ledger)
      {
        WithoutStep(old(all), txs, i);
        ghost var mid := Now();
        RemoveTx(txs[i].hash, outofbound, popped);
        ShrunkThrough(Now(), mid, old(Now()), ledger);
      }
      assert txs[..|txs|] == txs;
    }

    // ---------- adding ----------

    /** Whether every pooled transaction is at least as dear as a remote tx. */
    method TooCheap(tx: Tx) returns (b: bool)
      requires Valid()
      modifies priced
      ensures Valid()
      ensures b ==> Remote(locals, tx) && all != map[]
      ensures UniqueLive(all, multiset(priced.items)) == old(UniqueLive(all, multiset(priced.items)))
      ensures Remote(locals, tx) && all != map[] ==> (b <==> forall h :: h in all ==> tx.price <= all[h].price)
    {
      hide Agree, Cover, IsPriceHeap, Conserved;
      AgreeFacts(pending, queue, all, {});
      ghost var heap := multiset(priced.items);
      CoverFaithful(txOf, all, heap);
      b := priced.Underpriced(all, tx, locals);
      CoverSettle(txOf, all, heap, multiset(priced.items));
      UniqueSettle(all, heap, multiset(priced.items));
    }

    /** Drops the cheapest remote transactions to make room for one more. */
    method MakeRoom()
      requires Valid()
      modifies this`pending, this`queue, this`all, this`beats, this`pendingNonce, priced
      ensures Valid() && Shrunk(Now(), old(Now()), ledger)
      ensures forall h :: h in old(all) && h !in all ==> Remote(locals, old(all)[h])
      ensures CheapestGone(old(all), all, locals)
      ensures RoomMade(old(all), all, locals, RoomNeeded(old(all), cfg), old(UniqueLive(all, multiset(priced.items))))
    {
      hide Agree, Cover, IsPriceHeap, Conserved, CheapestDropped, CheapestGone, RoomMade, UniqueLive, RemoteHashes,
          Without, Shrunk;
      AgreeFacts(pending, queue, all, {});
      ghost var heap, known := multiset(priced.items), all;
      var drop := priced.Discard(all, RoomNeeded(all, cfg), locals);
      CoverDropped(txOf, all, heap, multiset(priced.items), drop, Elems(drop));
      DroppedKnown(txOf, all, heap, multiset(priced.items), drop);
      CheapestLeave(txOf, all, locals, multiset(priced.items), drop);
      CoverFaithful(txOf, all, heap);
      RoomIsMade(all, RoomNeeded(all, cfg), locals, heap, multiset(priced.items), drop);
      WithoutFacts(all, drop);
      RemoveAll(drop, false, Elems(drop));
      AgreeFacts(pending, queue, all, {});
      CoverRemoved(txOf, known, drop, all, multiset(priced.items));
    }

    /** Replaces the pending transaction with the nonce of tx, if tx outbids it. */
    method ReplacePending(tx: Tx) returns (ok: bool)
      requires Valid() && txOf(tx.hash) == tx && tx.hash !in all && Occupied(pending, tx)
      modifies this`pending, this`all, priced
      ensures Valid() && ok == Replaces(old(pending[tx.sender].items[tx.nonce]), tx, cfg.priceBump)
      ensures ok ==> all == Filed(old(all), tx, Some(old(pending[tx.sender].items[tx.nonce])))
      ensures ok ==> pending == old(pending[tx.sender := Inserted(pending[tx.sender], tx)])
      ensures !ok ==> all == old(all) && pending == old(pending)
    {
      hide Agree, Cover, IsPriceHeap;
      var from := tx.sender;
      AgreeFacts(pending, queue, all, {});
      SlotsDisjoint(pending, queue, all, {}, tx);
      var r, inserted, prev := AddTo(pending[from], tx, cfg.priceBump);
      if !inserted { return false; }
      FileAgree(pending, queue, all, {}, tx, true, prev);
      pending := pending[from := r];
      RecordFiled(tx, prev, {});
      assert {} - {tx} == {};
      return true;
    }

    /** Files a validated transaction: over a pending one with its nonce, or into the queue. */
    method File(tx: Tx, local: bool) returns (r: AddResult)
      requires Valid() && txOf(tx.hash) == tx && tx.hash !in all
      modifies this`pending, this`queue, this`all, this`locals, priced
      ensures Valid() && FiledAs(Now(), old(Now()), tx, local, r, cfg)
    {
      hide Agree, Cover, IsPriceHeap, Outbids, Placed, Taken, Filed, Inserted;
      AgreeFacts(pending, queue, all, {});
      SlotHolder(pending, queue, all, tx, cfg.priceBump);
      FiledIsPlaced(pending, queue, all, tx);
      var from := tx.sender;
      if from in pending {
        var overlaps := OverlapsIn(pending[from], tx);
        if overlaps {
          var ok := ReplacePending(tx);
          return if ok then Added(true) else Rejected(ReplaceUnderpriced);
        }
      }
      assert {} - {tx} == {};
      var replaced, ok := EnqueueTx(tx, {}, {});
      if !ok { return Rejected(ReplaceUnderpriced); }
      if local {
        locals := locals + {tx.sender};
      }
      return Added(replaced);
    }

    /** Makes room in a full pool, unless the transaction is too cheap for it. */
    method MakeRoomFor(tx: Tx, local: bool, ghost t: Terms) returns (ok: bool)
      requires Valid() && tx.hash !in all && t == CurrentTerms(t.now)
      modifies this`pending, this`queue, this`all, this`beats, this`pendingNonce, priced
      ensures Valid() && tx.hash !in all && ok == !TurnedAway(old(Now()), tx, local, cfg)
      ensures ok ==> Roomed(Now(), old(Now()), old(UniqueLive(all, multiset(priced.items))), t)
      ensures !ok ==> Now() == old(Now())
    {
      hide Agree, Cover, IsPriceHeap, CheapestGone, RoomMade, RoomNeeded, Shrunk, UniqueLive;
      if !IsFull(all, cfg) { return true; }
      if !local {
        var cheap := TooCheap(tx);
        if cheap { return false; }
      }
      MakeRoom();
      SubpoolLacks(Now(), old(Now()), ledger, tx.hash);
      return true;
    }

    /** Adds a transaction to the pool, through the snapshots of the step s. */
    method Add(tx: Tx, local: bool, ghost now: nat) returns (r: AddResult, ghost s: Step)
      requires Valid() && txOf(tx.hash) == tx
      modifies this`pending, this`queue, this`all, this`beats, this`pendingNonce, this`locals, priced
      ensures Valid() && AddStep(s, local, CurrentTerms(now))
      ensures s.tx == tx && s.before == old(Now()) && s.after == Now() && s.result == r
      ensures s.unique == old(UniqueLive(all, multiset(priced.items)))
    {
      hide State, UniqueLive, FiledAs, Validate, Roomed, TurnedAway;
      ghost var b, unique := Now(), UniqueLive(all, multiset(priced.items));
      s := Step(tx, b, b, b, unique, Rejected(Known));
      if tx.hash in all { return Rejected(Known), s; }
      var bad := Validate(tx, local, locals, CurrentTerms(0));
      ValidateAnytime(tx, local, locals, CurrentTerms(0), now);
      if bad.Some? { return Rejected(bad.value), s.(result := Rejected(bad.value)); }
      var ok := MakeRoomFor(tx, local, CurrentTerms(now));
      if !ok { return Rejected(Underpriced), s.(result := Rejected(Underpriced)); }
      ghost var room := Now();
      r := File(tx, local);
      s := Step(tx, b, room, Now(), unique, r);
    }

    // ---------- the pending overflow stage ----------

    /** Lowers the virtual nonce of an account to the lowest of the given transactions. */
    method LowerNonce(addr: Address, txs: seq<Tx>)
      modifies this`pendingNonce
      ensures SameElsewhere(pendingNonce, old(pendingNonce), addr)
      ensures PendingNonce(addr) <= old(PendingNonce(addr))
      ensures forall i :: 0 <= i < |txs| ==> PendingNonce(addr) <= txs[i].nonce
      ensures PendingNonce(addr) == old(PendingNonce(addr))
              || exists i :: 0 <= i < |txs| && PendingNonce(addr) == txs[i].nonce
    {
      for i := 0 to |txs|
        invariant SameElsewhere(pendingNonce, old(pendingNonce), addr) && PendingNonce(addr) <= old(PendingNonce(addr))
        invariant forall j :: 0 <= j < i ==> PendingNonce(addr) <= txs[j].nonce
        invariant PendingNonce(addr) == old(PendingNonce(addr))
                  || exists j :: 0 <= j < i && PendingNonce(addr) == txs[j].nonce
      {
        if PendingNonce(addr) > txs[i].nonce {
          pendingNonce := pendingNonce[addr := txs[i].nonce];
        }
      }
    }

    /** Drops the highest nonce of a pending list. */
    method DropLast(addr: Address)
      requires Valid() && addr in pending && |pending[addr].items| > 0
      modifies this`pending, this`all, this`pendingNonce, priced
      ensures Valid() && pending == old(pending)[addr := CutList(old(pending)[addr], |old(pending)[addr].items| - 1)]
      ensures Lowered(pendingNonce, old(pendingNonce), ledger, pending, old(pending))
    {
      hide Agree, Cover, IsPriceHeap, Lowest, Lowered;
      AgreeFacts(pending, queue, all, {});
      OwnOne(pending, addr);
      var r, drops := CapOf(pending[addr], |pending[addr].items| - 1);
      PendingTaken(pending, queue, all, addr, r, drops);
      pending := pending[addr := r];
      ForgetAll(drops, Elems(drops), {});
      assert Elems(drops) - Elems(drops) == {};
      LowerNonce(addr, drops);
      LoweredFor(pendingNonce, old(pendingNonce), ledger, old(pending), addr, r, drops);
    }

    /** One round over the offenders, all of the same length, dropping one transaction from each. */
    method DropRound(offenders: seq<Address>, ghost level: nat) returns (dropped: nat)
      requires Valid() && level > 0 && Aligned(pending, offenders, level)
      modifies this`pending, this`all, this`pendingNonce, priced
      ensures Valid() && dropped == |offenders| && Count(pending) == Count(old(pending)) - dropped
      ensures pending == CutOn(old(pending), Addresses(offenders), level - 1)
      ensures Lowered(pendingNonce, old(pendingNonce), ledger, pending, old(pending))
    {
      hide Agree, Cover, IsPriceHeap, Lowest, CutOn, Count, Aligned, Lowered;
      LoweredSame(pendingNonce, ledger, pending);
      ghost var x := pending;
      dropped := 0;
      RoundStart(x, offenders, level);
      for i := 0 to |offenders|
        invariant Valid() && dropped == i && Count(pending) == Count(x) - i
        invariant pending == CutOn(x, Addresses(offenders[..i]), level - 1)
        invariant Lowered(pendingNonce, old(pendingNonce), ledger, pending, old(pending))
      {
        RoundStep(x, offenders, i, level);
        ghost var n, y := pendingNonce, pending;
        DropLast(offenders[i]);
        LoweredThrough(pendingNonce, n, old(pendingNonce), ledger, pending, y, old(pending));
        dropped := dropped + 1;
      }
      assert offenders[..|offenders|] == offenders;
    }

    /** Rounds over the offenders until the pool is within its limit or they are down to the floor. */
    method LowerTo(offenders: seq<Address>, floor: nat, count: nat, ghost x: Lists, ghost level: nat)
      returns (left: nat, ghost lower: nat)
      requires Valid() && |offenders| > 0 && Distinct(offenders) && Full(x, offenders, level)
      requires floor <= level && pending == CutOn(x, Addresses(offenders), level) && count == Count(pending)
      modifies this`pending, this`all, this`pendingNonce, priced
      ensures Valid() && pending == CutOn(x, Addresses(offenders), lower) && left == Count(pending)
      ensures Full(x, offenders, lower) && floor <= lower <= level
      ensures left <= cfg.globalSlots || lower == floor
      ensures lower < level ==> Count(CutOn(x, Addresses(offenders), lower + 1)) > cfg.globalSlots
      ensures Lowered(pendingNonce, old(pendingNonce), ledger, pending, old(pending))
    {
      hide Valid, Lowest, CutOn, Count, Aligned, Addresses, Distinct, Lowered;
      LoweredSame(pendingNonce, ledger, pending);
      left, lower := count, level;
      FullAligned(x, offenders, lower);
      AlignedLast(pending, offenders, lower);
      while left > cfg.globalSlots && |pending[offenders[|offenders| - 1]].items| > floor
        invariant Valid() && Full(x, offenders, lower) && floor <= lower <= level && left == Count(pending)
        invariant pending == CutOn(x, Addresses(offenders), lower) && Aligned(pending, offenders, lower)
        invariant offenders[|offenders| - 1] in pending && |pending[offenders[|offenders| - 1]].items| == lower
        invariant lower < level ==> Count(CutOn(x, Addresses(offenders), lower + 1)) > cfg.globalSlots
        invariant Lowered(pendingNonce, old(pendingNonce), ledger, pending, old(pending))
        decreases lower
      {
        ghost var n, y := pendingNonce, pending;
        var dropped := DropRound(offenders, lower);
        LoweredThrough(pendingNonce, n, old(pendingNonce), ledger, pending, y, old(pending));
        CountNonNegative(pending);
        left := left - dropped;
        CutOnAgain(x, Addresses(offenders), lower - 1, lower);
        lower := lower - 1;
        FullAligned(x, offenders, lower);
        AlignedLast(pending, offenders, lower);
      }
    }

    /** An account with the longest pending list, as the priority queue hands it out. */
    method Longest(rest: set<Address>) returns (a: Address)
      requires rest != {} && rest <= pending.Keys
      ensures a in rest && forall b :: b in rest ==> |pending[b].items| <= |pending[a].items|
    {
      a :| a in rest;
      var todo := rest - {a};
      while todo != {}
        invariant todo <= rest && a in rest
        invariant forall b :: b in rest && b !in todo ==> |pending[b].items| <= |pending[a].items|
        decreases |todo|
      {
        var b :| b in todo;
        if |pending[b].items| > |pending[a].items| { a := b; }
        todo := todo - {b};
      }
    }

    /** Takes offenders longest first, lowering the earlier ones to the length of each new one. */
    method Equalize(total: nat, ghost x: Lists, ghost start: nat)
      returns (offenders: seq<Address>, count: nat, ghost rest: set<Address>, ghost level: nat)
      requires Valid() && pending == x && total == Count(x)
      requires IsBound(x, start) && cfg.accountSlots <= start
      modifies this`pending, this`all, this`pendingNonce, priced
      ensures Valid() && count == Count(pending) && pending == CutOn(x, Addresses(offenders), level)
      ensures Flooded(x, locals, cfg.accountSlots, cfg.globalSlots, offenders, rest, level)
      ensures count > cfg.globalSlots ==> rest == {} && (|offenders| > 0 ==> Full(x, offenders, level))
      ensures Lowered(pendingNonce, old(pendingNonce), ledger, pending, old(pending))
    {
      hide Valid, Lowest, CutOn, Cut, Count, Flooded, Full, Needed, Cuts, Spammers, IsBound, Addresses, Lowered;
      LoweredSame(pendingNonce, ledger, pending);
      var waiting := FindSpammers();
      count, offenders, level := total, [], start;
      FloodStart(x, locals, cfg.accountSlots, cfg.globalSlots, start);
      while count > cfg.globalSlots && waiting != {}
        invariant Valid() && count == Count(pending) && pending == CutOn(x, Addresses(offenders), level)
        invariant Flooded(x, locals, cfg.accountSlots, cfg.globalSlots, offenders, waiting, level)
        invariant count > cfg.globalSlots && |offenders| > 0 ==> Full(x, offenders, level)
        invariant |offenders| == 0 ==> pending == x
        invariant Lowered(pendingNonce, old(pendingNonce), ledger, pending, old(pending))
        decreases |waiting|
      {
        RestUncut(x, locals, cfg.accountSlots, cfg.globalSlots, offenders, waiting, level);
        var a := Longest(waiting);
        if |offenders| == 0 {
          FloodFirst(x, locals, cfg.accountSlots, cfg.globalSlots, waiting, level, a);
          level := |x[a].items|;
          assert offenders + [a] == [a];
        } else {
          ghost var lower: nat;
          ghost var n, y := pendingNonce, pending;
          count, lower := LowerTo(offenders, |pending[a].items|, count, x, level);
          LoweredThrough(pendingNonce, n, old(pendingNonce), ledger, pending, y, old(pending));
          FloodNext(x, locals, cfg.accountSlots, cfg.globalSlots, offenders, waiting, level, lower, a);
          FullNext(x, offenders, a, lower);
          level := lower;
        }
        offenders := offenders + [a];
        waiting := waiting - {a};
      }
      rest := waiting;
    }

    /** Cuts every remote account to the highest common level that brings the pool within its limit,
        but never below the guaranteed allowance. */
    method TruncatePending() returns (ghost level: nat)
      requires Valid()
      modifies this`pending, this`all, this`pendingNonce, priced
      ensures Valid() && level >= cfg.accountSlots
      ensures pending == Cut(old(pending), locals, level)
      ensures Needed(old(pending), locals, cfg.globalSlots, level)
      ensures Count(pending) <= cfg.globalSlots || !Cuts(pending, locals, cfg.accountSlots)
      ensures Lowered(pendingNonce, old(pendingNonce), ledger, pending, old(pending))
    {
      hide Valid, Lowest, CutOn, Cut, Count, Flooded, Full, Needed, Cuts, IsBound, Addresses, Lowered;
      LoweredSame(pendingNonce, ledger, pending);
      ghost var x := pending;
      level := StartLevel(x, cfg.accountSlots);
      var count := CountLists(pending);
      if count <= cfg.globalSlots {
        NothingCut(x, locals, level, cfg.globalSlots);
        return;
      }
      var offenders;
      ghost var rest;
      offenders, count, rest, level := Equalize(count, x, level);
      FloodedFacts(x, locals, cfg.accountSlots, cfg.globalSlots, offenders, rest, level);
      ghost var lower: nat := level;
      if count > cfg.globalSlots && |offenders| > 0 {
        ghost var n, y := pendingNonce, pending;
        count, lower := LowerTo(offenders, cfg.accountSlots, count, x, level);
        LoweredThrough(pendingNonce, n, old(pendingNonce), ledger, pending, y, old(pending));
      }
      FloodDone(x, locals, cfg.accountSlots, cfg.globalSlots, offenders, rest, level, lower);
      if count > cfg.globalSlots {
        AllWithin(x, locals, cfg.accountSlots, cfg.globalSlots, offenders, level, lower);
      }
      level := lower;
    }

    method FindSpammers() returns (rest: set<Address>)
      ensures rest == Spammers(pending, locals, cfg.accountSlots)
    {
      rest := {};
      var todo := pending.Keys;
      while todo != {}
        invariant todo <= pending.Keys
        invariant forall a :: a in rest <==>
                    a in pending && a !in todo && a !in locals && |pending[a].items| > cfg.accountSlots
        decreases |todo|
      {
        var a :| a in todo;
        todo := todo - {a};
        if a !in locals && |pending[a].items| > cfg.accountSlots {
          rest := rest + {a};
        }
      }
    }

    // ---------- price threshold ----------

    /** Raises or lowers the price floor; exactly the remote transactions below it leave the pool. */
    method SetGasPrice(price: nat)
      requires Valid()
      modifies this`gasPrice, this`pending, this`queue, this`all, this`beats, this`pendingNonce, priced
      ensures Valid() && gasPrice == price && Shrunk(Now(), old(Now()), ledger)
      ensures all ==
              map h | h in old(all) && (old(all)[h].sender in locals || old(all)[h].price >= price) :: old(all)[h]
    {
      hide Agree, Cover, IsPriceHeap, Conserved, Shrunk;
      gasPrice := price;
      AgreeFacts(pending, queue, all, {});
      ghost var heap, known := multiset(priced.items), all;
      var drop := priced.Cap(all, price, locals);
      CoverDropped(txOf, all, heap, multiset(priced.items), drop, Elems(drop));
      PriceCut(txOf, all, price, locals, heap, multiset(priced.items), drop);
      RemoveAll(drop, false, Elems(drop));
      AgreeFacts(pending, queue, all, {});
      CoverRemoved(txOf, known, drop, all, multiset(priced.items));
    }

    // ---------- promotion ----------

    /** Replaces the queue of an account by a shorter one and forgets what was taken out. */
    method ShortenQueue(addr: Address, r: List, out: seq<Tx>)
      requires Valid() && addr in queue && WellFormed(r) && !r.strict && TakenOut(queue[addr].items, r.items, out)
      modifies this`queue, this`all, priced
      ensures Valid() && queue == old(queue)[addr := r]
    {
      hide Agree, Cover, IsPriceHeap;
      QueueTaken(pending, queue, all, addr, r, out);
      queue := queue[addr := r];
      ForgetAll(out, Elems(out), {});
      assert Elems(out) - Elems(out) == {};
    }

    /** Moves executable transactions from the queue of an account to its pending list; none is lost. */
    method PromoteReady(addr: Address, r: List, ready: seq<Tx>, now: nat)
      requires Valid() && addr in queue && WellFormed(r) && !r.strict && TakenOut(queue[addr].items, r.items, ready)
      modifies this`pending, this`queue, this`all, this`beats, this`pendingNonce, priced
      ensures Valid() && queue == old(queue)[addr := r] && all == old(all)
      ensures Gained(pending, old(pending), addr, old(queue)[addr].items - r.items.Keys)
      ensures ready == [] ==> pendingNonce == old(pendingNonce) && beats == old(beats)
      ensures ready != [] ==> pendingNonce == old(pendingNonce)[addr := ready[|ready| - 1].nonce + 1]
      ensures ready != [] ==> beats == old(beats)[addr := now]
    {
      hide Agree, Cover, IsPriceHeap, ByNonce, Gained, Clear, Elems, DistinctSlots, TakenOut, OwnLists, WellFormed;
      AgreeFacts(pending, queue, all, {});
      ReadyFacts(queue, addr, r, ready);
      QueueTaken(pending, queue, all, addr, r, ready);
      queue := queue[addr := r];
      assert ready[0..] == ready && ready[..0] == [];
      GainedNothing(pending, addr);
      for i := 0 to |ready|
        invariant State(Elems(ready[i..]), {}) && all == old(all) && queue == old(queue)[addr := r]
        invariant Clear(pending, Elems(ready[i..])) && Clear(queue, Elems(ready[i..]))
        invariant Gained(pending, old(pending), addr, ByNonce(ready[..i]))
        invariant i > 0 ==> pendingNonce == old(pendingNonce)[addr := ready[i - 1].nonce + 1]
        invariant i > 0 ==> beats == old(beats)[addr := now]
        invariant i == 0 ==> pendingNonce == old(pendingNonce) && beats == old(beats)
      {
        PromoteOne(addr, ready, i, now, old(pending));
      }
      assert ready[|ready|..] == [] && ready[..|ready|] == ready;
      ElemsNothing();
    }

    /** Promotes the next of several transactions taken out of a queue. */
    method PromoteOne(addr: Address, ready: seq<Tx>, i: nat, now: nat, ghost x0: Lists)
      requires i < |ready| && DistinctNonces(ready) && ready[i].sender == addr && DistinctSlots(Elems(ready))
      requires State(Elems(ready[i..]), {}) && Clear(pending, Elems(ready[i..])) && Clear(queue, Elems(ready[i..]))
      requires Gained(pending, x0, addr, ByNonce(ready[..i]))
      modifies this`pending, this`all, this`beats, this`pendingNonce, priced
      ensures State(Elems(ready[i + 1..]), {}) && Clear(pending, Elems(ready[i + 1..]))
      ensures Clear(queue, Elems(ready[i + 1..]))
      ensures all == old(all) && Gained(pending, x0, addr, ByNonce(ready[..i + 1]))
      ensures pendingNonce == old(pendingNonce)[addr := ready[i].nonce + 1] && beats == old(beats)[addr := now]
    {
      hide Agree, Cover, IsPriceHeap, ByNonce, Gained, Inserted, ListOf, Accepts, Occupied, Listed;
      ghost var owed := Elems(ready[i..]);
      TailStep(ready, i);
      AgreeFacts(pending, queue, all, owed);
      CoverHonest(txOf, all, multiset(priced.items), {}, ready[i]);
      ByNonceStep(ready, i);
      GainedStep(pending, x0, addr, ByNonce(ready[..i]), ready[i], cfg.priceBump);
      PromoteTx(ready[i], now, owed, {});
      ClearAfter(pending, owed, ready[i], Elems(ready[i + 1..]), ready);
    }

    /** Forgets the queued transactions of an account that are too old or cannot be paid for. */
    method DropStaleQueued(addr: Address, ghost now: nat)
      requires Valid() && addr in queue
      modifies this`queue, this`all, priced
      ensures Valid() && StaleDropped(Now(), old(Now()), addr, CurrentTerms(now))
    {
      hide Agree, Cover, IsPriceHeap, Payable, TakenOut;
      AgreeFacts(pending, queue, all, {});
      var r, out := ForwardOf(queue[addr], ledger.nonce(addr));
      ShortenQueue(addr, r, out);
      var drops, invalids;
      r, drops, invalids := FilterOf(queue[addr], ledger.balance(addr), maxGas);
      assert drops + invalids == drops;
      ShortenQueue(addr, r, drops);
      assert queue == old(queue)[addr := r];
    }

    /** The promotion steps for one account. */
    method PromoteAccount(addr: Address, now: nat)
      requires Valid()
      modifies this`pending, this`queue, this`all, this`beats, this`pendingNonce, priced
      ensures Valid() && OthersUntouched(Now(), old(Now()), addr)
      ensures Promoted(addr, Now(), old(Now()), CurrentTerms(now))
    {
      hide State, StaleDropped, ReadyTaken, QueueCapped, Promoted, OthersUntouched;
      if addr !in queue {
        PromotedNothing(addr, Now(), CurrentTerms(now));
        return;
      }
      ghost var t := CurrentTerms(now);
      DropStaleQueued(addr, now);
      ghost var payable := Now();
      StaleDroppedQueue(payable, old(Now()), addr, t);
      TakeReady(addr, now);
      ghost var waiting := Now();
      ReadyTakenQueue(waiting, payable, addr, t);
      CapQueue(addr, now);
      PromotedBy(addr, Now(), waiting, payable, old(Now()), t);
    }

    /** Moves the run from the virtual nonce of an account to its pending list. */
    method TakeReady(addr: Address, now: nat)
      requires Valid() && addr in queue
      modifies this`pending, this`queue, this`all, this`beats, this`pendingNonce, priced
      ensures Valid() && ReadyTaken(Now(), old(Now()), addr, CurrentTerms(now))
    {
      hide Agree, Cover, IsPriceHeap, NotReady, TakenOut, Gained, ReadyTaken, PastLast;
      AgreeFacts(pending, queue, all, {});
      ListFacts(queue, addr, false);
      var r, ready := ReadyOf(queue[addr], PendingNonce(addr));
      ReadyLast(queue[addr].items, r.items, ready);
      PromoteReady(addr, r, ready, now);
      ghost var next := if ready == [] then None else Some(ready[|ready| - 1].nonce + 1);
      ReadyTakenBy(Now(), old(Now()), addr, r, next, CurrentTerms(now));
    }

    /** Holds the queue of a remote account to its limit, and forgets an empty one. */
    method CapQueue(addr: Address, ghost now: nat)
      requires Valid() && addr in queue
      modifies this`queue, this`all, priced
      ensures Valid() && QueueCapped(Now(), old(Now()), addr, CurrentTerms(now))
    {
      hide Agree, Cover, IsPriceHeap, Lowest, TakenOut;
      AgreeFacts(pending, queue, all, {});
      if addr !in locals {
        var r, out := CapOf(queue[addr], cfg.accountQueue);
        ShortenQueue(addr, r, out);
      }
      if queue[addr].items == map[] {
        DropEmptyQueue(pending, queue, all, {}, addr);
        queue := queue - {addr};
      }
    }

    // ---------- demotion ----------

    /** Replaces a pending list by a shorter one, forgetting some of what was taken out and sending
        the rest back to the queue; none of the latter can be refused. */
    method ShortenPending(addr: Address, r: List, gone: seq<Tx>, back: seq<Tx>)
      requires Valid() && addr in pending && WellFormed(r) && r.strict
      requires TakenOut(pending[addr].items, r.items, gone + back)
      modifies this`pending, this`queue, this`all, priced
      ensures Valid() && pending == old(pending)[addr := r] && all == Without(old(all), gone)
    {
      hide Agree, Cover, IsPriceHeap;
      PendingTaken(pending, queue, all, addr, r, gone + back);
      SplitElems(gone, back);
      pending := pending[addr := r];
      ForgetAll(gone, Elems(gone + back), {});
      EnqueueAll(back, {});
    }

    /** Forgets what the chain has overtaken and what cannot be paid for, and requeues what depended on it. */
    method DropUnexecutable(addr: Address) returns (r: List)
      requires Valid() && addr in pending
      modifies this`pending, this`queue, this`all, priced
      ensures Valid() && pending == old(pending)[addr := r] && WellFormed(r) && r.strict
      ensures r.items == StillPayable(old(pending)[addr], ledger.nonce(addr), ledger.balance(addr), maxGas)
      ensures all == Runnable(old(all), old(pending), addr, ledger, maxGas)
    {
      hide Agree, Cover, IsPriceHeap, Payable, Unpayable, TakenOut, Without, Runnable;
      AgreeFacts(pending, queue, all, {});
      ghost var x, y, known := pending, queue, all;
      var out, drops, invalids;
      r, out := ForwardOf(pending[addr], ledger.nonce(addr));
      assert out + [] == out;
      ShortenPending(addr, r, out, []);
      r, drops, invalids := FilterOf(r, ledger.balance(addr), maxGas);
      ShortenPending(addr, r, drops, invalids);
      ForgottenExactly(x, y, known, addr, ledger, maxGas, out, drops);
    }

    /** Requeues a pending list that does not start at the account nonce. */
    method CloseGap(addr: Address) returns (r: List)
      requires Valid() && addr in pending
      modifies this`pending, this`queue, this`all, priced
      ensures Valid() && all == old(all) && pending == old(pending)[addr := r]
      ensures r.items == FromNonce(old(pending)[addr].items, ledger.nonce(addr))
    {
      hide Agree, Cover, IsPriceHeap, Lowest, TakenOut;
      AgreeFacts(pending, queue, all, {});
      r := pending[addr];
      if |r.items| > 0 && ledger.nonce(addr) !in r.items {
        var out;
        LowestSize(r.items, 0);
        r, out := CapOf(r, 0);
        assert [] + out == out;
        ShortenPending(addr, r, [], out);
      }
    }

    /** The demotion steps for one account.  What stays pending starts at the account nonce and is payable. */
    method DemoteAccount(addr: Address)
      requires Valid() && addr in pending
      modifies this`pending, this`queue, this`all, this`beats, priced
      ensures Valid() && DemotedOne(Now(), old(Now()), addr, ledger, maxGas)
    {
      hide Agree, Cover, IsPriceHeap, Runnable, StillPayable, FromNonce, DemotedOne, Put, AllStrict;
      var r := DropUnexecutable(addr);
      r := CloseGap(addr);
      assert pending == old(pending)[addr := r];
      PutAgree(old(pending), queue, all, {}, addr, r);
      PutTwice(old(pending), addr, r);
      PutPending(addr, r);
      DemotedOneBy(Now(), old(Now()), addr, r, ledger, maxGas);
    }

    // ---------- the queue overflow stage ----------

    /** Removes queued transactions of one account, one by one. */
    method DropQueued(addr: Address, txs: seq<Tx>)
      requires Valid() && DistinctNonces(txs)
      requires forall i :: 0 <= i < |txs| ==> txs[i].sender == addr && Listed(queue, txs[i])
      modifies this`pending, this`queue, this`all, this`beats, this`pendingNonce, priced
      ensures Valid() && pending == old(pending) && beats == old(beats) && pendingNonce == old(pendingNonce)
      ensures QueueLess(queue, old(queue), addr, Nonces(txs)) && Count(queue) == Count(old(queue)) - |txs|
    {
      hide Agree, Cover, IsPriceHeap, Count, Nonces, QueueLess, QueueWithout;
      QueueLessNothing(queue, addr);
      NoncesNothing(txs);
      for i := 0 to |txs|
        invariant Valid() && pending == old(pending) && beats == old(beats) && pendingNonce == old(pendingNonce)
        invariant QueueLess(queue, old(queue), addr, Nonces(txs[..i])) && Count(queue) == Count(old(queue)) - i
        invariant forall j :: i <= j < |txs| ==> Listed(queue, txs[j])
      {
        NoncesStep(txs, i);
        AgreeFlip(pending, queue, all, {});
        ListedFacts(queue, pending, all, {}, addr, txs[i].nonce);
        SlotsDisjoint(queue, pending, all, {}, txs[i]);
        QueueWithoutFacts(queue, txs[i]);
        QueueWithoutKeeps(queue, txs, i);
        QueueLessStep(QueueWithout(queue, txs[i]), queue, old(queue), addr, Nonces(txs[..i]), txs[i].nonce);
        RemoveTx(txs[i].hash, true, {});
      }
      assert txs[..|txs|] == txs;
    }

    /** The accounts with remote queued transactions, sorted by their last heartbeat. */
    method RemoteQueues() returns (addresses: seq<Address>)
      ensures Distinct(addresses) && forall a :: a in addresses <==> a in queue && a !in locals
      ensures forall i, j :: 0 <= i < j < |addresses| ==> Heard(beats, addresses[i]) <= Heard(beats, addresses[j])
    {
      addresses := [];
      var todo := queue.Keys;
      while todo != {}
        invariant todo <= queue.Keys && Distinct(addresses)
        invariant forall a :: a in addresses <==> a in queue && a !in todo && a !in locals
        decreases |todo|
      {
        var a :| a in todo;
        todo := todo - {a};
        if a !in locals { addresses := addresses + [a]; }
      }
      var heard := beats;
      var key := (a: Address) => Heard(heard, a);
      SortedAddresses(key, addresses);
      SortByCorrect(key, addresses);
      addresses := SortBy(key, addresses);
    }

    /** Drops queued transactions of remote accounts, most recently heard first, until the total is
        exactly the limit or no remote one is left.  Every queue keeps its lowest nonces; an account loses
        something only when those heard of more recently have lost everything; local queues and pending
        lists are untouched. */
    method TruncateQueue()
      requires Valid()
      modifies this`pending, this`queue, this`all, this`beats, this`pendingNonce, priced
      ensures Valid() && pending == old(pending) && beats == old(beats) && pendingNonce == old(pendingNonce)
      ensures Count(queue) <= cfg.globalQueue || RemoteEmpty(queue, locals)
      ensures QueuesCut(queue, old(queue), locals, beats, cfg.globalQueue)
    {
      hide Agree, Cover, IsPriceHeap, Count, Sorted, Trimmed, RecentFirst, TruncatedSoFar, RemoteEmpty, LocalsSame,
          OthersSame, Lowest, Truncating;
      var queued := CountLists(queue);
      NothingTrimmed(queue, locals, beats);
      if queued <= cfg.globalQueue { return; }
      var addresses := RemoteQueues();
      var drop := queued - cfg.globalQueue;
      TruncationStart(queue, locals, beats, addresses);
      while drop > 0 && |addresses| > 0
        invariant Valid() && pending == old(pending) && beats == old(beats) && pendingNonce == old(pendingNonce)
        invariant drop >= 0 && Count(queue) == cfg.globalQueue + drop
        invariant Truncating(queue, old(queue), locals, beats, addresses, drop > 0)
        decreases |addresses|
      {
        var addr := addresses[|addresses| - 1];
        ghost var before := queue;
        NextTruncated(queue, old(queue), locals, beats, addresses);
        var dropped := DropFrom(addr, drop);
        TruncatingStep(queue, before, old(queue), locals, beats, addresses, |before[addr].items| - dropped,
            dropped < drop);
        addresses := addresses[..|addresses| - 1];
        drop := drop - dropped;
      }
      TruncationDone(queue, old(queue), locals, beats, addresses, drop > 0);
    }

    /** Drops the whole queue of an account, or its highest nonces when that is enough. */
    method DropFrom(addr: Address, drop: nat) returns (dropped: nat)
      requires Valid() && addr in queue
      modifies this`pending, this`queue, this`all, this`beats, this`pendingNonce, priced
      ensures Valid() && pending == old(pending) && beats == old(beats) && pendingNonce == old(pendingNonce)
      ensures OthersSame(queue, old(queue), addr)
      ensures Count(queue) == Count(old(queue)) - dropped && dropped <= drop && dropped <= |old(queue)[addr].items|
      ensures ItemsOf(queue, addr) == Lowest(old(queue)[addr].items, |old(queue)[addr].items| - dropped)
      ensures dropped < drop ==> ItemsOf(queue, addr) == map[]
    {
      hide Agree, Cover, IsPriceHeap, Count, Lowest;
      var size := |queue[addr].items|;
      if size <= drop {
        DropWhole(addr);
        return size;
      }
      DropHighest(addr, drop);
      return drop;
    }

    /** Drops the whole queue of an account. */
    method DropWhole(addr: Address)
      requires Valid() && addr in queue
      modifies this`pending, this`queue, this`all, this`beats, this`pendingNonce, priced
      ensures Valid() && pending == old(pending) && beats == old(beats) && pendingNonce == old(pendingNonce)
      ensures OthersSame(queue, old(queue), addr)
      ensures Count(queue) == Count(old(queue)) - |old(queue)[addr].items|
      ensures ItemsOf(queue, addr) == map[] == Lowest(old(queue)[addr].items, 0)
    {
      hide Agree, Cover, IsPriceHeap, Count, Sorted, Lowest, Nonces, DistinctNonces, Listed;
      AgreeFacts(pending, queue, all, {});
      var txs := FlattenOf(queue[addr]);
      FlattenFacts(queue, addr);
      OwnOne(queue, addr);
      NothingLeft(queue[addr].items);
      DropQueued(addr, txs);
    }

    /** Drops the highest nonces of a queue. */
    method DropHighest(addr: Address, drop: nat)
      requires Valid() && addr in queue && drop <= |queue[addr].items|
      modifies this`pending, this`queue, this`all, this`beats, this`pendingNonce, priced
      ensures Valid() && pending == old(pending) && beats == old(beats) && pendingNonce == old(pendingNonce)
      ensures OthersSame(queue, old(queue), addr)
      ensures Count(queue) == Count(old(queue)) - drop
      ensures ItemsOf(queue, addr) == Lowest(old(queue)[addr].items, |old(queue)[addr].items| - drop)
    {
      hide Agree, Cover, IsPriceHeap, Count, Sorted, Lowest, Nonces, DistinctNonces, Listed;
      AgreeFacts(pending, queue, all, {});
      var txs := FlattenOf(queue[addr]);
      FlattenFacts(queue, addr);
      OwnOne(queue, addr);
      var tail := Backwards(txs, drop);
      TailFacts(queue, addr, txs, tail);
      FrontLeft(queue[addr].items, |txs| - drop, tail);
      DropQueued(addr, tail);
    }

    // ---------- whole passes over the pool ----------

    /** Promotes what is ready for each of the accounts; the others are left alone. */
    method PromoteEach(accounts: seq<Address>, now: nat)
      requires Valid()
      modifies this`pending, this`queue, this`all, this`beats, this`pendingNonce, priced
      ensures Valid()
      ensures Distinct(accounts) ==> AllPromoted(Addresses(accounts), Now(), old(Now()), CurrentTerms(now))
    {
      hide State, AllPromoted, Promoted, OthersUntouched;
      NonePromoted(Now(), CurrentTerms(now));
      assert Addresses(accounts[..0]) == {};
      for i := 0 to |accounts|
        invariant Valid()
        invariant Distinct(accounts) ==> AllPromoted(Addresses(accounts[..i]), Now(), old(Now()), CurrentTerms(now))
      {
        ghost var mid := Now();
        PromoteAccount(accounts[i], now);
        if Distinct(accounts) {
          AddressesStep(accounts, i);
          AllPromotedStep(Addresses(accounts[..i]), accounts[i], Now(), mid, old(Now()), CurrentTerms(now));
        }
      }
      assert accounts[..|accounts|] == accounts;
    }

    /** Promotes the accounts and then cuts the outcome to the limits: the pending lists to one level, the queues
        from the accounts heard of most recently. */
    method PromoteExecutables(accounts: seq<Address>, now: nat) returns (ghost s: Settling)
      requires Valid()
      modifies this`pending, this`queue, this`all, this`beats, this`pendingNonce, priced
      ensures Valid() && Coherent(s.promoted) && CutDown(Now(), s.promoted, s.level, CurrentTerms(now))
      ensures Distinct(accounts) ==> AllPromoted(Addresses(accounts), s.promoted, old(Now()), CurrentTerms(now))
    {
      hide Agree, Cover, IsPriceHeap, Count, Cuts, Cut, Needed, RemoteEmpty, AllPromoted, Lowered, QueuesCut;
      PromoteEach(accounts, now);
      ghost var promoted := Now();
      ghost var level := TruncatePending();
      TruncateQueue();
      s := Settling(promoted, level);
    }

    /** The accounts with queued transactions, in whatever order the loop over the map visits them. */
    method QueueAccounts() returns (accounts: seq<Address>)
      ensures Distinct(accounts) && forall a :: a in accounts <==> a in queue
    {
      accounts := [];
      var todo := queue.Keys;
      while todo != {}
        invariant todo <= queue.Keys && Distinct(accounts) && forall a :: a in accounts <==> a in queue && a !in todo
        decreases |todo|
      {
        var a :| a in todo;
        todo := todo - {a};
        accounts := accounts + [a];
      }
    }

    /** Afterwards every pending list is the payable part from the account nonce on, and only what is too old
        or unpayable has left the pool. */
    method DemoteUnexecutables()
      requires Valid()
      modifies this`pending, this`queue, this`all, this`beats, priced
      ensures Valid() && forall a :: a in pending ==> Executable(pending[a], a, ledger, maxGas)
      ensures forall a :: ItemsOf(pending, a) == Remaining(old(pending), a, ledger, maxGas)
      ensures all == RunnableBut(old(all), old(pending), {}, ledger, maxGas)
      ensures beats == old(beats) - (old(pending).Keys - pending.Keys)
    {
      hide State, Demoting, DemotedOne;
      var todo := pending.Keys;
      DemotingStart(Now(), ledger, maxGas);
      while todo != {}
        invariant Valid() && todo <= pending.Keys && Demoting(Now(), old(Now()), todo, ledger, maxGas)
        decreases |todo|
      {
        var a :| a in todo;
        ghost var mid := Now();
        DemoteAccount(a);
        DemotingStep(Now(), mid, old(Now()), todo, a, ledger, maxGas);
        todo := todo - {a};
      }
      DemotingDone(Now(), old(Now()), ledger, maxGas);
    }

    /** Adds one transaction in the given step and, when it is a new one, promotes its sender. */
    method AddTx(tx: Tx, local: bool, now: nat) returns (r: AddResult, ghost step: Step, ghost s: Settling)
      requires Valid() && txOf(tx.hash) == tx
      modifies this`pending, this`queue, this`all, this`beats, this`pendingNonce, this`locals, priced
      ensures Valid() && AddStep(step, local, CurrentTerms(now))
      ensures step.tx == tx && step.before == old(Now()) && step.result == r
      ensures if r == Added(false) then Settled(s, Now(), step.after, {tx.sender}, CurrentTerms(now))
              else Now() == step.after
    {
      hide State, AddStep, AllPromoted, CutDown, Coherent;
      r, step := Add(tx, local, now);
      s := Settling(Now(), 0);
      if r == Added(false) {
        assert Addresses([tx.sender]) == {tx.sender};
        s := PromoteExecutables([tx.sender], now);
      }
    }

    /** Adds transactions one by one, up to the snapshot mid, and then promotes the senders of the new ones. */
    method AddTxs(txs: seq<Tx>, local: bool, now: nat)
        returns (results: seq<AddResult>, ghost steps: seq<Step>, ghost mid: Book, ghost s: Settling)
      requires Valid() && forall i :: 0 <= i < |txs| ==> txOf(txs[i].hash) == txs[i]
      modifies this`pending, this`queue, this`all, this`beats, this`pendingNonce, this`locals, priced
      ensures Valid() && StepsOf(steps, txs, results)
      ensures BatchAdded(steps, mid, s, Now(), old(Now()), local, CurrentTerms(now))
    {
      hide State, AddedInTurn, AllPromoted, CutDown, Coherent, NewSenders, StepsOf;
      var dirty;
      results, dirty, steps := AddEach(txs, local, now);
      mid, s := Now(), Settling(Now(), 0);
      if |dirty| > 0 {
        assert dirty[0] in Addresses(dirty);
        s := PromoteExecutables(dirty, now);
      } else {
        assert Addresses(dirty) == {};
      }
    }

    /** Adds transactions one by one and collects the senders of the new ones. */
    method AddEach(txs: seq<Tx>, local: bool, ghost now: nat)
        returns (results: seq<AddResult>, dirty: seq<Address>, ghost steps: seq<Step>)
      requires Valid() && forall i :: 0 <= i < |txs| ==> txOf(txs[i].hash) == txs[i]
      modifies this`pending, this`queue, this`all, this`beats, this`pendingNonce, this`locals, priced
      ensures Valid() && StepsOf(steps, txs, results)
      ensures AddedInTurn(steps, old(Now()), Now(), local, CurrentTerms(now))
      ensures Distinct(dirty) && Addresses(dirty) == NewSenders(steps)
    {
      results, dirty, steps := [], [], [];
      NothingAdded(Now(), local, CurrentTerms(now));
      hide State, AddStep, AddedInTurn, NewSenders, StepsOf, Distinct, Addresses;
      for i := 0 to |txs|
        invariant Valid() && StepsOf(steps, txs[..i], results)
        invariant AddedInTurn(steps, old(Now()), Now(), local, CurrentTerms(now))
        invariant Distinct(dirty) && Addresses(dirty) == NewSenders(steps)
      {
        var r, s := Add(txs[i], local, now);
        AddedNext(steps, s, old(Now()), local, CurrentTerms(now));
        StepsNext(steps, txs, i, results, s);
        NewSendersNext(steps, s);
        AddressesNext(dirty, txs[i].sender);
        if r == Added(false) && txs[i].sender !in dirty {
          dirty := dirty + [txs[i].sender];
        }
        results := results + [r];
        steps := steps + [s];
      }
      assert txs[..|txs|] == txs;
    }

    /** Sets the virtual nonce of every account to one past its last pending transaction. */
    method TrackNonces()
      requires Valid() && forall a :: a in pending ==> pending[a].items != map[]
      modifies this`pendingNonce
      ensures Valid() && NoncesTracked(pendingNonce, old(pendingNonce), pending)
    {
      hide State, PastLast, NoncesTracked;
      NothingTracked(pendingNonce);
      var todo := pending.Keys;
      assert pending - todo == map[];
      while todo != {}
        invariant Valid() && todo <= pending.Keys && NoncesTracked(pendingNonce, old(pendingNonce), pending - todo)
        decreases |todo|
      {
        var a :| a in todo;
        var next := NonceAfter(a);
        TrackedNext(pendingNonce, old(pendingNonce), pending, todo, a, next);
        SetNonce(a, next);
        todo := todo - {a};
      }
      assert pending - {} == pending;
    }

    method SetNonce(addr: Address, nonce: nat)
      requires Valid()
      modifies this`pendingNonce
      ensures Valid() && pendingNonce == old(pendingNonce)[addr := nonce]
    {
      hide Agree, Cover, IsPriceHeap;
      pendingNonce := pendingNonce[addr := nonce];
    }

    /** One past the last pending transaction of an account. */
    method NonceAfter(addr: Address) returns (next: nat)
      requires Valid() && addr in pending && pending[addr].items != map[]
      ensures PastLast(pending[addr].items, next)
    {
      hide Agree, Cover, IsPriceHeap, Sorted, PastLast, OwnLists;
      AgreeFacts(pending, queue, all, {});
      OwnOne(pending, addr);
      var txs := FlattenOf(pending[addr]);
      LastIsHighest(pending[addr].items);
      return txs[|txs| - 1].nonce + 1;
    }

    /** Moves the pool to a new head: reinjects exactly the transactions that left the chain with the old
        branch, demotes what can no longer run and promotes what now can.  When the two heads share no
        stored ancestor nothing changes at all. */
    method Reset(db: ChainTree.Store, oldHead: Option<Header>, newHead: Header, body: Hash -> Tx, head: Ledger,
        now: nat)
      returns (ghost reinjected: seq<Hash>, ghost m: Move)
      requires Valid() && CommonAncestor.Grounded(db) && newHead.number >= 0 && newHead.gasLimit >= 0
      requires oldHead.Some? ==> oldHead.value.number >= 0
      requires forall h: Hash :: body(h).hash == h && txOf(h) == body(h)
      modifies this`ledger, this`maxGas, this`pending, this`queue, this`all, this`beats, this`pendingNonce, this`locals,
          priced
      ensures Valid()
      ensures Unrooted(db, oldHead, newHead) ==> Now() == old(Now()) && ledger == old(ledger) && maxGas == old(maxGas)
      ensures !Unrooted(db, oldHead, newHead) ==> Reinjects(db, oldHead, newHead, reinjected)
      ensures !Unrooted(db, oldHead, newHead) ==> ledger == head && maxGas == newHead.gasLimit
      ensures !Unrooted(db, oldHead, newHead) ==>
                Moves(m, Now(), old(Now()), Bodies(body, reinjected), CurrentTerms(now))
    {
      hide State, Moves, Unrooted, Reinjects;
      reinjected, m := [], Move([], Now(), Settling(Now(), 0), Now(), Now(), Settling(Now(), 0));
      var unrooted, hashes := Walk(db, oldHead, newHead);
      if unrooted { return; }
      reinjected := hashes;
      m := MoveTo(head, newHead.gasLimit, Bodies(body, hashes), now);
    }

    /** Finds what a change of head puts back. */
    method Walk(db: ChainTree.Store, oldHead: Option<Header>, newHead: Header)
      returns (unrooted: bool, hashes: seq<Hash>)
      requires CommonAncestor.Grounded(db) && newHead.number >= 0 && (oldHead.Some? ==> oldHead.value.number >= 0)
      ensures unrooted == Unrooted(db, oldHead, newHead)
      ensures !unrooted ==> Reinjects(db, oldHead, newHead, hashes)
    {
      hide CommonAncestor.IsBranchDifference, CommonAncestor.Meet;
      if oldHead.None? || oldHead.value.hash == newHead.parent { return false, []; }
      var walk := CommonAncestor.ReinjectWalk(db, oldHead.value, newHead);
      WalkMeets(db, oldHead.value, newHead, walk);
      match walk
      case Unrooted => return true, [];
      case Txs(txs) => return false, txs;
      case _ => return false, [];
    }

    /** Takes over the state at the new head and brings the pool in line with it. */
    method MoveTo(head: Ledger, gasLimit: nat, reinject: seq<Tx>, now: nat) returns (ghost m: Move)
      requires Valid() && forall i :: 0 <= i < |reinject| ==> txOf(reinject[i].hash) == reinject[i]
      modifies this`ledger, this`maxGas, this`pending, this`queue, this`all, this`beats, this`pendingNonce, this`locals,
          priced
      ensures Valid() && ledger == head && maxGas == gasLimit
      ensures Moves(m, Now(), old(Now()), reinject, CurrentTerms(now))
    {
      hide State, BatchAdded, Demoted, AllPromoted, CutDown, Coherent;
      TakeState(head, gasLimit);
      var results, steps, mid, s := AddTxs(reinject, false, now);
      ghost var added := Now();
      Demote(now);
      ghost var demoted := Now();
      var accounts := QueueAccounts();
      ghost var last := PromoteExecutables(accounts, now);
      assert Addresses(accounts) == demoted.queue.Keys;
      m := Move(steps, mid, s, added, demoted, last);
    }

    method TakeState(head: Ledger, gasLimit: nat)
      requires Valid()
      modifies this`ledger, this`maxGas, this`pendingNonce
      ensures Valid() && ledger == head && maxGas == gasLimit && Now() == old(Now()).(nonces := map[])
    {
      hide Agree, Cover, IsPriceHeap;
      ledger, maxGas, pendingNonce := head, gasLimit, map[];
    }

    /** Demotes what can no longer run and lets the virtual nonces follow. */
    method Demote(ghost now: nat)
      requires Valid()
      modifies this`pending, this`queue, this`all, this`beats, this`pendingNonce, priced
      ensures Valid() && Demoted(Now(), old(Now()), CurrentTerms(now))
    {
      hide Agree, Cover, IsPriceHeap, Remaining, RunnableBut, NoncesTracked;
      DemoteUnexecutables();
      TrackNonces();
    }

    /** Drops the queues of remote accounts that have not been heard of for longer than the lifetime. */
    method Expire(now: nat, lifetime: nat)
      requires Valid()
      modifies this`pending, this`queue, this`all, this`beats, this`pendingNonce, priced
      ensures Valid() && pending == old(pending) && beats == old(beats) && pendingNonce == old(pendingNonce)
      ensures forall a :: ItemsOf(queue, a) ==
                if a !in locals && (a !in beats || now - beats[a] > lifetime) then map[] else ItemsOf(old(queue), a)
    {
      hide Agree, Cover, IsPriceHeap, Sorted, Count, Lowest, State;
      var accounts := QueueAccounts();
      for i := 0 to |accounts|
        invariant Valid() && pending == old(pending) && beats == old(beats) && pendingNonce == old(pendingNonce)
        invariant forall a :: a !in accounts[..i] ==> ItemsOf(queue, a) == ItemsOf(old(queue), a)
        invariant forall a :: a in accounts[..i] ==>
                    ItemsOf(queue, a) ==
                    if a !in locals && Stale(beats, a, now, lifetime) then map[] else ItemsOf(old(queue), a)
      {
        var a := accounts[i];
        assert accounts[..i + 1] == accounts[..i] + [a];
        if a in queue && a !in locals && Stale(beats, a, now, lifetime) {
          DropWhole(a);
        }
      }
      assert accounts[..|accounts|] == accounts;
    }

    /** Where a transaction is.  The pool looks at the nonce alone, which tells the two lists apart
        because no account has one nonce in both. */
    method StatusOf(hash: Hash) returns (status: Status)
      requires Valid()
      ensures status == Pending <==> hash in all && Listed(pending, all[hash])
      ensures status == Queued <==> hash in all && Listed(queue, all[hash])
      ensures status == Unknown <==> hash !in all
    {
      hide Cover, IsPriceHeap;
      if hash !in all { return Unknown; }
      var tx := all[hash];
      assert InPool(all, tx);
      assert Listed(queue, tx) ==> Occupied(queue, tx);
      assert Listed(pending, tx) ==> Occupied(pending, tx);
      if tx.sender in pending && tx.nonce in pending[tx.sender].items { return Pending; }
      return Queued;
    }

    ghost function View(): View
      reads this
    {
      Seen(Now(), CurrentTerms(0))
    }

    /** One operation. */
    method Handle(e: Event)
      requires Valid() && Honest(txOf, e)
      modifies this, priced
      ensures Valid() && Done(e, old(View()), View())
    {
      hide State, AddStep, BatchAdded, Settled, Shrunk, Unrooted, Reinjects, Moves;
      match e {
        case AddOne(tx, local, now) =>
          ghost var b := Now();
          var r, step, s := AddTx(tx, local, now);
          assert AddedOne(step, s, tx, b, Now(), local, CurrentTerms(now));
        case AddMany(txs, local, now) =>
          ghost var b := Now();
          var rs, steps, mid, s := AddTxs(txs, local, now);
          assert AddedMany(steps, mid, s, txs, b, Now(), local, CurrentTerms(now));
        case Remove(hash) => RemoveTx(hash, true, {});
        case NewPrice(price) => SetGasPrice(price);
        case NewHead(db, oldHead, newHead, body, head, now) =>
          ghost var b := Now();
          ghost var reinjected, m := Reset(db, oldHead, newHead, body, head, now);
          assert !Unrooted(db, oldHead, newHead) ==>
              MovedTo(reinjected, m, b, Now(), db, oldHead, newHead, body, CurrentTerms(now));
        case Tick(now, lifetime) => Expire(now, lifetime);
      }
    }

    /** Every sequence of operations keeps the indexes in agreement and the price heap covering, and each does what it
        is for on what the one before has left. */
    method Run(events: seq<Event>) returns (ghost log: seq<View>)
      requires Valid() && forall i :: 0 <= i < |events| ==> Honest(txOf, events[i])
      modifies this, priced
      ensures Valid() && |log| == |events| + 1 && log[0] == old(View()) && log[|events|] == View()
      ensures forall i :: 0 <= i < |events| ==> Done(events[i], log[i], log[i + 1])
    {
      hide State, Done, View;
      log := [View()];
      for n := 0 to |events|
        invariant Valid() && |log| == n + 1 && log[0] == old(View()) && log[n] == View()
        invariant forall i :: 0 <= i < n ==> Done(events[i], log[i], log[i + 1])
      {
        Handle(events[n]);
        log := log + [View()];
      }
    }
  }

  /** What a pool holds and what it goes by. */
  datatype View = Seen(book: Book, terms: Terms)

  ghost predicate AddedOne(step: Step, s: Settling, tx: Tx, b0: Book, b: Book, local: bool, t: Terms) {
    && AddStep(step, local, t) && step.tx == tx && step.before == b0
    && if step.result == Added(false) then Settled(s, b, step.after, {tx.sender}, t) else b == step.after
  }

  ghost predicate AddedMany(steps: seq<Step>, mid: Book, s: Settling, txs: seq<Tx>, b0: Book, b: Book, local: bool,
      t: Terms)
  {
    && |steps| == |txs| && (forall i :: 0 <= i < |txs| ==> steps[i].tx == txs[i])
    && BatchAdded(steps, mid, s, b, b0, local, t)
  }

  ghost predicate MovedTo(reinjected: seq<Hash>, m: Move, b0: Book, b: Book, db: ChainTree.Store,
      oldHead: Option<Header>, newHead: Header, body: Hash -> Tx, t: Terms)
  {
    && CommonAncestor.Grounded(db) && Reinjects(db, oldHead, newHead, reinjected)
    && Moves(m, b, b0, Bodies(body, reinjected), t)
  }

  /** What an operation does. */
  ghost predicate Done(e: Event, v: View, w: View) {
    match e
    case AddOne(tx, local, now) =>
      w.terms == v.terms && exists step, s :: AddedOne(step, s, tx, v.book, w.book, local, v.terms.(now := now))
    case AddMany(txs, local, now) =>
      && w.terms == v.terms
      && exists steps, mid, s :: AddedMany(steps, mid, s, txs, v.book, w.book, local, v.terms.(now := now))
    case Remove(hash) =>
      w.terms == v.terms && w.book.all == v.book.all - {hash} && Shrunk(w.book, v.book, v.terms.ledger)
    case NewPrice(price) =>
      && w.terms == v.terms.(gasPrice := price) && Shrunk(w.book, v.book, v.terms.ledger)
      && var all, locals := v.book.all, v.book.locals;
         w.book.all == map h | h in all && (all[h].sender in locals || all[h].price >= price) :: all[h]
    case NewHead(db, oldHead, newHead, body, head, now) =>
      && CommonAncestor.Grounded(db) && newHead.gasLimit >= 0
      && if Unrooted(db, oldHead, newHead) then w == v
         else
           && w.terms == v.terms.(ledger := head, maxGas := newHead.gasLimit)
           && exists reinjected, m ::
                MovedTo(reinjected, m, v.book, w.book, db, oldHead, newHead, body, w.terms.(now := now))
    case Tick(now, lifetime) =>
      && w.terms == v.terms && w.book == v.book.(queue := w.book.queue, all := w.book.all)
      && forall a :: ItemsOf(w.book.queue, a) ==
           if a !in v.book.locals && (a !in v.book.beats || now - v.book.beats[a] > lifetime) then map[]
           else ItemsOf(v.book.queue, a)
  }

  datatype Status = Unknown | Queued | Pending

  datatype Event = AddOne(tx: Tx, local: bool, now: nat)
                 | AddMany(txs: seq<Tx>, local: bool, now: nat)
                 | Remove(hash: Hash)
                 | NewPrice(price: nat)
                 | NewHead(db: ChainTree.Store, oldHead: Option<Header>, newHead: Header, body: Hash -> Tx,
                     head: Ledger, now: nat)
                 | Tick(now: nat, lifetime: nat)

  /** Each hash stands for one transaction. */
  ghost predicate Honest(txOf: Hash -> Tx, e: Event) {
    match e
    case AddOne(tx, _, _) => txOf(tx.hash) == tx
    case AddMany(txs, _, _) => forall i :: 0 <= i < |txs| ==> txOf(txs[i].hash) == txs[i]
    case NewHead(db, oldHead, newHead, body, _, _) =>
      && CommonAncestor.Grounded(db) && newHead.number >= 0 && newHead.gasLimit >= 0
      && (oldHead.Some? ==> oldHead.value.number >= 0)
      && forall h: Hash :: body(h).hash == h && txOf(h) == body(h)
    case _ => true
  }

  // ---------- what the passes do ----------

  // ---------- forgetting ----------

  lemma ShrunkNothing(b: Book, ledger: Ledger)
    requires Coherent(b)
    ensures Shrunk(b, b, ledger)
  {
    LoweredSame(b.nonces, ledger, b.pending);
    hide Lowered, Solid;
    forall a
      ensures Solid(ItemsOf(b.pending, a), b.all) == ItemsOf(b.pending, a)
    {
      AllPooled(b.pending, b.queue, b.all, a);
      SolidWhole(ItemsOf(b.pending, a), b.all);
    }
  }

  lemma AllPooled(x: Lists, y: Lists, all: PricedList.Pool, a: Address)
    requires Agree(x, y, all, {})
    ensures forall k :: k in ItemsOf(x, a) ==> InPool(all, ItemsOf(x, a)[k]) && Listed(x, ItemsOf(x, a)[k])
  {
    forall k | k in ItemsOf(x, a)
      ensures InPool(all, ItemsOf(x, a)[k]) && Listed(x, ItemsOf(x, a)[k])
    {
      assert OwnList(x[a], a);
      assert Listed(x, x[a].items[k]);
    }
  }

  /** Forgetting a queued transaction. */
  lemma ShrunkQueued(b: Book, b0: Book, tx: Tx, ledger: Ledger)
    requires Coherent(b0) && Coherent(b) && InPool(b0.all, tx) && !Occupied(b0.pending, tx)
    requires b == b0.(queue := b.queue, all := b0.all - {tx.hash})
    ensures Shrunk(b, b0, ledger)
  {
    LoweredSame(b.nonces, ledger, b.pending);
    hide Lowered, Solid;
    forall a
      ensures Solid(ItemsOf(b0.pending, a), b.all) == ItemsOf(b0.pending, a)
    {
      AllPooled(b0.pending, b0.queue, b0.all, a);
      SolidWhole(ItemsOf(b0.pending, a), b.all);
    }
  }

  /** Forgetting a pending transaction takes the later ones off the pending list. */
  lemma ShrunkBelow(b: Book, b0: Book, tx: Tx, ledger: Ledger)
    requires Coherent(b0) && Coherent(b) && InPool(b0.all, tx) && Occupied(b0.pending, tx)
    requires b.all == b0.all - {tx.hash} && b.locals == b0.locals && BelowOnly(b.pending, b0.pending, tx)
    requires tx.sender in b.pending <==> ItemsOf(b.pending, tx.sender) != map[]
    requires b.beats == b0.beats - (b0.pending.Keys - b.pending.Keys)
    requires b.nonces == if NonceIn(b0.nonces, ledger, tx.sender) > tx.nonce then b0.nonces[tx.sender := tx.nonce]
                         else b0.nonces
    ensures Shrunk(b, b0, ledger)
  {
    hide Solid, Lowered, Coherent, OthersSame, Below, BelowOnly, NonceIn, InPool, ItemsOf, Occupied;
    LoweredBelow(b.nonces, b0.nonces, ledger, b.pending, b0.pending, tx);
    SolidsAfter(b.pending, b0, tx);
    KeysBelow(b.pending, b0.pending, tx);
  }

  lemma SolidsAfter(x: Lists, b0: Book, tx: Tx)
    requires Coherent(b0) && InPool(b0.all, tx) && Occupied(b0.pending, tx) && BelowOnly(x, b0.pending, tx)
    ensures forall a :: Solid(ItemsOf(b0.pending, a), b0.all - {tx.hash}) == ItemsOf(x, a)
  {
    hide *;
    forall a
      ensures Solid(ItemsOf(b0.pending, a), b0.all - {tx.hash}) == ItemsOf(x, a)
    {
      SolidAfter(x, b0, tx, a);
    }
  }

  lemma SolidAfter(x: Lists, b0: Book, tx: Tx, a: Address)
    requires Coherent(b0) && InPool(b0.all, tx) && Occupied(b0.pending, tx) && BelowOnly(x, b0.pending, tx)
    ensures Solid(ItemsOf(b0.pending, a), b0.all - {tx.hash}) == ItemsOf(x, a)
  {
    HolderIs(b0.pending, b0.queue, b0.all, tx);
    AllPooled(b0.pending, b0.queue, b0.all, a);
    hide Solid, Agree;
    var m := ItemsOf(b0.pending, a);
    if a == tx.sender {
      assert m[tx.nonce] == tx;
      SolidBelow(m, b0.all - {tx.hash}, tx.nonce);
    } else {
      SolidWhole(m, b0.all - {tx.hash});
    }
  }

  lemma KeysBelow(x: Lists, x0: Lists, tx: Tx)
    requires Occupied(x0, tx) && BelowOnly(x, x0, tx) && (tx.sender in x <==> ItemsOf(x, tx.sender) != map[])
    ensures forall a :: a in x <==> a in x0 && (ItemsOf(x0, a) == map[] || ItemsOf(x, a) != map[])
  {
  }

  lemma LoweredBelow(n: map<Address, nat>, n0: map<Address, nat>, ledger: Ledger, x: Lists, x0: Lists, tx: Tx)
    requires Occupied(x0, tx) && BelowOnly(x, x0, tx)
    requires n == if NonceIn(n0, ledger, tx.sender) > tx.nonce then n0[tx.sender := tx.nonce] else n0
    ensures Lowered(n, n0, ledger, x, x0)
  {
    forall a
      ensures LoweredTo(NonceIn(n, ledger, a), NonceIn(n0, ledger, a), ItemsOf(x, a).Keys, ItemsOf(x0, a).Keys)
    {
    }
  }

  /** What one account gives up lowers its virtual nonce. */
  lemma LoweredFor(n: map<Address, nat>, n0: map<Address, nat>, ledger: Ledger, x: Lists, addr: Address, r: List,
      out: seq<Tx>)
    requires addr in x && TakenOut(x[addr].items, r.items, out) && SameElsewhere(n, n0, addr)
    requires NonceIn(n, ledger, addr) <= NonceIn(n0, ledger, addr) && Keyed(x[addr].items)
    requires forall i :: 0 <= i < |out| ==> NonceIn(n, ledger, addr) <= out[i].nonce
    requires NonceIn(n, ledger, addr) == NonceIn(n0, ledger, addr)
             || exists i :: 0 <= i < |out| && NonceIn(n, ledger, addr) == out[i].nonce
    ensures Lowered(n, n0, ledger, x[addr := r], x)
  {
    var had, kept := x[addr].items.Keys, r.items.Keys;
    forall k | k in had && k !in kept
      ensures NonceIn(n, ledger, addr) <= k
    {
      assert x[addr].items[k] in out;
    }
    if NonceIn(n, ledger, addr) != NonceIn(n0, ledger, addr) {
      var i :| 0 <= i < |out| && NonceIn(n, ledger, addr) == out[i].nonce;
      assert out[i] in out;
    }
    assert LoweredTo(NonceIn(n, ledger, addr), NonceIn(n0, ledger, addr), kept, had);
  }

  // ---------- adding ----------

  lemma ValidateAnytime(tx: Tx, local: bool, locals: set<Address>, t: Terms, now: nat)
    ensures Validate(tx, local, locals, t) == Validate(tx, local, locals, t.(now := now))
  {
  }

  lemma SubpoolLacks(b: Book, b0: Book, ledger: Ledger, hash: Hash)
    requires Shrunk(b, b0, ledger) && hash !in b0.all
    ensures hash !in b.all
  {
  }

  /** Forgetting the one replaced is putting the transaction in its place. */
  lemma FiledIsPlaced(x: Lists, y: Lists, all: PricedList.Pool, tx: Tx)
    requires Agree(x, y, all, {}) && tx.hash !in all
    ensures Occupied(x, tx) ==> Filed(all, tx, Some(x[tx.sender].items[tx.nonce])) == Placed(all, tx)
    ensures !Occupied(x, tx) && Occupied(y, tx) ==>
              Filed(all, tx, Some(y[tx.sender].items[tx.nonce])) == Placed(all, tx)
    ensures !Occupied(x, tx) && !Occupied(y, tx) ==> Filed(all, tx, None) == Placed(all, tx)
    ensures Taken(all, tx) <==> Occupied(x, tx) || Occupied(y, tx)
  {
    SlotOf(x, y, all, tx);
    if Occupied(x, tx) {
      HolderIs(x, y, all, tx);
    } else if Occupied(y, tx) {
      AgreeFlip(x, y, all, {});
      HolderIs(y, x, all, tx);
    }
  }

  lemma NothingAdded(b: Book, local: bool, t: Terms)
    ensures AddedInTurn([], b, b, local, t) && NewSenders([]) == {} && StepsOf([], [], [])
    ensures Distinct([]) && Addresses([]) == {}
  {
  }

  lemma StepsNext(steps: seq<Step>, txs: seq<Tx>, i: nat, results: seq<AddResult>, s: Step)
    requires i < |txs| && StepsOf(steps, txs[..i], results) && s.tx == txs[i]
    ensures StepsOf(steps + [s], txs[..i + 1], results + [s.result])
  {
  }

  lemma AddressesNext(s: seq<Address>, a: Address)
    requires Distinct(s)
    ensures a in s <==> a in Addresses(s)
    ensures a !in s ==> Distinct(s + [a]) && Addresses(s + [a]) == Addresses(s) + {a}
  {
    assert a !in s ==> forall b :: b in s + [a] <==> b in s || b == a;
  }

  lemma ReadyLast(m: Items, waiting: Items, ready: seq<Tx>)
    requires Keyed(m) && TakenOut(m, waiting, ready)
    requires forall i, j :: 0 <= i < j < |ready| ==> ready[i].nonce < ready[j].nonce
    ensures m - waiting.Keys == map[] <==> ready == []
    ensures ready != [] ==> PastLast(m - waiting.Keys, ready[|ready| - 1].nonce + 1)
  {
    if ready != [] {
      var last := ready[|ready| - 1];
      assert last in ready && last.nonce in m - waiting.Keys;
      forall n | n in m && n !in waiting
        ensures n <= last.nonce
      {
        assert m[n] in ready;
        var i :| 0 <= i < |ready| && ready[i] == m[n];
      }
    }
    if m - waiting.Keys != map[] {
      var n :| n in m - waiting.Keys;
      assert m[n] in ready;
    }
  }

  /** The one transaction with the nonce of tx is the one in the pending list or else the one in the queue. */
  lemma SlotHolder(x: Lists, y: Lists, all: PricedList.Pool, tx: Tx, priceBump: nat)
    requires Agree(x, y, all, {})
    ensures Occupied(x, tx) ==> (Outbids(all, tx, priceBump) <==> Replaces(x[tx.sender].items[tx.nonce], tx, priceBump))
    ensures !Occupied(x, tx) ==> (Outbids(all, tx, priceBump) <==> Accepts(ListOf(y, tx.sender, false), tx, priceBump))
  {
    SlotOf(x, y, all, tx);
    if Occupied(x, tx) {
      HolderIs(x, y, all, tx);
    } else if Occupied(y, tx) {
      AgreeFlip(x, y, all, {});
      HolderIs(y, x, all, tx);
    }
  }

  lemma SlotOf(x: Lists, y: Lists, all: PricedList.Pool, tx: Tx)
    requires Agree(x, y, all, {})
    ensures !Occupied(x, tx) && !Occupied(y, tx) ==> forall h :: h in all ==> !SameSlot(all[h], tx)
  {
    forall h | h in all && SameSlot(all[h], tx)
      ensures Occupied(x, tx) || Occupied(y, tx)
    {
      assert InPool(all, all[h]);
    }
  }

  lemma HolderIs(x: Lists, y: Lists, all: PricedList.Pool, tx: Tx)
    requires Agree(x, y, all, {}) && Occupied(x, tx)
    ensures var holder := x[tx.sender].items[tx.nonce];
            && InPool(all, holder) && SameSlot(holder, tx)
            && forall h :: h in all && SameSlot(all[h], tx) ==> all[h] == holder
  {
    ListedFacts(x, y, all, {}, tx.sender, tx.nonce);
    var holder := x[tx.sender].items[tx.nonce];
    forall h | h in all && SameSlot(all[h], tx)
      ensures all[h] == holder
    {
      assert InPool(all, all[h]);
      assert Occupied(x, all[h]) && !Occupied(y, all[h]);
    }
  }

  lemma ReadyTakenBy(b: Book, b0: Book, addr: Address, r: List, next: Option<nat>, t: Terms)
    requires addr in b0.queue && b.queue == b0.queue[addr := r] && b.locals == b0.locals
    requires r.items == NotReady(b0.queue[addr].items, NonceIn(b0.nonces, t.ledger, addr))
    requires var ready := b0.queue[addr].items - r.items.Keys;
             && Gained(b.pending, b0.pending, addr, ready)
             && (next.None? <==> ready == map[]) && (next.Some? ==> PastLast(ready, next.value))
    requires b.nonces == if next.None? then b0.nonces else b0.nonces[addr := next.value]
    requires b.beats == if next.None? then b0.beats else b0.beats[addr := t.now]
    ensures ReadyTaken(b, b0, addr, t)
  {
    hide NotReady, PastLast;
  }

  /** What demoting one account does. */
  ghost predicate DemotedOne(b: Book, b0: Book, addr: Address, ledger: Ledger, maxGas: nat) {
    && OthersSame(b.pending, b0.pending, addr) && b.pending.Keys <= b0.pending.Keys
    && ItemsOf(b.pending, addr) == Remaining(b0.pending, addr, ledger, maxGas)
    && (addr in b.pending ==> Executable(b.pending[addr], addr, ledger, maxGas))
    && b.all == Runnable(b0.all, b0.pending, addr, ledger, maxGas)
    && b.beats == b0.beats - (b0.pending.Keys - b.pending.Keys)
  }

  lemma PutTwice(x: Lists, a: Address, r: List)
    ensures Put(x[a := r], a, r) == Put(x, a, r) && (AllStrict(x[a := r], true) ==> AllStrict(Put(x, a, r), true))
  {
  }

  lemma DemotedOneBy(b: Book, b0: Book, addr: Address, r: List, ledger: Ledger, maxGas: nat)
    requires addr in b0.pending && b.pending == Put(b0.pending, addr, r)
    requires var payable := StillPayable(b0.pending[addr], ledger.nonce(addr), ledger.balance(addr), maxGas);
             r.items == FromNonce(payable, ledger.nonce(addr))
    requires b.all == Runnable(b0.all, b0.pending, addr, ledger, maxGas)
    requires b.beats == b0.beats - (b0.pending.Keys - b.pending.Keys)
    ensures DemotedOne(b, b0, addr, ledger, maxGas)
  {
    StillPayableFacts(b0.pending[addr], ledger.nonce(addr), ledger.balance(addr), maxGas);
    hide StillPayable, Over, Runnable;
  }

  /** Part of the way through the demotion of all accounts. */
  ghost predicate Demoting(b: Book, b0: Book, todo: set<Address>, ledger: Ledger, maxGas: nat) {
    && todo <= b.pending.Keys <= b0.pending.Keys
    && (forall a :: a in b.pending && a !in todo ==> Executable(b.pending[a], a, ledger, maxGas))
    && (forall a :: a in todo ==> b.pending[a] == b0.pending[a])
    && (forall a :: a !in todo ==> ItemsOf(b.pending, a) == Remaining(b0.pending, a, ledger, maxGas))
    && b.all == RunnableBut(b0.all, b0.pending, todo, ledger, maxGas)
    && b.beats == b0.beats - (b0.pending.Keys - b.pending.Keys)
  }

  lemma DemotingStart(b: Book, ledger: Ledger, maxGas: nat)
    ensures Demoting(b, b, b.pending.Keys, ledger, maxGas)
  {
  }

  lemma DemotingStep(b: Book, mid: Book, b0: Book, todo: set<Address>, addr: Address, ledger: Ledger, maxGas: nat)
    requires Demoting(mid, b0, todo, ledger, maxGas) && addr in todo && DemotedOne(b, mid, addr, ledger, maxGas)
    ensures Demoting(b, b0, todo - {addr}, ledger, maxGas) && todo - {addr} <= b.pending.Keys
  {
    hide Executable, Runnable, RunnableBut, StillPayable, FromNonce;
    RunnableStep(b0.all, b0.pending, todo, addr, mid.pending, ledger, maxGas);
    BeatsThrough(b0.beats, b.pending.Keys, mid.pending.Keys, b0.pending.Keys);
    forall a | a != addr
      ensures ItemsOf(b.pending, a) == ItemsOf(mid.pending, a)
    {
    }
  }

  lemma DemotingDone(b: Book, b0: Book, ledger: Ledger, maxGas: nat)
    requires Demoting(b, b0, {}, ledger, maxGas)
    ensures forall a :: a in b.pending ==> Executable(b.pending[a], a, ledger, maxGas)
    ensures forall a :: ItemsOf(b.pending, a) == Remaining(b0.pending, a, ledger, maxGas)
    ensures b.all == RunnableBut(b0.all, b0.pending, {}, ledger, maxGas)
    ensures b.beats == b0.beats - (b0.pending.Keys - b.pending.Keys)
  {
  }

  lemma RunnableStep(all: PricedList.Pool, x0: Lists, todo: set<Address>, addr: Address, x: Lists, ledger: Ledger,
      maxGas: nat)
    requires addr in todo && addr in x0 && addr in x && x[addr] == x0[addr]
    ensures Runnable(RunnableBut(all, x0, todo, ledger, maxGas), x, addr, ledger, maxGas) ==
              RunnableBut(all, x0, todo - {addr}, ledger, maxGas)
  {
    hide NotRunnable;
  }

  /** The transactions behind some hashes. */
  function Bodies(body: Hash -> Tx, hashes: seq<Hash>): (txs: seq<Tx>)
    ensures |txs| == |hashes| && forall i :: 0 <= i < |txs| ==> txs[i] == body(hashes[i])
  {
    seq(|hashes|, i requires 0 <= i < |hashes| => body(hashes[i]))
  }

  /** The heads are not parent and child, near each other in number, and share no stored ancestor. */
  ghost predicate Unrooted(db: ChainTree.Store, oldHead: Option<Header>, newHead: Header)
    requires CommonAncestor.Grounded(db)
  {
    && oldHead.Some? && oldHead.value.hash != newHead.parent
    && oldHead.value.number - newHead.number <= 64 && newHead.number - oldHead.value.number <= 64
    && forall n :: !CommonAncestor.Meet(db, oldHead.value, newHead, n)
  }

  /** What a change of head puts back: nothing when the new head follows the old one, there was none, or the
      heads are far apart; otherwise what the old branch carried above the meeting point and the new does not. */
  ghost predicate Reinjects(db: ChainTree.Store, oldHead: Option<Header>, newHead: Header, hashes: seq<Hash>)
    requires CommonAncestor.Grounded(db)
  {
    if oldHead.None? || oldHead.value.hash == newHead.parent
       || oldHead.value.number - newHead.number > 64 || newHead.number - oldHead.value.number > 64 then hashes == []
    else exists n :: CommonAncestor.Highest(db, oldHead.value, newHead, n)
                     && CommonAncestor.IsBranchDifference(db, oldHead.value, newHead, n, hashes)
  }

  lemma WalkMeets(db: ChainTree.Store, oldHead: Header, newHead: Header, walk: CommonAncestor.Reinject)
    requires CommonAncestor.Grounded(db)
    requires walk.Txs? ==> exists n :: CommonAncestor.Highest(db, oldHead, newHead, n)
    ensures walk.Txs? ==> exists n :: CommonAncestor.Meet(db, oldHead, newHead, n)
  {
    if walk.Txs? {
      var n :| CommonAncestor.Highest(db, oldHead, newHead, n);
      assert CommonAncestor.Meet(db, oldHead, newHead, n);
    }
  }

  lemma OwnOne(x: Lists, a: Address)
    requires OwnLists(x) && a in x
    ensures WellFormed(x[a]) && Keyed(x[a].items)
  {
    assert OwnList(x[a], a);
  }

  lemma NothingTracked(n: map<Address, nat>)
    ensures NoncesTracked(n, n, map[])
  {
  }

  lemma TrackedNext(n: map<Address, nat>, n0: map<Address, nat>, x: Lists, todo: set<Address>, a: Address, next: nat)
    requires NoncesTracked(n, n0, x - todo) && a in todo && a in x && PastLast(x[a].items, next)
    ensures NoncesTracked(n[a := next], n0, x - (todo - {a}))
  {
    hide PastLast;
  }

  lemma LastIsHighest(m: Items)
    requires Keyed(m) && m != map[]
    ensures |Sorted(m)| > 0 && PastLast(m, Sorted(m)[|Sorted(m)| - 1].nonce + 1)
  {
    SortedIs(m);
    SortedLength(m);
    var txs := Sorted(m);
    forall n | n in m
      ensures n <= txs[|txs| - 1].nonce
    {
      var i :| 0 <= i < |txs| && txs[i] == m[n];
    }
  }

  ghost function Nonces(txs: seq<Tx>): set<nat> {
    set i | 0 <= i < |txs| :: txs[i].nonce
  }

  lemma NoncesNothing(txs: seq<Tx>)
    ensures Nonces(txs[..0]) == {}
  {
  }

  lemma NoncesStep(txs: seq<Tx>, i: nat)
    requires i < |txs|
    ensures Nonces(txs[..i + 1]) == Nonces(txs[..i]) + {txs[i].nonce}
  {
    var more := txs[..i + 1];
    assert more == txs[..i] + [txs[i]];
    assert more[i] == txs[i];
    forall n | n in Nonces(txs[..i])
      ensures n in Nonces(more)
    {
      var j :| 0 <= j < i && txs[..i][j].nonce == n;
      assert more[j].nonce == n;
    }
    forall n | n in Nonces(more)
      ensures n in Nonces(txs[..i]) || n == txs[i].nonce
    {
      var j :| 0 <= j < |more| && more[j].nonce == n;
      assert j < i ==> txs[..i][j].nonce == n;
    }
  }

  /** Taking everything out of a queue leaves nothing. */
  lemma NothingLeft(m: Items)
    requires Keyed(m)
    ensures m - Nonces(Sorted(m)) == map[] == Lowest(m, 0)
  {
    SortedIs(m);
    hide Sorted;
    var txs := Sorted(m);
    forall n | n in m
      ensures n in Nonces(txs)
    {
      assert m[n] in txs;
      var i :| 0 <= i < |txs| && txs[i] == m[n];
      assert txs[i].nonce == n;
    }
  }

  /** Taking the highest nonces out of a queue leaves the k lowest ones. */
  lemma FrontLeft(m: Items, k: nat, out: seq<Tx>)
    requires Keyed(m) && k <= |m| == |Sorted(m)| && |out| == |m| - k
    requires forall i :: 0 <= i < |out| ==> out[i] == Sorted(m)[|m| - 1 - i]
    ensures m - Nonces(out) == Lowest(m, k)
  {
    LowestSize(m, k);
    LowestPrefix(m, k);
    LowestOrder(m, k);
    SortedIs(m);
    hide Sorted, Lowest;
    var txs, low := Sorted(m), Lowest(m, k);
    forall n | n in m
      ensures n in Nonces(out) <==> n !in low
    {
      assert m[n] in txs;
      var i :| 0 <= i < |txs| && txs[i] == m[n];
      if i >= k {
        assert out[|m| - 1 - i].nonce == n;
      }
    }
    LeftOver(m, Nonces(out), low);
  }

  lemma LeftOver(m: Items, gone: set<nat>, low: Items)
    requires (forall n :: n in m ==> (n in gone <==> n !in low)) && forall n :: n in low ==> n in m && low[n] == m[n]
    ensures m - gone == low
  {
  }

  /** The last n transactions of a list, last first. */
  function Backwards(txs: seq<Tx>, n: nat): (r: seq<Tx>)
    requires n <= |txs|
    ensures |r| == n && forall i :: 0 <= i < n ==> r[i] == txs[|txs| - 1 - i]
  {
    seq(n, i requires 0 <= i < n => txs[|txs| - 1 - i])
  }

  lemma TailFacts(q: Lists, addr: Address, txs: seq<Tx>, tail: seq<Tx>)
    requires DistinctNonces(txs) && forall i :: 0 <= i < |txs| ==> txs[i].sender == addr && Listed(q, txs[i])
    requires |tail| <= |txs| && forall i :: 0 <= i < |tail| ==> tail[i] == txs[|txs| - 1 - i]
    ensures DistinctNonces(tail) && forall i :: 0 <= i < |tail| ==> tail[i].sender == addr && Listed(q, tail[i])
  {
    hide Listed;
  }

  /** Part of the way through: the accounts still to visit are untouched and were heard of no more
      recently than those visited, which have nothing left if more must go. */
  ghost predicate TruncatedSoFar(q: Lists, q0: Lists, locals: set<Address>, beats: map<Address, nat>,
      todo: seq<Address>, more: bool) {
    && Distinct(todo) && (forall i, j :: 0 <= i < j < |todo| ==> Heard(beats, todo[i]) <= Heard(beats, todo[j]))
    && (forall a :: a in todo ==> a in q && a in q0 && a !in locals && q[a] == q0[a])
    && (forall a :: a in q && a !in locals ==> a in q0)
    && (forall a :: a in q0 && a !in locals && a !in todo ==> Visited(q, beats, todo, a, more))
  }

  /** All that holds while the queues are being cut. */
  ghost predicate Truncating(q: Lists, q0: Lists, locals: set<Address>, beats: map<Address, nat>,
      todo: seq<Address>, more: bool) {
    && TruncatedSoFar(q, q0, locals, beats, todo, more) && LocalsSame(q, q0, locals)
    && Trimmed(q, q0) && RecentFirst(q, q0, locals, beats)
  }

  lemma TruncatingStep(q: Lists, before: Lists, q0: Lists, locals: set<Address>, beats: map<Address, nat>,
      todo: seq<Address>, k: nat, more: bool)
    requires Truncating(before, q0, locals, beats, todo, true) && |todo| > 0 && OthersSame(q, before, todo[|todo| - 1])
    requires more ==> ItemsOf(q, todo[|todo| - 1]) == map[]
    requires k <= |ItemsOf(before, todo[|todo| - 1])|
    requires ItemsOf(q, todo[|todo| - 1]) == Lowest(ItemsOf(before, todo[|todo| - 1]), k)
    ensures Truncating(q, q0, locals, beats, todo[..|todo| - 1], more)
  {
    NextTruncated(before, q0, locals, beats, todo);
    hide TruncatedSoFar, LocalsSame, Trimmed, RecentFirst, OthersSame, Lowest;
    TruncationStep(q, before, q0, locals, beats, todo, more);
    LocalsSameStep(q, before, q0, locals, todo[|todo| - 1]);
    TrimmedStep(q, before, q0, locals, beats, todo, k);
    RecentFirstStep(q, before, q0, locals, beats, todo, k);
  }

  ghost predicate Visited(q: Lists, beats: map<Address, nat>, todo: seq<Address>, a: Address, more: bool) {
    (more ==> ItemsOf(q, a) == map[]) && forall c :: c in todo ==> Heard(beats, c) <= Heard(beats, a)
  }

  lemma LocalsSameStep(q: Lists, before: Lists, q0: Lists, locals: set<Address>, addr: Address)
    requires LocalsSame(before, q0, locals) && OthersSame(q, before, addr) && addr !in locals
    ensures LocalsSame(q, q0, locals)
  {
  }

  lemma NothingTrimmed(q: Lists, locals: set<Address>, beats: map<Address, nat>)
    ensures Trimmed(q, q) && RecentFirst(q, q, locals, beats) && LocalsSame(q, q, locals)
  {
    forall a
      ensures ItemsOf(q, a) == Lowest(ItemsOf(q, a), |ItemsOf(q, a)|)
    {
      LowestAll(ItemsOf(q, a), |ItemsOf(q, a)|);
    }
  }

  lemma TruncationStart(q: Lists, locals: set<Address>, beats: map<Address, nat>, todo: seq<Address>)
    requires Distinct(todo) && forall a :: a in todo <==> a in q && a !in locals
    requires forall i, j :: 0 <= i < j < |todo| ==> Heard(beats, todo[i]) <= Heard(beats, todo[j])
    ensures Truncating(q, q, locals, beats, todo, true)
  {
    NothingTrimmed(q, locals, beats);
  }

  lemma NextTruncated(q: Lists, q0: Lists, locals: set<Address>, beats: map<Address, nat>, todo: seq<Address>)
    requires Truncating(q, q0, locals, beats, todo, true) && |todo| > 0
    ensures var a := todo[|todo| - 1]; a in q && a !in locals
  {
    assert todo[|todo| - 1] in todo;
  }

  lemma TruncationStep(q: Lists, before: Lists, q0: Lists, locals: set<Address>, beats: map<Address, nat>,
      todo: seq<Address>, more: bool)
    requires TruncatedSoFar(before, q0, locals, beats, todo, true) && |todo| > 0
    requires OthersSame(q, before, todo[|todo| - 1])
    requires more ==> ItemsOf(q, todo[|todo| - 1]) == map[]
    ensures TruncatedSoFar(q, q0, locals, beats, todo[..|todo| - 1], more)
  {
    var last := |todo| - 1;
    var addr, rest := todo[last], todo[..last];
    AddressesLast(todo);
    forall a | a in q0 && a !in locals && a !in rest
      ensures Visited(q, beats, rest, a, more)
    {
      if a == addr {
        forall c | c in rest
          ensures Heard(beats, c) <= Heard(beats, a)
        {
          var i :| 0 <= i < last && rest[i] == c;
          assert todo[i] == c;
        }
      } else {
        assert Visited(before, beats, todo, a, true);
      }
    }
  }

  lemma TrimmedStep(q: Lists, before: Lists, q0: Lists, locals: set<Address>, beats: map<Address, nat>,
      todo: seq<Address>, k: nat)
    requires TruncatedSoFar(before, q0, locals, beats, todo, true) && |todo| > 0
    requires OthersSame(q, before, todo[|todo| - 1])
    requires Trimmed(before, q0) && k <= |ItemsOf(before, todo[|todo| - 1])|
    requires ItemsOf(q, todo[|todo| - 1]) == Lowest(ItemsOf(before, todo[|todo| - 1]), k)
    ensures Trimmed(q, q0)
  {
    hide Lowest;
    var addr := todo[|todo| - 1];
    assert addr in todo;
    LowestSize(ItemsOf(before, addr), k);
    forall a
      ensures ItemsOf(q, a) == Lowest(ItemsOf(q0, a), |ItemsOf(q, a)|)
    {
      if a != addr {
        assert ItemsOf(q, a) == ItemsOf(before, a);
      }
    }
  }

  lemma LastHeard(beats: map<Address, nat>, todo: seq<Address>)
    requires |todo| > 0 && forall i, j :: 0 <= i < j < |todo| ==> Heard(beats, todo[i]) <= Heard(beats, todo[j])
    ensures forall a :: a in todo ==> Heard(beats, a) <= Heard(beats, todo[|todo| - 1])
  {
  }

  lemma RecentFirstStep(q: Lists, before: Lists, q0: Lists, locals: set<Address>, beats: map<Address, nat>,
      todo: seq<Address>, k: nat)
    requires TruncatedSoFar(before, q0, locals, beats, todo, true) && |todo| > 0
    requires OthersSame(q, before, todo[|todo| - 1])
    requires RecentFirst(before, q0, locals, beats)
    requires ItemsOf(q, todo[|todo| - 1]) == Lowest(ItemsOf(before, todo[|todo| - 1]), k)
    ensures RecentFirst(q, q0, locals, beats)
  {
    var last := |todo| - 1;
    var addr := todo[last];
    assert addr in todo;
    LowestOrder(ItemsOf(before, addr), k);
    LastHeard(beats, todo);
    hide Lowest, Heard;
    forall a, b | a in q0 && a !in locals && Lost(q, q0, b) && Heard(beats, b) < Heard(beats, a)
      ensures ItemsOf(q, a) == map[]
    {
      if b != addr {
        assert ItemsOf(q, b) == ItemsOf(before, b) && Lost(before, q0, b) && ItemsOf(before, a) == map[];
      } else {
        assert Visited(before, beats, todo, a, true);
      }
    }
  }

  lemma TruncationDone(q: Lists, q0: Lists, locals: set<Address>, beats: map<Address, nat>, todo: seq<Address>,
      more: bool)
    requires Truncating(q, q0, locals, beats, todo, more)
    ensures LocalsSame(q, q0, locals) && Trimmed(q, q0) && RecentFirst(q, q0, locals, beats)
    ensures more && todo == [] ==> RemoteEmpty(q, locals)
  {
    if more && todo == [] {
      forall a | a in q && a !in locals
        ensures q[a].items == map[]
      {
        assert Visited(q, beats, todo, a, more);
      }
    }
  }

  lemma ListFacts(x: Lists, a: Address, strict: bool)
    requires OwnLists(x) && AllStrict(x, strict) && a in x
    ensures WellFormed(x[a]) && x[a].strict == strict
  {
    assert OwnList(x[a], a);
  }

  /** The pending lists without the transactions of one sender from some nonce on. */
  ghost predicate BelowOnly(x: Lists, x0: Lists, tx: Tx) {
    OthersSame(x, x0, tx.sender) && ItemsOf(x, tx.sender) == Below(ItemsOf(x0, tx.sender), tx.nonce)
  }

  lemma OnlyBelow(x: Lists, r: List, tx: Tx)
    requires tx.sender in x && r.items == Below(x[tx.sender].items, tx.nonce)
    ensures BelowOnly(Put(x, tx.sender, r), x, tx)
    ensures tx.sender in Put(x, tx.sender, r) <==> ItemsOf(Put(x, tx.sender, r), tx.sender) != map[]
  {
  }

  /** The queue of one account without some nonces; the other queues are the same. */
  ghost predicate QueueLess(q: Lists, q0: Lists, addr: Address, gone: set<nat>) {
    OthersSame(q, q0, addr) && ItemsOf(q, addr) == ItemsOf(q0, addr) - gone
  }

  lemma QueueLessNothing(q: Lists, addr: Address)
    ensures QueueLess(q, q, addr, {})
  {
  }

  lemma QueueLessStep(q: Lists, before: Lists, q0: Lists, addr: Address, gone: set<nat>, nonce: nat)
    requires QueueLess(before, q0, addr, gone) && OthersSame(q, before, addr)
    requires ItemsOf(q, addr) == ItemsOf(before, addr) - {nonce}
    ensures QueueLess(q, q0, addr, gone + {nonce})
  {
  }

  lemma QueueWithoutFacts(q: Lists, tx: Tx)
    requires Listed(q, tx)
    ensures OthersSame(QueueWithout(q, tx), q, tx.sender) && Count(QueueWithout(q, tx)) == Count(q) - 1
    ensures ItemsOf(QueueWithout(q, tx), tx.sender) == ItemsOf(q, tx.sender) - {tx.nonce}
    ensures |ItemsOf(QueueWithout(q, tx), tx.sender)| == |ItemsOf(q, tx.sender)| - 1
  {
    var a := tx.sender;
    var r := q[a].(items := q[a].items - {tx.nonce});
    CountUpdate(q, a, r);
    if r.items == map[] {
      var rest := q - {a};
      CountInsert(rest, a, r);
      assert rest[a := r] == q[a := r];
    }
  }

  lemma QueueWithoutKeeps(q: Lists, txs: seq<Tx>, i: nat)
    requires DistinctNonces(txs) && i < |txs| && Listed(q, txs[i])
    requires forall j :: i <= j < |txs| ==> txs[j].sender == txs[i].sender && Listed(q, txs[j])
    ensures forall j :: i < j < |txs| ==> Listed(QueueWithout(q, txs[i]), txs[j])
  {
    forall j | i < j < |txs|
      ensures Listed(QueueWithout(q, txs[i]), txs[j])
    {
      assert txs[j].nonce in q[txs[i].sender].items - {txs[i].nonce};
    }
  }

  lemma SortedAddresses(key: Address -> nat, s: seq<Address>)
    requires Distinct(s)
    ensures Distinct(SortBy(key, s)) && forall a :: a in SortBy(key, s) <==> a in s
  {
    SortByCorrect(key, s);
    var r := SortBy(key, s);
    assert forall a :: a in r <==> a in multiset(r);
    assert forall a :: a in s <==> a in multiset(s);
    forall a
      ensures multiset(r)[a] <= 1
    {
      DistinctCounted(s, a);
    }
    CountedDistinct(r);
  }

  lemma AddressesLast(s: seq<Address>)
    requires Distinct(s) && |s| > 0
    ensures Distinct(s[..|s| - 1]) && s[|s| - 1] !in s[..|s| - 1] && s[|s| - 1] in s
    ensures forall a :: a in s <==> a in s[..|s| - 1] || a == s[|s| - 1]
  {
    assert s == s[..|s| - 1] + [s[|s| - 1]];
  }

  lemma FlattenFacts(q: Lists, a: Address)
    requires OwnLists(q) && a in q
    ensures var txs := Sorted(q[a].items);
            |txs| == |q[a].items| && DistinctNonces(txs)
            && forall i :: 0 <= i < |txs| ==> txs[i].sender == a && Listed(q, txs[i])
  {
    SortedLength(q[a].items);
    SortedMembers(q[a].items);
    var txs := Sorted(q[a].items);
    forall i | 0 <= i < |txs|
      ensures txs[i].sender == a && Listed(q, txs[i])
    {
      assert txs[i] in txs;
    }
  }

  /** A pending list that can run from the current state: it starts at the account nonce, holds
      nothing older, and every transaction is covered by the balance and the block gas limit. */
  ghost predicate Executable(l: List, a: Address, ledger: Ledger, maxGas: nat) {
    ledger.nonce(a) in l.items
    && forall n :: n in l.items ==> ledger.nonce(a) <= n && !Over(l.items[n], ledger.balance(a), maxGas)
  }

  lemma StillPayableFacts(l: List, nonce: nat, balance: nat, maxGas: nat)
    ensures forall n :: n in StillPayable(l, nonce, balance, maxGas) ==>
              nonce <= n && !Over(StillPayable(l, nonce, balance, maxGas)[n], balance, maxGas)
  {
  }

  /** The pool without the pending transactions of an account that are too old or cannot be paid for. */
  ghost function Runnable(all: PricedList.Pool, x: Lists, addr: Address, ledger: Ledger, maxGas: nat): PricedList.Pool {
    map h | h in all && !(all[h].sender == addr && Listed(x, all[h]) && NotRunnable(all[h], ledger, maxGas)) :: all[h]
  }

  /** Only what is too old or unpayable is forgotten. */
  lemma ForgottenExactly(x: Lists, y: Lists, all: PricedList.Pool, addr: Address, ledger: Ledger, maxGas: nat,
      stale: seq<Tx>, drops: seq<Tx>)
    requires Agree(x, y, all, {}) && addr in x
    requires TakenOut(x[addr].items, From(x[addr].items, ledger.nonce(addr)), stale)
    requires var l := x[addr].(items := From(x[addr].items, ledger.nonce(addr)));
             forall tx :: tx in drops <==> Has(Unpayable(l, ledger.balance(addr), maxGas), tx)
    ensures Without(Without(all, stale), drops) == Runnable(all, x, addr, ledger, maxGas)
  {
    forall h | h in all
      ensures h in Without(Without(all, stale), drops) <==> h in Runnable(all, x, addr, ledger, maxGas)
    {
      ForgottenOne(x, y, all, addr, ledger, maxGas, stale, drops, h);
    }
  }

  lemma ForgottenOne(x: Lists, y: Lists, all: PricedList.Pool, addr: Address, ledger: Ledger, maxGas: nat,
      stale: seq<Tx>, drops: seq<Tx>, h: Hash)
    requires Agree(x, y, all, {}) && addr in x && h in all
    requires TakenOut(x[addr].items, From(x[addr].items, ledger.nonce(addr)), stale)
    requires var l := x[addr].(items := From(x[addr].items, ledger.nonce(addr)));
             forall tx :: tx in drops <==> Has(Unpayable(l, ledger.balance(addr), maxGas), tx)
    ensures h in Without(Without(all, stale), drops) <==> h in Runnable(all, x, addr, ledger, maxGas)
  {
    var tx := all[h];
    assert OwnList(x[addr], addr);
    assert tx in stale || tx in drops <==> tx.sender == addr && Listed(x, tx) && NotRunnable(tx, ledger, maxGas);
    OutOfPool(x, y, all, addr, stale, h);
    OutOfPool(x, y, all, addr, drops, h);
  }

  /** A hash leaves the pool just when its transaction is among those taken out of a list. */
  lemma OutOfPool(x: Lists, y: Lists, all: PricedList.Pool, addr: Address, out: seq<Tx>, h: Hash)
    requires Agree(x, y, all, {}) && addr in x && h in all && forall tx :: tx in out ==> Has(x[addr].items, tx)
    ensures (exists i :: 0 <= i < |out| && out[i].hash == h) <==> all[h] in out
  {
    assert OwnList(x[addr], addr);
    forall i | 0 <= i < |out| && out[i].hash == h
      ensures out[i] == all[h]
    {
      assert out[i] in out && Listed(x, out[i]) && InPool(all, out[i]);
    }
    if all[h] in out {
      var i :| 0 <= i < |out| && out[i] == all[h];
      assert out[i].hash == h;
    }
  }

  /** One account's list has gained some transactions; the other lists are the same. */
  ghost predicate Gained(x: Lists, x0: Lists, addr: Address, m: Items) {
    OthersSame(x, x0, addr) && ItemsOf(x, addr) == ItemsOf(x0, addr) + m
  }

  lemma GainedNothing(x: Lists, addr: Address)
    ensures Gained(x, x, addr, map[])
  {
  }

  lemma GainedStep(x: Lists, x0: Lists, addr: Address, m: Items, tx: Tx, priceBump: nat)
    requires Gained(x, x0, addr, m) && tx.sender == addr && !Occupied(x, tx)
    ensures Accepts(ListOf(x, addr, true), tx, priceBump)
    ensures Gained(x[addr := Inserted(ListOf(x, addr, true), tx)], x0, addr, m[tx.nonce := tx])
  {
  }

  /** Transactions by nonce. */
  ghost function ByNonce(txs: seq<Tx>): Items {
    if txs == [] then map[] else ByNonce(txs[..|txs| - 1])[txs[|txs| - 1].nonce := txs[|txs| - 1]]
  }

  lemma ByNonceStep(txs: seq<Tx>, i: nat)
    requires i < |txs|
    ensures ByNonce(txs[..i + 1]) == ByNonce(txs[..i])[txs[i].nonce := txs[i]]
  {
    assert txs[..i + 1][..i] == txs[..i];
  }

  lemma {:induction false} ByNonceIs(txs: seq<Tx>)
    requires DistinctNonces(txs)
    ensures forall n :: n in ByNonce(txs) <==> exists i :: 0 <= i < |txs| && txs[i].nonce == n
    ensures forall n :: n in ByNonce(txs) ==> ByNonce(txs)[n] in txs && ByNonce(txs)[n].nonce == n
  {
    if txs != [] {
      var front := txs[..|txs| - 1];
      ByNonceIs(front);
      forall n | n in ByNonce(front)
        ensures exists i :: 0 <= i < |txs| && txs[i].nonce == n
      {
        var i :| 0 <= i < |front| && front[i].nonce == n;
        assert txs[i].nonce == n;
      }
      forall i | 0 <= i < |txs|
        ensures txs[i].nonce in ByNonce(txs)
      {
        assert i < |front| ==> front[i].nonce in ByNonce(front);
      }
    }
  }

  /** What is taken out of a queue belongs to its account and is what the shorter list lacks. */
  lemma ReadyFacts(queue: Lists, addr: Address, r: List, ready: seq<Tx>)
    requires OwnLists(queue) && addr in queue && TakenOut(queue[addr].items, r.items, ready)
    ensures ByNonce(ready) == queue[addr].items - r.items.Keys && ByNonce([]) == map[]
    ensures DistinctNonces(ready) && forall i :: 0 <= i < |ready| ==> ready[i].sender == addr
  {
    hide ByNonce;
    ByNonceIs(ready);
    ByNonceIs([]);
    assert OwnList(queue[addr], addr);
    var m := queue[addr].items;
    forall n
      ensures n in ByNonce(ready) <==> n in m && n !in r.items
      ensures n in ByNonce(ready) && n in m ==> ByNonce(ready)[n] == m[n]
    {
      if n in m && n !in r.items {
        assert m[n] in ready;
      }
      if n in ByNonce(ready) {
        assert Has(m, ByNonce(ready)[n]);
      }
    }
    forall i | 0 <= i < |ready|
      ensures ready[i].sender == addr
    {
      assert ready[i] in ready;
    }
  }

  lemma SplitElems(gone: seq<Tx>, back: seq<Tx>)
    requires DistinctNonces(gone + back)
    ensures Elems(gone) <= Elems(gone + back) && Elems(back) == Elems(gone + back) - Elems(gone)
    ensures DistinctNonces(gone) && DistinctNonces(back)
  {
    var all := gone + back;
    forall i, j | 0 <= i < |gone| && 0 <= j < |back|
      ensures gone[i] != back[j]
    {
      assert all[i].nonce != all[|gone| + j].nonce;
    }
    forall i, j | 0 <= i < j < |back|
      ensures back[i].nonce != back[j].nonce
    {
      assert all[|gone| + i].nonce != all[|gone| + j].nonce;
    }
    forall i, j | 0 <= i < j < |gone|
      ensures gone[i].nonce != gone[j].nonce
    {
      assert all[i].nonce != all[j].nonce;
    }
    assert Elems(all) == Elems(gone) + Elems(back);
  }

  lemma WithoutFacts(all: PricedList.Pool, drop: seq<Tx>)
    requires forall i :: 0 <= i < |drop| ==> InPool(all, drop[i])
    ensures forall h :: h in Without(all, drop) ==> h in all && Without(all, drop)[h] == all[h]
    ensures forall h :: h in all && h !in Without(all, drop) ==> all[h] in drop
  {
    forall h | h in all && h !in Without(all, drop)
      ensures all[h] in drop
    {
      var i :| 0 <= i < |drop| && drop[i].hash == h;
      assert InPool(all, drop[i]);
    }
  }

  lemma WithoutSize(all: PricedList.Pool, drop: seq<Tx>)
    requires HashesOf(drop) <= all.Keys
    ensures |Without(all, drop)| == |all| - |HashesOf(drop)|
  {
    assert Without(all, drop).Keys == all.Keys - HashesOf(drop);
    assert |Without(all, drop)| == |Without(all, drop).Keys|;
  }

  lemma {:induction false} HashesBound(txs: seq<Tx>)
    ensures |HashesOf(txs)| <= |txs| && (txs != [] ==> |HashesOf(txs)| > 0)
  {
    if txs != [] {
      var front, last := txs[..|txs| - 1], txs[|txs| - 1];
      HashesBound(front);
      HashesStep(front, last);
      assert txs == front + [last];
    }
  }

  lemma RoomIsMade(all: PricedList.Pool, count: nat, locals: set<Address>, before: multiset<Tx>, after: multiset<Tx>,
      drop: seq<Tx>)
    requires Faithful(all, before) && Covered(all, before) && Conserved(all, before, after + multiset(drop))
    requires forall i :: 0 <= i < |drop| ==> Live(all, drop[i]) && Remote(locals, drop[i])
    requires CheapestDropped(all, locals, drop, after) && |drop| <= count
    requires |drop| < count ==> forall tx :: tx in after && Live(all, tx) ==> !Remote(locals, tx)
    ensures RoomMade(all, Without(all, drop), locals, count, UniqueLive(all, before))
  {
    hide Conserved, Faithful, Covered, CheapestDropped, UniqueLive, Without;
    assert HashesOf(drop) <= all.Keys;
    WithoutSize(all, drop);
    HashesBound(drop);
    if UniqueLive(all, before) {
      DiscardExact(all, count, locals, before, after, drop);
    }
    if count > 0 && |RemoteHashes(all, locals)| > 0 {
      var h :| h in RemoteHashes(all, locals);
      if h !in HashesOf(drop) {
        StillEntered(all, before, after, drop, h);
      }
    }
  }

  lemma CheapestLeave(txOf: Hash -> Tx, all: PricedList.Pool, locals: set<Address>, heap: multiset<Tx>, drop: seq<Tx>)
    requires HashKeyed(all) && Cover(txOf, all, heap, Elems(drop)) && CheapestDropped(all, locals, drop, heap)
    requires forall i :: 0 <= i < |drop| ==> InPool(all, drop[i])
    ensures CheapestGone(all, Without(all, drop), locals)
  {
    var after := Without(all, drop);
    forall g, h | g in all && g !in after && h in after && Remote(locals, after[h])
      ensures !PriceLess(after[h], all[g])
    {
      var i :| 0 <= i < |drop| && drop[i].hash == g;
      assert InPool(all, drop[i]) && drop[i] == all[g];
      assert all[h] !in Elems(drop) && all[h] in heap && Live(all, all[h]);
    }
  }

  /** Deleting what the price heap dropped leaves exactly the local transactions and those at or
      above the threshold. */
  lemma PriceCut(txOf: Hash -> Tx, all: PricedList.Pool, price: nat, locals: set<Address>, before: multiset<Tx>,
      after: multiset<Tx>, drop: seq<Tx>)
    requires Cover(txOf, all, before, {}) && HashKeyed(all) && Conserved(all, before, after + multiset(drop))
    requires forall i :: 0 <= i < |drop| ==> Live(all, drop[i]) && Remote(locals, drop[i]) && drop[i].price < price
    requires forall tx :: tx in after && Live(all, tx) && Remote(locals, tx) ==> tx.price >= price
    ensures Without(all, drop) == map h | h in all && !(Remote(locals, all[h]) && all[h].price < price) :: all[h]
  {
    CoverFaithful(txOf, all, before);
    DroppedKnown(txOf, all, before, after, drop);
    forall h | h in all
      ensures h in Without(all, drop) <==> !(Remote(locals, all[h]) && all[h].price < price)
    {
      CapExact(all, price, locals, before, after, drop, h);
      if all[h] in drop {
        var i :| 0 <= i < |drop| && drop[i] == all[h];
        assert drop[i].hash == h;
      }
    }
  }

  /** The number of transactions in all lists, added up in an arbitrary order. */
  method CountLists(x: Lists) returns (n: nat)
    ensures n == Count(x)
  {
    n := 0;
    var rest := x.Keys;
    ghost var seen: Lists := map[];
    assert Sizes(seen) == map[];
    while rest != {}
      invariant rest <= x.Keys && n == Count(seen) && seen == x - rest
      decreases |rest|
    {
      var a :| a in rest;
      CountInsert(seen, a, x[a]);
      n := n + |x[a].items|;
      seen := seen[a := x[a]];
      rest := rest - {a};
    }
    assert seen == x;
  }

  ghost function StartLevel(x: Lists, slots: nat): (level: nat)
    ensures IsBound(x, level) && slots <= level
  {
    if Bound(x) < slots then slots else Bound(x)
  }

  lemma AlignedLast(x: Lists, offenders: seq<Address>, level: nat)
    requires Aligned(x, offenders, level) && |offenders| > 0
    ensures offenders[|offenders| - 1] in x && |x[offenders[|offenders| - 1]].items| == level
  {
  }

  lemma {:induction false} CountNonNegative(x: Lists)
    ensures Count(x) >= 0
    decreases |x|
  {
    if x == map[] {
      assert Sizes(x) == map[];
    } else {
      var a :| a in x;
      CountNonNegative(x - {a});
      CountInsert(x - {a}, a, x[a]);
      assert (x - {a})[a := x[a]] == x;
    }
  }

  lemma CountInsert(x: Lists, a: Address, l: List)
    requires a !in x
    ensures Count(x[a := l]) == Count(x) + |l.items|
  {
    assert Sizes(x[a := l]) == Sizes(x)[a := |l.items|];
    Sums.TotalInsert(Sizes(x), a, |l.items|);
  }

  lemma NothingCut(x: Lists, locals: set<Address>, level: nat, limit: nat)
    requires IsBound(x, level)
    ensures Cut(x, locals, level) == x && Needed(x, locals, limit, level)
  {
    forall a | a in x
      ensures Cut(x, locals, level)[a] == x[a]
    {
      CutListSize(x[a], level);
    }
  }

  /** Accounts still waiting in the priority queue have not been touched. */
  lemma RestUncut(x: Lists, locals: set<Address>, slots: nat, limit: nat, offenders: seq<Address>, rest: set<Address>,
      level: nat)
    requires Flooded(x, locals, slots, limit, offenders, rest, level)
    ensures var y := CutOn(x, Addresses(offenders), level);
            rest <= y.Keys && rest <= x.Keys && forall a :: a in rest ==> y[a] == x[a] && |x[a].items| <= level
    ensures Distinct(offenders)
  {
    assert forall a :: a in rest ==> a in Spammers(x, locals, slots);
  }

  lemma FullNext(x: Lists, offenders: seq<Address>, a: Address, lower: nat)
    requires Full(x, offenders, lower) && a in x
    ensures lower == |x[a].items| ==> Full(x, offenders + [a], lower)
  {
  }

  lemma FloodedFacts(x: Lists, locals: set<Address>, slots: nat, limit: nat, offenders: seq<Address>,
      rest: set<Address>, level: nat)
    requires Flooded(x, locals, slots, limit, offenders, rest, level)
    ensures Distinct(offenders) && slots <= level && forall a :: a in rest ==> |x[a].items| <= level
  {
  }

  /** With nobody waiting and the offenders at the floor, every remote account is within its allowance. */
  lemma AllWithin(x: Lists, locals: set<Address>, slots: nat, limit: nat, offenders: seq<Address>, level: nat,
      lower: nat)
    requires Flooded(x, locals, slots, limit, offenders, {}, level)
    requires offenders == [] || lower == slots
    ensures !Cuts(Cut(x, locals, lower), locals, slots)
  {
    var y := Cut(x, locals, lower);
    forall a | a in y && a !in locals
      ensures |y[a].items| <= slots
    {
      CutListSize(x[a], lower);
      assert a in Spammers(x, locals, slots) || |x[a].items| <= slots;
    }
  }

  lemma RoundStart(x: Lists, offenders: seq<Address>, level: nat)
    requires level > 0
    ensures CutOn(x, Addresses(offenders[..0]), level - 1) == x
  {
  }

  lemma RoundStep(x: Lists, offenders: seq<Address>, i: nat, level: nat)
    requires level > 0 && i < |offenders| && Aligned(x, offenders, level)
    ensures var y, a := CutOn(x, Addresses(offenders[..i]), level - 1), offenders[i];
            && a in y && |y[a].items| == level
            && y[a := CutList(y[a], level - 1)] == CutOn(x, Addresses(offenders[..i + 1]), level - 1)
            && Count(CutOn(x, Addresses(offenders[..i + 1]), level - 1)) == Count(y) - 1
  {
    hide CutOn, Count, Lowest, Addresses;
    var y, a := CutOn(x, Addresses(offenders[..i]), level - 1), offenders[i];
    AddressesStep(offenders, i);
    CutOnStep(x, Addresses(offenders[..i]), a, level - 1);
    CutListSize(x[a], level - 1);
    CountUpdate(y, a, CutList(x[a], level - 1));
  }

  lemma AddressesStep(s: seq<Address>, i: nat)
    requires i < |s| && Distinct(s)
    ensures Addresses(s[..i + 1]) == Addresses(s[..i]) + {s[i]} && s[i] !in Addresses(s[..i])
  {
    assert s[..i + 1] == s[..i] + [s[i]];
  }

  /** Taking transactions out of a pending list makes them owed, with free nonces. */
  lemma PendingTaken(pending: Lists, queue: Lists, all: PricedList.Pool, a: Address, r: List, out: seq<Tx>)
    requires Agree(pending, queue, all, {}) && a in pending && WellFormed(r)
    requires TakenOut(pending[a].items, r.items, out)
    ensures Agree(pending[a := r], queue, all, Elems(out))
    ensures Clear(pending[a := r], Elems(out)) && Clear(queue, Elems(out)) && DistinctSlots(Elems(out))
  {
    assert OwnList(pending[a], a);
    TakeAgree(pending, queue, all, {}, a, r, Elems(out));
    assert {} + Elems(out) == Elems(out);
  }

  lemma QueueTaken(pending: Lists, queue: Lists, all: PricedList.Pool, a: Address, r: List, out: seq<Tx>)
    requires Agree(pending, queue, all, {}) && a in queue && WellFormed(r)
    requires TakenOut(queue[a].items, r.items, out)
    ensures Agree(pending, queue[a := r], all, Elems(out))
    ensures Clear(pending, Elems(out)) && Clear(queue[a := r], Elems(out)) && DistinctSlots(Elems(out))
  {
    AgreeFlip(pending, queue, all, {});
    PendingTaken(queue, pending, all, a, r, out);
    AgreeFlip(queue[a := r], pending, all, Elems(out));
  }

  lemma SlotsDisjoint(x: Lists, y: Lists, all: PricedList.Pool, owed: set<Tx>, tx: Tx)
    requires Agree(x, y, all, owed) && Occupied(x, tx)
    ensures !Occupied(y, tx)
  {
  }

  /** A listed transaction is known under its own hash. */
  lemma ListedFacts(x: Lists, y: Lists, all: PricedList.Pool, owed: set<Tx>, a: Address, n: nat)
    requires Agree(x, y, all, owed) && a in x && n in x[a].items
    ensures var t := x[a].items[n]; t.sender == a && t.nonce == n && InPool(all, t)
  {
    assert OwnList(x[a], a);
    assert Listed(x, x[a].items[n]);
  }

  /** The queue once tx has been taken out, with an emptied list gone. */
  ghost function QueueWithout(queue: Lists, tx: Tx): Lists {
    if tx.sender !in queue then queue
    else
      var r := queue[tx.sender].(items := queue[tx.sender].items - {tx.nonce});
      if r.items == map[] then queue - {tx.sender} else queue[tx.sender := r]
  }

  /** What is left of the map once the given transactions are deleted. */
  ghost function Without(all: PricedList.Pool, txs: seq<Tx>): PricedList.Pool {
    map h | h in all && (forall i :: 0 <= i < |txs| ==> txs[i].hash != h) :: all[h]
  }

  lemma WithoutStep(all: PricedList.Pool, txs: seq<Tx>, i: nat)
    requires i < |txs|
    ensures Without(all, txs[..i + 1]) == Without(all, txs[..i]) - {txs[i].hash} && Without(all, []) == all
  {
    assert txs[..i + 1] == txs[..i] + [txs[i]];
  }

  lemma UniqueSettle(all: PricedList.Pool, before: multiset<Tx>, after: multiset<Tx>)
    requires Conserved(all, before, after)
    ensures UniqueLive(all, after) <==> UniqueLive(all, before)
  {
  }

  lemma CoverSettle(txOf: Hash -> Tx, all: PricedList.Pool, before: multiset<Tx>, after: multiset<Tx>)
    requires Cover(txOf, all, before, {}) && Conserved(all, before, after) && HashKeyed(all)
    ensures Cover(txOf, all, after, {})
  {
    assert Conserved(all, before, after + multiset([]));
    CoverDropped(txOf, all, before, after, [], {});
  }

  /** Popped entries no longer matter once their transactions are gone. */
  lemma CoverRemoved(txOf: Hash -> Tx, known: PricedList.Pool, drop: seq<Tx>, all: PricedList.Pool, heap: multiset<Tx>)
    requires Cover(txOf, all, heap, Elems(drop)) && HashKeyed(all) && all == Without(known, drop)
    ensures Cover(txOf, all, heap, {})
  {
    forall tx | tx in drop
      ensures tx.hash !in all
    {
      var i :| 0 <= i < |drop| && drop[i] == tx;
    }
  }

  /** What the heap dropped are known transactions. */
  lemma DroppedKnown(txOf: Hash -> Tx, all: PricedList.Pool, before: multiset<Tx>, after: multiset<Tx>, drop: seq<Tx>)
    requires Cover(txOf, all, before, {}) && Conserved(all, before, after + multiset(drop))
    requires forall i :: 0 <= i < |drop| ==> Live(all, drop[i])
    ensures forall i :: 0 <= i < |drop| ==> InPool(all, drop[i])
  {
    forall i | 0 <= i < |drop|
      ensures InPool(all, drop[i])
    {
      assert drop[i] in multiset(drop);
      assert (after + multiset(drop))[drop[i]] <= before[drop[i]];
    }
  }

  lemma TailStep(txs: seq<Tx>, i: nat)
    requires i < |txs| && DistinctNonces(txs)
    ensures Elems(txs[i + 1..]) == Elems(txs[i..]) - {txs[i]} && txs[i] in Elems(txs[i..])
    ensures Elems(txs[i..]) <= Elems(txs)
  {
    assert txs[i..] == [txs[i]] + txs[i + 1..];
  }

  lemma CoverHonest(txOf: Hash -> Tx, all: PricedList.Pool, heap: multiset<Tx>, popped: set<Tx>, tx: Tx)
    requires Cover(txOf, all, heap, popped) && InPool(all, tx)
    ensures txOf(tx.hash) == tx
  {
  }

  /** Filing one of several owed transactions leaves the nonces of the others free. */
  lemma ClearAfter(queue: Lists, owed: set<Tx>, tx: Tx, rest: set<Tx>, txs: seq<Tx>)
    requires rest == owed - {tx} && owed <= Elems(txs) && DistinctSlots(Elems(txs)) && tx in owed
    requires forall t :: t in owed && !SameSlot(t, tx) ==> !Occupied(queue, t)
    ensures Clear(queue, rest)
  {
  }

  lemma RemovePending(pending: Lists, queue: Lists, all: PricedList.Pool, tx: Tx, r: List, invalids: seq<Tx>)
    requires Agree(pending, queue, all, {}) && InPool(all, tx) && Occupied(pending, tx)
    requires WellFormed(r) && r == pending[tx.sender].(items := Removed(pending[tx.sender], tx.nonce))
    requires TakenOut(pending[tx.sender].items - {tx.nonce}, r.items, invalids)
    ensures var x := Put(pending, tx.sender, r);
            Agree(x, queue, all - {tx.hash}, Elems(invalids)) && Clear(x, Elems(invalids))
    ensures Clear(queue, Elems(invalids)) && DistinctSlots(Elems(invalids))
  {
    var a := tx.sender;
    assert Listed(queue, tx) ==> Occupied(queue, tx);
    assert Listed(pending, tx);
    var out := {tx} + Elems(invalids);
    assert OwnList(pending[a], a);
    TakeAgree(pending, queue, all, {}, a, r, out);
    ForgetAgree(pending[a := r], queue, all, {} + out, tx);
    assert out - {tx} == Elems(invalids);
    PutAgree(pending, queue, all - {tx.hash}, Elems(invalids), a, r);
  }

  /** The lists with one of them replaced, or gone if it is empty. */
  ghost function Put(x: Lists, a: Address, r: List): Lists {
    if r.items == map[] then x - {a} else x[a := r]
  }

  lemma PutAgree(x: Lists, y: Lists, all: PricedList.Pool, owed: set<Tx>, a: Address, r: List)
    requires Agree(x[a := r], y, all, owed)
    ensures Agree(Put(x, a, r), y, all, owed) && (Clear(x[a := r], owed) ==> Clear(Put(x, a, r), owed))
  {
    if r.items == map[] {
      DropEmptyAgree(x[a := r], y, all, owed, a);
      assert x[a := r] - {a} == x - {a};
    }
  }

  lemma PutStrict(x: Lists, a: Address, r: List)
    requires AllStrict(x, true) && r.strict
    ensures AllStrict(Put(x, a, r), true)
  {
  }

  /** A known transaction whose nonce is not pending sits in the queue. */
  lemma QueuedHit(pending: Lists, queue: Lists, all: PricedList.Pool, tx: Tx)
    requires Agree(pending, queue, all, {}) && InPool(all, tx) && !Occupied(pending, tx)
    ensures Listed(queue, tx) && Occupied(queue, tx)
  {
    assert !Listed(pending, tx);
  }

  lemma RemoveQueued(pending: Lists, queue: Lists, all: PricedList.Pool, tx: Tx, r: List)
    requires Agree(pending, queue, all, {}) && Listed(queue, tx) && !queue[tx.sender].strict
    requires WellFormed(r) && r == queue[tx.sender].(items := Removed(queue[tx.sender], tx.nonce))
    ensures Agree(pending, queue[tx.sender := r], all - {tx.hash}, {})
  {
    var a := tx.sender;
    assert OwnList(queue[a], a);
    AgreeFlip(pending, queue, all, {});
    TakeAgree(queue, pending, all, {}, a, r, {tx});
    ForgetAgree(queue[a := r], pending, all, {} + {tx}, tx);
    assert {} + {tx} - {tx} == {};
    AgreeFlip(queue[a := r], pending, all - {tx.hash}, {});
  }

  lemma DropEmptyQueue(pending: Lists, queue: Lists, all: PricedList.Pool, owed: set<Tx>, a: Address)
    requires Agree(pending, queue, all, owed) && a in queue && queue[a].items == map[]
    ensures Agree(pending, queue - {a}, all, owed)
  {
    AgreeFlip(pending, queue, all, owed);
    DropEmptyAgree(queue, pending, all, owed, a);
    AgreeFlip(queue - {a}, pending, all, owed);
  }

  lemma DiscardAgree(x: Lists, y: Lists, all: PricedList.Pool, owed: set<Tx>, tx: Tx)
    requires Agree(x, y, all, owed) && (tx in owed || tx.hash !in all)
    ensures Agree(x, y, all - {tx.hash}, owed - {tx})
  {
    if tx in owed {
      ForgetAgree(x, y, all, owed, tx);
    } else {
      assert all - {tx.hash} == all && owed - {tx} == owed;
    }
  }

  lemma ElemsNothing()
    ensures Elems([]) == {}
  {
  }

  lemma ElemsStep(txs: seq<Tx>, i: nat)
    requires i < |txs| && DistinctNonces(txs)
    ensures Elems(txs[..i + 1]) == Elems(txs[..i]) + {txs[i]} && txs[i] !in Elems(txs[..i]) && txs[i] in Elems(txs)
  {
    assert txs[..i + 1] == txs[..i] + [txs[i]];
  }
}
