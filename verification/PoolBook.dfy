/** Snapshots of the transaction pool of core/tx_pool.go, and what each of its operations does to one. */
module PoolBook {
  import opened Types
  import opened TxTypes
  import opened TxSortedMap
  import opened TxList
  import opened PricedList
  import opened PoolState
  import opened PendingLevels

  datatype Config = Config(priceBump: nat, accountSlots: nat, globalSlots: nat, accountQueue: nat, globalQueue: nat)

  /** The account state at the head of the chain. */
  datatype Ledger = Ledger(nonce: Address -> nat, balance: Address -> nat)

  datatype AddError = Known | OversizedData | NegativeValue | GasLimit | Underpriced | NonceTooLow
                    | InsufficientFunds | IntrinsicGas | ReplaceUnderpriced

  datatype AddResult = Added(replaced: bool) | Rejected(error: AddError)

  const MAX_TX_SIZE := 32 * 1024

  /** A snapshot: the lists of all accounts, the known transactions, the virtual nonces the pool has moved, the
      heartbeats and the local accounts. */
  datatype Book = Book(pending: Lists, queue: Lists, all: Pool, nonces: map<Address, nat>, beats: map<Address, nat>,
                       locals: set<Address>)

  /** What an operation goes by: the account state, the gas limit, the price floor, the limits and the time. */
  datatype Terms = Terms(ledger: Ledger, maxGas: nat, gasPrice: nat, cfg: Config, now: nat)

  /** The indexes of a snapshot agree. */
  ghost predicate Coherent(b: Book) {
    Agree(b.pending, b.queue, b.all, {}) && AllStrict(b.pending, true) && AllStrict(b.queue, false)
  }

  /** The virtual nonce of an account: that of the chain unless the pool has moved it. */
  function NonceIn(nonces: map<Address, nat>, ledger: Ledger, a: Address): nat {
    if a in nonces then nonces[a] else ledger.nonce(a)
  }

  ghost predicate OthersSame(q: Lists, q0: Lists, addr: Address) {
    forall a :: a != addr ==> (a in q <==> a in q0) && (a in q ==> q[a] == q0[a])
  }

  ghost predicate SameElsewhere(n: map<Address, nat>, n0: map<Address, nat>, addr: Address) {
    forall a :: a != addr ==> (a in n <==> a in n0) && (a in n ==> n[a] == n0[a])
  }

  // ---------- heartbeats ----------

  /** Accounts by their last heartbeat; one that never had any comes first. */
  function Heard(beats: map<Address, nat>, a: Address): nat {
    if a in beats then beats[a] + 1 else 0
  }

  /** An account without a heartbeat is older than any lifetime. */
  predicate Stale(beats: map<Address, nat>, a: Address, now: nat, lifetime: nat) {
    a !in beats || now - beats[a] > lifetime
  }

  // ---------- virtual nonces ----------

  /** The lowest of what a virtual nonce was and the nonces a list has lost. */
  ghost predicate LoweredTo(v: nat, v0: nat, kept: set<nat>, had: set<nat>) {
    && kept <= had && v <= v0 && (forall k :: k in had && k !in kept ==> v <= k)
    && (v == v0 || (v in had && v !in kept))
  }

  /** Every virtual nonce has been lowered to the first nonce the pending list of its account has lost. */
  ghost predicate Lowered(n: map<Address, nat>, n0: map<Address, nat>, ledger: Ledger, x: Lists, x0: Lists) {
    forall a :: LoweredTo(NonceIn(n, ledger, a), NonceIn(n0, ledger, a), ItemsOf(x, a).Keys, ItemsOf(x0, a).Keys)
  }

  lemma LoweredSame(n: map<Address, nat>, ledger: Ledger, x: Lists)
    ensures Lowered(n, n, ledger, x, x)
  {
  }

  lemma LoweredThrough(n: map<Address, nat>, n1: map<Address, nat>, n0: map<Address, nat>, ledger: Ledger, x: Lists,
      x1: Lists, x0: Lists)
    requires Lowered(n, n1, ledger, x, x1) && Lowered(n1, n0, ledger, x1, x0)
    ensures Lowered(n, n0, ledger, x, x0)
  {
    forall a
      ensures LoweredTo(NonceIn(n, ledger, a), NonceIn(n0, ledger, a), ItemsOf(x, a).Keys, ItemsOf(x0, a).Keys)
    {
      assert LoweredTo(NonceIn(n, ledger, a), NonceIn(n1, ledger, a), ItemsOf(x, a).Keys, ItemsOf(x1, a).Keys);
      assert LoweredTo(NonceIn(n1, ledger, a), NonceIn(n0, ledger, a), ItemsOf(x1, a).Keys, ItemsOf(x0, a).Keys);
    }
  }

  /** One past the highest stored nonce. */
  ghost predicate PastLast(m: Items, next: nat) {
    next > 0 && next - 1 in m && forall n :: n in m ==> n < next
  }

  // ---------- forgetting ----------

  /** What stays pending of a list when the pool forgets transactions: all before the first forgotten one. */
  ghost function Solid(m: Items, all: Pool): Items {
    map n | n in m && (forall k :: k in m && k <= n ==> m[k].hash in all) :: m[n]
  }

  /** A snapshot after some transactions were forgotten: what depended on them is queued, emptied pending lists
      and their heartbeats are gone, and the virtual nonces have followed. */
  ghost predicate Shrunk(b: Book, b0: Book, ledger: Ledger) {
    && Coherent(b) && b.locals == b0.locals && Subpool(b.all, b0.all)
    && (forall a :: ItemsOf(b.pending, a) == Solid(ItemsOf(b0.pending, a), b.all))
    && (forall a :: a in b.pending <==>
        a in b0.pending && (ItemsOf(b0.pending, a) == map[] || ItemsOf(b.pending, a) != map[]))
    && b.beats == b0.beats - (b0.pending.Keys - b.pending.Keys)
    && Lowered(b.nonces, b0.nonces, ledger, b.pending, b0.pending)
  }

  ghost predicate Subpool(all: Pool, all0: Pool) {
    forall h :: h in all ==> h in all0 && all[h] == all0[h]
  }

  lemma SolidTwice(m: Items, all: Pool, all1: Pool)
    requires Subpool(all, all1)
    ensures Solid(Solid(m, all1), all) == Solid(m, all)
  {
    var s := Solid(m, all1);
    forall n
      ensures n in Solid(s, all) <==> n in Solid(m, all)
    {
      if n in Solid(s, all) {
        forall k | k in m && k <= n
          ensures m[k].hash in all
        {
          assert k in s && s[k] == m[k];
        }
      }
      if n in Solid(m, all) {
        assert n in s;
        forall k | k in s && k <= n
          ensures s[k].hash in all
        {
          assert k in m;
        }
      }
    }
  }

  lemma ShrunkThrough(b: Book, b1: Book, b0: Book, ledger: Ledger)
    requires Shrunk(b, b1, ledger) && Shrunk(b1, b0, ledger)
    ensures Shrunk(b, b0, ledger)
  {
    hide Coherent, Lowered, Solid;
    LoweredThrough(b.nonces, b1.nonces, b0.nonces, ledger, b.pending, b1.pending, b0.pending);
    SolidNothing(b.all);
    SolidNothing(b1.all);
    forall a
      ensures ItemsOf(b.pending, a) == Solid(ItemsOf(b0.pending, a), b.all)
    {
      SolidTwice(ItemsOf(b0.pending, a), b.all, b1.all);
    }
    BeatsThrough(b0.beats, b.pending.Keys, b1.pending.Keys, b0.pending.Keys);
  }

  lemma BeatsThrough(beats: map<Address, nat>, k: set<Address>, k1: set<Address>, k0: set<Address>)
    requires k <= k1 <= k0
    ensures beats - (k0 - k1) - (k1 - k) == beats - (k0 - k)
  {
  }

  lemma SolidNothing(all: Pool)
    ensures Solid(map[], all) == map[]
  {
  }

  /** Nothing but what the pool has forgotten leaves a pending list. */
  lemma SolidWhole(m: Items, all: Pool)
    requires forall k :: k in m ==> m[k].hash in all
    ensures Solid(m, all) == m
  {
  }

  lemma SolidBelow(m: Items, all: Pool, n: nat)
    requires n in m && m[n].hash !in all && forall k :: k in m && k != n ==> m[k].hash in all
    ensures Solid(m, all) == Below(m, n)
  {
  }

  // ---------- adding ----------

  predicate IsLocal(locals: set<Address>, tx: Tx, local: bool) {
    local || tx.sender in locals
  }

  /** The first check a transaction fails, in the order the pool makes them. */
  function Validate(tx: Tx, local: bool, locals: set<Address>, t: Terms): Option<AddError> {
    if tx.size > MAX_TX_SIZE then Some(OversizedData)
    else if tx.value < 0 then Some(NegativeValue)
    else if t.maxGas < tx.gas then Some(GasLimit)
    else if !IsLocal(locals, tx, local) && t.gasPrice > tx.price then Some(Underpriced)
    else if t.ledger.nonce(tx.sender) > tx.nonce then Some(NonceTooLow)
    else if t.ledger.balance(tx.sender) < Cost(tx) then Some(InsufficientFunds)
    else if tx.gas < tx.intrinsic then Some(IntrinsicGas)
    else None
  }

  predicate IsFull(all: Pool, cfg: Config) {
    |all| >= cfg.globalSlots + cfg.globalQueue
  }

  /** How many transactions must go before one more fits. */
  function RoomNeeded(all: Pool, cfg: Config): nat {
    var n := |all| - (cfg.globalSlots + cfg.globalQueue - 1);
    if n < 0 then 0 else n
  }

  /** The pool is full and the transaction is from a remote account and dearer than none in it. */
  ghost predicate TurnedAway(b: Book, tx: Tx, local: bool, cfg: Config) {
    && IsFull(b.all, cfg) && !local && Remote(b.locals, tx) && b.all != map[]
    && forall h :: h in b.all ==> tx.price <= b.all[h].price
  }

  /** No remote transaction that stays is cheaper than one that goes. */
  ghost predicate CheapestGone(before: Pool, after: Pool, locals: set<Address>) {
    forall g, h :: g in before && g !in after && h in after && Remote(locals, after[h]) ==>
        !PriceLess(after[h], before[g])
  }

  /** No more room is made than needed, and some is made whenever a remote transaction can go.  When live
      heap entries were unique it is as much as needed, or as there are remote transactions. */
  ghost predicate RoomMade(before: Pool, after: Pool, locals: set<Address>, needed: nat,
      unique: bool) {
    var remote := |RemoteHashes(before, locals)|;
    && |before| - needed <= |after| <= |before|
    && (needed > 0 && remote > 0 ==> |after| < |before|)
    && (unique ==> |after| == |before| - if needed <= remote then needed else remote)
  }

  /** Making room: a full pool forgets its cheapest remote transactions; unique tells whether live entries of the
      price heap were unique. */
  ghost predicate Roomed(b: Book, b0: Book, unique: bool, t: Terms) {
    if !IsFull(b0.all, t.cfg) then b == b0
    else
      && Shrunk(b, b0, t.ledger) && CheapestGone(b0.all, b.all, b0.locals)
      && (forall h :: h in b0.all && h !in b.all ==> Remote(b0.locals, b0.all[h]))
      && RoomMade(b0.all, b.all, b0.locals, RoomNeeded(b0.all, t.cfg), unique)
  }

  /** Whatever has the nonce of tx is outbid by it. */
  ghost predicate Outbids(all: Pool, tx: Tx, priceBump: nat) {
    forall h :: h in all && SameSlot(all[h], tx) ==> Replaces(all[h], tx, priceBump)
  }

  ghost predicate Taken(all: Pool, tx: Tx) {
    exists h :: h in all && SameSlot(all[h], tx)
  }

  /** The known transactions once tx has taken the place of whatever had its nonce. */
  ghost function Placed(all: Pool, tx: Tx): Pool {
    (map h | h in all && !SameSlot(all[h], tx) :: all[h])[tx.hash := tx]
  }

  /** Filing: a transaction that outbids what has its nonce goes into the pending list if its nonce is pending and
      into the queue otherwise; nothing else changes, but that the sender of a local one becomes local. */
  ghost predicate FiledAs(b: Book, b0: Book, tx: Tx, local: bool, r: AddResult, cfg: Config) {
    if !Outbids(b0.all, tx, cfg.priceBump) then r == Rejected(ReplaceUnderpriced) && b == b0
    else
      && r == Added(Taken(b0.all, tx))
      && b == if Occupied(b0.pending, tx)
              then b0.(pending := b0.pending[tx.sender := Inserted(b0.pending[tx.sender], tx)],
                       all := Placed(b0.all, tx))
              else b0.(queue := b0.queue[tx.sender := Inserted(ListOf(b0.queue, tx.sender, false), tx)],
                       all := Placed(b0.all, tx), locals := b0.locals + if local then {tx.sender} else {})
  }

  /** One addition: the snapshots before it, after room was made and at the end. */
  datatype Step = Step(tx: Tx, before: Book, room: Book, after: Book, unique: bool, result: AddResult)

  /** A transaction is refused for the first reason that applies, and then nothing changes: it is known, invalid, too
      cheap for a full pool, or does not outbid what has its nonce once room was made. */
  ghost predicate AddStep(s: Step, local: bool, t: Terms) {
    var b, invalid := s.before, Validate(s.tx, local, s.before.locals, t);
    if s.tx.hash in b.all then s.result == Rejected(Known) && s.room == s.after == b
    else if invalid.Some? then s.result == Rejected(invalid.value) && s.room == s.after == b
    else if TurnedAway(b, s.tx, local, t.cfg) then s.result == Rejected(Underpriced) && s.room == s.after == b
    else Roomed(s.room, b, s.unique, t) && FiledAs(s.after, s.room, s.tx, local, s.result, t.cfg)
  }

  /** Additions one after the other. */
  ghost predicate AddedInTurn(steps: seq<Step>, b0: Book, b: Book, local: bool, t: Terms) {
    if steps == [] then b == b0
    else
      var last := steps[|steps| - 1];
      last.after == b && AddStep(last, local, t) && AddedInTurn(steps[..|steps| - 1], b0, last.before, local, t)
  }

  lemma AddedNext(steps: seq<Step>, s: Step, b0: Book, local: bool, t: Terms)
    requires AddedInTurn(steps, b0, s.before, local, t) && AddStep(s, local, t)
    ensures AddedInTurn(steps + [s], b0, s.after, local, t)
  {
    hide AddStep;
    assert (steps + [s])[..|steps|] == steps;
  }

  /** What goes in is new, small enough, within the gas limit, paid for and not below the floor unless local; and what
      is refused for one of these is refused rightly. */
  lemma AdmittedOnly(s: Step, local: bool, t: Terms)
    requires AddStep(s, local, t)
    ensures var tx := s.tx;
            s.result.Added? ==>
              && tx.hash !in s.before.all && tx.size <= 32768 && tx.value >= 0 && tx.gas <= t.maxGas
              && (local || tx.sender in s.before.locals || tx.price >= t.gasPrice)
              && tx.nonce >= t.ledger.nonce(tx.sender) && tx.gas >= tx.intrinsic
              && tx.value + tx.price * tx.gas <= t.ledger.balance(tx.sender)
    ensures s.result.Rejected? ==> Cause(s.result.error, s, local, t)
  {
    hide Roomed;
  }

  /** Why a transaction is refused. */
  ghost predicate Cause(e: AddError, s: Step, local: bool, t: Terms) {
    var tx, b := s.tx, s.before;
    match e
    case Known => tx.hash in b.all
    case OversizedData => tx.size > 32768
    case NegativeValue => tx.value < 0
    case GasLimit => tx.gas > t.maxGas
    case Underpriced =>
      && !local && tx.sender !in b.locals
      && var limit := t.cfg.globalSlots + t.cfg.globalQueue;
         tx.price < t.gasPrice || (|b.all| >= limit && forall h :: h in b.all ==> tx.price <= b.all[h].price)
    case NonceTooLow => tx.nonce < t.ledger.nonce(tx.sender)
    case InsufficientFunds => tx.value + tx.price * tx.gas > t.ledger.balance(tx.sender)
    case IntrinsicGas => tx.gas < tx.intrinsic
    case ReplaceUnderpriced =>
      exists h :: h in s.room.all && SameNonce(s.room.all[h], tx)
  }

  /** The remote transactions of a pool. */
  ghost function FromRemote(b: Book): set<Hash> {
    set h | h in b.all && b.all[h].sender !in b.locals
  }

  /** Nothing goes before the pool is full.  From a full one only remote transactions go, none dearer than a remote one
      that stays, or at the same price with a lower nonce; and when live heap entries were unique and enough are remote,
      there is then room for exactly one more. */
  lemma RoomForOne(s: Step, local: bool, t: Terms)
    requires AddStep(s, local, t)
    ensures |s.before.all| < t.cfg.globalSlots + t.cfg.globalQueue ==> s.room == s.before
    ensures forall g :: g in s.before.all && g !in s.room.all ==> s.before.all[g].sender !in s.before.locals
    ensures forall g, h :: g in s.before.all && g !in s.room.all && h in s.room.all
                           && s.room.all[h].sender !in s.before.locals ==>
              s.before.all[g].price < s.room.all[h].price
              || (s.before.all[g].price == s.room.all[h].price && s.before.all[g].nonce >= s.room.all[h].nonce)
    ensures var limit := t.cfg.globalSlots + t.cfg.globalQueue;
            var enough := s.unique && |FromRemote(s.before)| > |s.before.all| - limit;
            (s.result.Added? || s.result == Rejected(ReplaceUnderpriced)) && 0 < limit <= |s.before.all| && enough ==>
              |s.room.all| == limit - 1
  {
    hide TurnedAway, FiledAs, Shrunk;
    assert RemoteHashes(s.before.all, s.before.locals) == FromRemote(s.before);
  }

  /** An addition brings in nothing but its transaction, and takes out only remote ones and the one it replaces. */
  lemma AddSpares(s: Step, local: bool, t: Terms)
    requires AddStep(s, local, t)
    ensures s.result.Added? <==> s.tx.hash !in s.before.all && InPool(s.after.all, s.tx)
    ensures forall h :: h in s.after.all ==> (h in s.before.all && s.after.all[h] == s.before.all[h]) || h == s.tx.hash
    ensures forall h :: h in s.before.all && h !in s.after.all ==>
              s.before.all[h].sender !in s.before.locals || (s.result.Added? && SameSlot(s.before.all[h], s.tx))
    ensures s.before.locals <= s.after.locals
  {
    hide Validate, TurnedAway, Roomed, FiledAs;
    if s.tx.hash !in s.before.all && Validate(s.tx, local, s.before.locals, t).None?
       && !TurnedAway(s.before, s.tx, local, t.cfg) {
      RoomSpares(s.room, s.before, s.unique, t);
      FilingSpares(s.after, s.room, s.tx, local, s.result, t.cfg);
    }
  }

  /** Whatever has the nonce of a transaction once room was made is outbid by the percentage when the transaction goes
      in, and something there is not when it is refused for that; an addition tells whether there was anything. */
  lemma OutbidByBump(s: Step, local: bool, t: Terms)
    requires AddStep(s, local, t)
    ensures s.result.Added? ==>
              forall h :: h in s.room.all && SameNonce(s.room.all[h], s.tx) ==> Bumped(s.room.all[h].price, s, t)
    ensures s.result.Added? ==>
              (s.result.replaced <==> exists h :: h in s.room.all && SameNonce(s.room.all[h], s.tx))
    ensures s.result == Rejected(ReplaceUnderpriced) ==>
              exists h :: h in s.room.all && SameNonce(s.room.all[h], s.tx) && !Bumped(s.room.all[h].price, s, t)
  {
    hide Roomed, TurnedAway, Inserted;
    forall h | h in s.room.all
      ensures Replaces(s.room.all[h], s.tx, t.cfg.priceBump) <==> Bumped(s.room.all[h].price, s, t)
    {
      BumpMet(s.room.all[h], s.tx, t.cfg.priceBump);
    }
    hide Replaces;
    if s.result.Added? {
      assert Outbids(s.room.all, s.tx, t.cfg.priceBump);
    } else if s.result == Rejected(ReplaceUnderpriced) {
      assert !Outbids(s.room.all, s.tx, t.cfg.priceBump);
    }
  }

  /** The price of the transaction is above another by the percentage, up to rounding. */
  ghost predicate Bumped(price: nat, s: Step, t: Terms) {
    s.tx.price > price && 100 * (s.tx.price + 1) > (100 + t.cfg.priceBump) * price
  }

  ghost predicate SameNonce(a: Tx, b: Tx) {
    a.sender == b.sender && a.nonce == b.nonce
  }

  /** Nothing with a nonce of an account is cheaper than this. */
  ghost predicate PricedFrom(all: Pool, sender: Address, nonce: nat, price: nat) {
    forall h :: h in all && all[h].sender == sender && all[h].nonce == nonce ==> all[h].price >= price
  }

  ghost predicate Held(all: Pool, sender: Address, nonce: nat) {
    exists h :: h in all && all[h].sender == sender && all[h].nonce == nonce
  }

  /** While a nonce of an account stays taken, through any additions, its price never falls. */
  lemma {:induction false} SlotPriceRises(steps: seq<Step>, b0: Book, b: Book, local: bool, t: Terms, sender: Address,
      nonce: nat, price: nat)
    requires AddedInTurn(steps, b0, b, local, t) && PricedFrom(b0.all, sender, nonce, price)
    requires forall i :: 0 <= i < |steps| ==> Held(steps[i].room.all, sender, nonce)
    ensures PricedFrom(b.all, sender, nonce, price)
    decreases |steps|
  {
    if steps != [] {
      hide AddStep, PricedFrom, Held;
      var front, last := steps[..|steps| - 1], steps[|steps| - 1];
      SlotPriceRises(front, b0, last.before, local, t, sender, nonce, price);
      StepPriceRises(last, local, t, sender, nonce, price);
    }
  }

  lemma StepPriceRises(s: Step, local: bool, t: Terms, sender: Address, nonce: nat, price: nat)
    requires AddStep(s, local, t) && PricedFrom(s.before.all, sender, nonce, price)
    requires Held(s.room.all, sender, nonce)
    ensures PricedFrom(s.after.all, sender, nonce, price)
  {
    OutbidByBump(s, local, t);
    AddedPool(s, local, t);
    hide AddStep;
    if s.result.Added? { PlacedPriced(s.room.all, s.tx, sender, nonce, price); }
  }

  /** The known transactions after an addition. */
  lemma AddedPool(s: Step, local: bool, t: Terms)
    requires AddStep(s, local, t)
    ensures Subpool(s.room.all, s.before.all)
    ensures s.after.all == if s.result.Added? then Placed(s.room.all, s.tx) else s.room.all
  {
    hide Roomed, TurnedAway, Inserted, Validate, Outbids, Taken, Placed;
    if s.room != s.before { RoomSpares(s.room, s.before, s.unique, t); }
  }

  lemma PlacedPriced(all: Pool, tx: Tx, sender: Address, nonce: nat, price: nat)
    requires PricedFrom(all, sender, nonce, price) && Held(all, sender, nonce)
    requires forall h :: h in all && SameNonce(all[h], tx) ==> tx.price >= all[h].price
    ensures PricedFrom(Placed(all, tx), sender, nonce, price)
  {
  }

  /** A transaction of a local account stays through any additions unless one of them takes its nonce. */
  lemma {:induction false} LocalsStay(steps: seq<Step>, b0: Book, b: Book, local: bool, t: Terms, h: Hash)
    requires AddedInTurn(steps, b0, b, local, t) && h in b0.all && b0.all[h].sender in b0.locals
    ensures b0.locals <= b.locals
    ensures (h in b.all && b.all[h] == b0.all[h])
            || exists i :: 0 <= i < |steps| && steps[i].result.Added? && SameSlot(b0.all[h], steps[i].tx)
    decreases |steps|
  {
    if steps != [] {
      hide AddStep;
      var front, last := steps[..|steps| - 1], steps[|steps| - 1];
      LocalsStay(front, b0, last.before, local, t, h);
      AddSpares(last, local, t);
      if exists i :: 0 <= i < |front| && front[i].result.Added? && SameSlot(b0.all[h], front[i].tx) {
        var i :| 0 <= i < |front| && front[i].result.Added? && SameSlot(b0.all[h], front[i].tx);
        assert steps[i] == front[i];
      } else if h in last.before.all {
        assert last.before.all[h].sender in last.before.locals;
      }
    }
  }

  lemma RoomSpares(b: Book, b0: Book, unique: bool, t: Terms)
    requires Roomed(b, b0, unique, t)
    ensures Subpool(b.all, b0.all) && b.locals == b0.locals
    ensures forall h :: h in b0.all && h !in b.all ==> Remote(b0.locals, b0.all[h])
  {
    hide RoomMade, CheapestGone, Coherent, Lowered, Solid;
  }

  lemma FilingSpares(b: Book, b0: Book, tx: Tx, local: bool, r: AddResult, cfg: Config)
    requires FiledAs(b, b0, tx, local, r, cfg) && tx.hash !in b0.all
    ensures (r.Added? <==> InPool(b.all, tx)) && b0.locals <= b.locals
    ensures forall h :: h in b.all ==> (h in b0.all && b.all[h] == b0.all[h]) || h == tx.hash
    ensures forall h :: h in b0.all && h !in b.all ==> r.Added? && SameSlot(b0.all[h], tx)
  {
    hide Outbids, Taken, Inserted;
  }

  // ---------- promoting ----------

  /** What is left of a pending list when the chain has moved on: nothing older than the account nonce,
      nothing unpayable, and nothing after an unpayable one. */
  ghost function StillPayable(l: List, nonce: nat, balance: nat, maxGas: nat): Items {
    Payable(l.(items := From(l.items, nonce)), balance, maxGas)
  }

  /** A list that does not start at the account nonce is taken back altogether. */
  ghost function FromNonce(m: Items, nonce: nat): Items {
    if nonce in m then m else map[]
  }

  ghost predicate NotRunnable(tx: Tx, ledger: Ledger, maxGas: nat) {
    tx.nonce < ledger.nonce(tx.sender) || Over(tx, ledger.balance(tx.sender), maxGas)
  }

  /** An account after promotion: too old and unpayable transactions are gone, the run from the virtual nonce is
      pending, the virtual nonce is one past it, the heartbeat is new, and the rest waits, within the limit if the
      account is remote. */
  ghost predicate Promoted(a: Address, b: Book, b0: Book, t: Terms) {
    if a !in b0.queue then Untouched(a, b, b0, t)
    else
      var payable := StillPayable(b0.queue[a], t.ledger.nonce(a), t.ledger.balance(a), t.maxGas);
      var waiting := NotReady(payable, NonceIn(b0.nonces, t.ledger, a));
      var ready := payable - waiting.Keys;
      && ItemsOf(b.pending, a) == ItemsOf(b0.pending, a) + ready
      && ItemsOf(b.queue, a) == (if a in b0.locals then waiting else Lowest(waiting, t.cfg.accountQueue))
      && if ready == map[] then SameMarks(a, b, b0, t)
         else PastLast(ready, NonceIn(b.nonces, t.ledger, a)) && a in b.beats && b.beats[a] == t.now
  }

  /** The virtual nonce and the heartbeat of an account are the same. */
  ghost predicate SameMarks(a: Address, b: Book, b0: Book, t: Terms) {
    && NonceIn(b.nonces, t.ledger, a) == NonceIn(b0.nonces, t.ledger, a)
    && (a in b.beats <==> a in b0.beats) && (a in b.beats ==> b.beats[a] == b0.beats[a])
  }

  ghost predicate Untouched(a: Address, b: Book, b0: Book, t: Terms) {
    && ItemsOf(b.pending, a) == ItemsOf(b0.pending, a) && SameMarks(a, b, b0, t)
    && (a in b.queue <==> a in b0.queue) && (a in b.queue ==> b.queue[a] == b0.queue[a])
  }

  /** The accounts done are promoted, the others untouched. */
  ghost predicate AllPromoted(done: set<Address>, b: Book, b0: Book, t: Terms) {
    && b.locals == b0.locals
    && (forall a :: a in done ==> Promoted(a, b, b0, t))
    && (forall a :: a !in done ==> Untouched(a, b, b0, t))
  }

  /** Only the entries of one account have changed. */
  ghost predicate OthersUntouched(b: Book, b0: Book, addr: Address) {
    && OthersSame(b.pending, b0.pending, addr) && OthersSame(b.queue, b0.queue, addr)
    && SameElsewhere(b.nonces, b0.nonces, addr) && SameElsewhere(b.beats, b0.beats, addr) && b.locals == b0.locals
  }

  lemma NonePromoted(b: Book, t: Terms)
    ensures AllPromoted({}, b, b, t)
  {
  }

  /** Promotion after changes to other accounts only is promotion. */
  lemma PromotedFrom(a: Address, b: Book, mid: Book, b0: Book, t: Terms)
    requires Untouched(a, mid, b0, t) && Promoted(a, b, mid, t) && mid.locals == b0.locals
    ensures Promoted(a, b, b0, t)
  {
    hide StillPayable, NotReady, Lowest, PastLast;
  }

  /** Changes to other accounts undo no promotion. */
  lemma PromotedStays(a: Address, b: Book, mid: Book, b0: Book, t: Terms, addr: Address)
    requires a != addr && OthersUntouched(b, mid, addr)
    ensures Promoted(a, mid, b0, t) ==> Promoted(a, b, b0, t)
    ensures Untouched(a, mid, b0, t) ==> Untouched(a, b, b0, t)
  {
    hide StillPayable, NotReady, Lowest, PastLast;
    assert ItemsOf(b.pending, a) == ItemsOf(mid.pending, a) && ItemsOf(b.queue, a) == ItemsOf(mid.queue, a);
    assert SameMarks(a, b, mid, t);
  }

  lemma AllPromotedStep(done: set<Address>, addr: Address, b: Book, mid: Book, b0: Book, t: Terms)
    requires addr !in done && AllPromoted(done, mid, b0, t) && Promoted(addr, b, mid, t)
    requires OthersUntouched(b, mid, addr)
    ensures AllPromoted(done + {addr}, b, b0, t)
  {
    assert b.locals == b0.locals;
    hide Promoted, Untouched, OthersUntouched;
    PromotedFrom(addr, b, mid, b0, t);
    forall a | a != addr
      ensures a in done ==> Promoted(a, b, b0, t)
      ensures a !in done ==> Untouched(a, b, b0, t)
    {
      PromotedStays(a, b, mid, b0, t, addr);
    }
  }

  /** A queued transaction with this nonce that the balance and the gas limit cover. */
  ghost predicate Affordable(l: List, n: nat, balance: nat, maxGas: nat) {
    && n in l.items && l.items[n].gas <= maxGas
    && l.items[n].value + l.items[n].price * l.items[n].gas <= balance
  }

  /** When the pool has not moved the nonce of an account, what becomes pending is the unbroken run of affordable
      transactions from the nonce the account has on the chain. */
  lemma PromotedFromChain(a: Address, b: Book, b0: Book, t: Terms, k: nat)
    requires Promoted(a, b, b0, t) && a in b0.queue && !b0.queue[a].strict && a !in b0.nonces
    ensures var n := t.ledger.nonce(a);
            k in ItemsOf(b.pending, a) <==>
            k in ItemsOf(b0.pending, a)
            || (n <= k && forall i :: n <= i <= k ==> Affordable(b0.queue[a], i, t.ledger.balance(a), t.maxGas))
  {
    var n, l := t.ledger.nonce(a), b0.queue[a];
    var payable := StillPayable(l, n, t.ledger.balance(a), t.maxGas);
    PayableKeys(l, n, t.ledger.balance(a), t.maxGas);
    ReadyKeys(payable, n, k);
    hide StillPayable, NotReady, Affordable, Lowest;
  }

  lemma PayableKeys(l: List, n: nat, balance: nat, maxGas: nat)
    requires !l.strict
    ensures forall i :: i in StillPayable(l, n, balance, maxGas) <==> n <= i && Affordable(l, i, balance, maxGas)
  {
  }

  lemma ReadyKeys(m: Items, n: nat, k: nat)
    requires forall i :: i in m ==> n <= i
    ensures k in m - NotReady(m, n).Keys <==> n <= k && forall i :: n <= i <= k ==> i in m
  {
    if n in m {
      RunEndIs(m, n);
      assert Least(m.Keys) == n;
    }
    hide RunEnd;
  }

  /** The queue of an account without what is too old or unpayable. */
  ghost predicate StaleDropped(b: Book, b0: Book, addr: Address, t: Terms) {
    && b == b0.(queue := b.queue, all := b.all) && OthersSame(b.queue, b0.queue, addr)
    && addr in b0.queue && addr in b.queue
    && b.queue[addr].items == StillPayable(b0.queue[addr], t.ledger.nonce(addr), t.ledger.balance(addr), t.maxGas)
  }

  /** The run from the virtual nonce of an account has become pending. */
  ghost predicate ReadyTaken(b: Book, b0: Book, addr: Address, t: Terms) {
    && addr in b0.queue && addr in b.queue && OthersUntouched(b, b0, addr)
    && b.queue[addr].items == NotReady(b0.queue[addr].items, NonceIn(b0.nonces, t.ledger, addr))
    && var ready := b0.queue[addr].items - b.queue[addr].items.Keys;
       && ItemsOf(b.pending, addr) == ItemsOf(b0.pending, addr) + ready
       && if ready == map[] then SameMarks(addr, b, b0, t)
          else PastLast(ready, NonceIn(b.nonces, t.ledger, addr)) && addr in b.beats && b.beats[addr] == t.now
  }

  /** The queue of an account is within its limit if it is remote, and gone if it is empty. */
  ghost predicate QueueCapped(b: Book, b0: Book, addr: Address, t: Terms) {
    && b == b0.(queue := b.queue, all := b.all) && OthersSame(b.queue, b0.queue, addr) && addr in b0.queue
    && ItemsOf(b.queue, addr) == if addr in b0.locals then b0.queue[addr].items
                                 else Lowest(b0.queue[addr].items, t.cfg.accountQueue)
  }

  lemma StaleDroppedQueue(b: Book, b0: Book, addr: Address, t: Terms)
    requires StaleDropped(b, b0, addr, t)
    ensures addr in b.queue
  {
  }

  lemma ReadyTakenQueue(b: Book, b0: Book, addr: Address, t: Terms)
    requires ReadyTaken(b, b0, addr, t)
    ensures addr in b.queue
  {
  }

  lemma PromotedNothing(addr: Address, b: Book, t: Terms)
    requires addr !in b.queue
    ensures Promoted(addr, b, b, t) && OthersUntouched(b, b, addr)
  {
  }

  /** The three steps of promotion make up promotion. */
  lemma PromotedBy(addr: Address, b: Book, waiting: Book, payable: Book, b0: Book, t: Terms)
    requires StaleDropped(payable, b0, addr, t) && ReadyTaken(waiting, payable, addr, t)
    requires QueueCapped(b, waiting, addr, t)
    ensures Promoted(addr, b, b0, t) && OthersUntouched(b, b0, addr)
  {
    hide StillPayable, NotReady, Lowest, PastLast;
    OthersSameThrough(b.queue, waiting.queue, payable.queue, addr);
    OthersSameThrough(b.queue, payable.queue, b0.queue, addr);
  }

  lemma OthersSameThrough(a: Lists, b: Lists, c: Lists, addr: Address)
    requires OthersSame(a, b, addr) && OthersSame(b, c, addr)
    ensures OthersSame(a, c, addr)
  {
  }

  // ---------- the limits ----------

  /** Both overflow stages have done what they can. */
  ghost predicate WithinLimits(b: Book, cfg: Config) {
    && (Count(b.pending) <= cfg.globalSlots || !Cuts(b.pending, b.locals, cfg.accountSlots))
    && (Count(b.queue) <= cfg.globalQueue || RemoteEmpty(b.queue, b.locals))
  }

  ghost predicate RemoteEmpty(q: Lists, locals: set<Address>) {
    forall a :: a in q && a !in locals ==> q[a].items == map[]
  }

  /** Every queue has kept its lowest nonces. */
  ghost predicate Trimmed(q: Lists, q0: Lists) {
    forall a :: ItemsOf(q, a) == Lowest(ItemsOf(q0, a), |ItemsOf(q, a)|)
  }

  ghost predicate Lost(q: Lists, q0: Lists, a: Address) {
    |ItemsOf(q, a)| < |ItemsOf(q0, a)|
  }

  /** An account loses something only when those heard of more recently have lost everything. */
  ghost predicate RecentFirst(q: Lists, q0: Lists, locals: set<Address>, beats: map<Address, nat>) {
    forall a, b :: a in q0 && a !in locals && Lost(q, q0, b) && Heard(beats, b) < Heard(beats, a) ==>
        ItemsOf(q, a) == map[]
  }

  /** The queue of a remote account heard of later than one that lost something is empty; one never heard of counts as
      the earliest. */
  lemma LaterEmptied(q: Lists, q0: Lists, locals: set<Address>, beats: map<Address, nat>, a: Address, b: Address)
    requires RecentFirst(q, q0, locals, beats) && a in q0 && a !in locals
    requires |ItemsOf(q, b)| < |ItemsOf(q0, b)| && a in beats && (b !in beats || beats[b] < beats[a])
    ensures ItemsOf(q, a) == map[]
  {
    assert Lost(q, q0, b) && Heard(beats, b) < Heard(beats, a);
  }

  ghost predicate LocalsSame(q: Lists, q0: Lists, locals: set<Address>) {
    forall a :: a in locals ==> ListOf(q, a, false) == ListOf(q0, a, false)
  }

  /** A snapshot cut to the limits: the pending lists to the highest level that meets them, with the virtual nonces
      following, and the queues from the accounts heard of most recently. */
  ghost predicate CutDown(b: Book, b0: Book, level: nat, t: Terms) {
    && Coherent(b) && WithinLimits(b, t.cfg) && b.beats == b0.beats && b.locals == b0.locals
    && level >= t.cfg.accountSlots && Needed(b0.pending, b0.locals, t.cfg.globalSlots, level)
    && b.pending == Cut(b0.pending, b0.locals, level)
    && Lowered(b.nonces, b0.nonces, t.ledger, b.pending, b0.pending)
    && QueuesCut(b.queue, b0.queue, b0.locals, b0.beats, t.cfg.globalQueue)
  }

  /** The queues are cut to exactly the limit, or as far as remote ones go. */
  ghost predicate QueuesCut(q: Lists, q0: Lists, locals: set<Address>, beats: map<Address, nat>, limit: nat) {
    && (if Count(q0) <= limit then q == q0 else Count(q) >= limit)
    && LocalsSame(q, q0, locals) && Trimmed(q, q0) && RecentFirst(q, q0, locals, beats)
  }

  /** The snapshot after a promotion, and the level to which the pending lists were then cut. */
  datatype Settling = Settling(promoted: Book, level: nat)

  /** Promotion of some accounts followed by the cut to the limits. */
  ghost predicate Settled(s: Settling, b: Book, b0: Book, accounts: set<Address>, t: Terms) {
    Coherent(s.promoted) && AllPromoted(accounts, s.promoted, b0, t) && CutDown(b, s.promoted, s.level, t)
  }

  // ---------- batches ----------

  /** The steps add these transactions with these results. */
  ghost predicate StepsOf(steps: seq<Step>, txs: seq<Tx>, results: seq<AddResult>) {
    && |steps| == |txs| == |results|
    && forall i :: 0 <= i < |steps| ==> steps[i].tx == txs[i] && steps[i].result == results[i]
  }

  /** The senders of the transactions that went in without replacing one. */
  ghost function NewSenders(steps: seq<Step>): set<Address> {
    set i | 0 <= i < |steps| && steps[i].result == Added(false) :: steps[i].tx.sender
  }

  lemma NewSendersNext(steps: seq<Step>, s: Step)
    ensures NewSenders(steps + [s]) == NewSenders(steps) + if s.result == Added(false) then {s.tx.sender} else {}
  {
    var more := steps + [s];
    forall a
      ensures a in NewSenders(more) <==> a in NewSenders(steps) || (s.result == Added(false) && a == s.tx.sender)
    {
      if a in NewSenders(steps) {
        var i :| 0 <= i < |steps| && steps[i].result == Added(false) && steps[i].tx.sender == a;
        assert more[i] == steps[i];
      }
      if s.result == Added(false) && a == s.tx.sender { assert more[|steps|] == s; }
    }
  }

  /** A batch of additions and, if something new went in, the promotion of the senders; mid lies between. */
  ghost predicate BatchAdded(steps: seq<Step>, mid: Book, s: Settling, b: Book, b0: Book, local: bool, t: Terms) {
    && AddedInTurn(steps, b0, mid, local, t)
    && if NewSenders(steps) == {} then b == mid else Settled(s, b, mid, NewSenders(steps), t)
  }

  // ---------- moving to a new head ----------

  /** What stays pending of an account when the chain has moved on. */
  ghost function Remaining(x: Lists, a: Address, ledger: Ledger, maxGas: nat): Items {
    if a in x then FromNonce(StillPayable(x[a], ledger.nonce(a), ledger.balance(a), maxGas), ledger.nonce(a)) else map[]
  }

  /** The pool without the pending transactions that are too old or cannot be paid for, of the accounts
      outside todo. */
  ghost function RunnableBut(all: Pool, x: Lists, todo: set<Address>, ledger: Ledger, maxGas: nat): Pool {
    map h | h in all && !(all[h].sender !in todo && Listed(x, all[h]) && NotRunnable(all[h], ledger, maxGas)) :: all[h]
  }

  /** Demotion: pending lists keep what can run from the account nonce on, exactly the too old and the unpayable ones
      are forgotten, the others are queued, and virtual nonces are one past the lists. */
  ghost predicate Demoted(b: Book, b0: Book, t: Terms) {
    && Coherent(b) && b.locals == b0.locals && b.beats == b0.beats - (b0.pending.Keys - b.pending.Keys)
    && (forall a :: ItemsOf(b.pending, a) == Remaining(b0.pending, a, t.ledger, t.maxGas))
    && (forall a :: a in b.pending <==> ItemsOf(b.pending, a) != map[])
    && b.all == RunnableBut(b0.all, b0.pending, {}, t.ledger, t.maxGas)
    && NoncesTracked(b.nonces, b0.nonces, b.pending)
  }

  /** The virtual nonces of accounts with pending transactions are one past them; the others are as before. */
  ghost predicate NoncesTracked(n: map<Address, nat>, n0: map<Address, nat>, x: Lists) {
    && (forall a :: a in x ==> a in n && PastLast(x[a].items, n[a]))
    && (forall a :: a !in x ==> (a in n <==> a in n0) && (a in n ==> n[a] == n0[a]))
  }

  /** The stages of a move to a new head: the additions, the snapshots after them, after the promotion of their
      senders and after demotion, and the final promotion of all accounts. */
  datatype Move = Move(steps: seq<Step>, mid: Book, settling: Settling, added: Book, demoted: Book, last: Settling)

  /** The virtual nonces start again from the chain, the transactions are added back, what can no longer run is
      demoted, and every account with a queue is promoted. */
  ghost predicate Moves(m: Move, b: Book, b0: Book, txs: seq<Tx>, t: Terms) {
    && |m.steps| == |txs| && (forall i :: 0 <= i < |txs| ==> m.steps[i].tx == txs[i])
    && BatchAdded(m.steps, m.mid, m.settling, m.added, b0.(nonces := map[]), false, t)
    && Demoted(m.demoted, m.added, t)
    && Settled(m.last, b, m.demoted, m.demoted.queue.Keys, t)
  }
}
