/** BlockChain of core/blockchain.go: choosing the head block, re-numbering the canonical chain on a
    reorganisation, and the index from transactions to their place in the chain. */
module BlockChain {
  import opened Types
  import opened ChainTree
  import opened CommonAncestor
  import HeaderChain
  import HeaderRules

  datatype Status = UnknownAncestor | InvalidChain | Side | Canon

  /** Where a transaction is: block hash, block number and position in the block. */
  datatype Entry = Entry(block: Hash, number: int, index: nat)

  type Lookup = map<TxHash, Entry>

  /** The entry names a block of the chain of head above genesis that carries tx at that position. */
  ghost predicate Locates(db: Store, head: Header, tx: TxHash, e: Entry)
    requires Keyed(db)
  {
    && 0 < e.number && Ancestor(db, head, e.number).Some?
    && var b := Ancestor(db, head, e.number).value;
       b.hash == e.block && e.index < |b.txs| && b.txs[e.index] == tx
  }

  /** The index holds exactly the transactions of the chain above genesis, each at its place. */
  ghost predicate IndexExact(db: Store, head: Header, lookup: Lookup)
    requires Keyed(db)
  {
    forall tx, e :: (tx in lookup && lookup[tx] == e) <==> Locates(db, head, tx, e)
  }

  /** No transaction occurs twice on the chain above genesis. */
  ghost predicate OncePerChain(db: Store, head: Header)
    requires Keyed(db)
  {
    forall tx, e, f :: Locates(db, head, tx, e) && Locates(db, head, tx, f) ==> e == f
  }

  /** The blocks from top down to just above number n. */
  ghost predicate Segment(db: Store, top: Header, n: int, chain: seq<Header>)
    requires Keyed(db)
  {
    |chain| == top.number - n && forall i :: 0 <= i < |chain| ==> Ancestor(db, top, top.number - i) == Some(chain[i])
  }

  // ---------- writing index entries ----------

  /** The index after the entries of one block were written over it. */
  ghost predicate EntriesWritten(before: Lookup, after: Lookup, b: Header) {
    forall tx ::
      if tx in b.txs then tx in after && after[tx].block == b.hash && after[tx].number == b.number
                          && after[tx].index < |b.txs| && b.txs[after[tx].index] == tx
      else (tx in after <==> tx in before) && (tx in before ==> after[tx] == before[tx])
  }

  method WriteTxLookupEntries(lookup: Lookup, b: Header) returns (r: Lookup)
    ensures EntriesWritten(lookup, r, b)
  {
    r := lookup;
    for i := 0 to |b.txs|
      invariant forall tx ::
        if tx in b.txs[..i] then tx in r && r[tx].block == b.hash && r[tx].number == b.number
                                 && r[tx].index < |b.txs| && b.txs[r[tx].index] == tx
        else (tx in r <==> tx in lookup) && (tx in lookup ==> r[tx] == lookup[tx])
    {
      assert b.txs[..i + 1] == b.txs[..i] + [b.txs[i]];
      r := r[b.txs[i] := Entry(b.hash, b.number, i)];
    }
    assert b.txs[..|b.txs|] == b.txs;
  }

  method DeleteTxLookupEntries(lookup: Lookup, txs: seq<TxHash>) returns (r: Lookup)
    ensures r == map tx | tx in lookup && tx !in txs :: lookup[tx]
  {
    r := lookup;
    for i := 0 to |txs|
      invariant r == map tx | tx in lookup && tx !in txs[..i] :: lookup[tx]
    {
      assert txs[..i + 1] == txs[..i] + [txs[i]];
      r := r - {txs[i]};
    }
    assert txs[..|txs|] == txs;
  }

  // ---------- the walk ----------

  /** Walks down from a to number n, gathering the blocks passed and their transactions. */
  method Gather(db: Store, top: Header, n: int) returns (r: Option<Header>, chain: seq<Header>, txs: seq<TxHash>)
    requires Grounded(db) && 0 <= n <= top.number
    ensures r == Ancestor(db, top, n)
    ensures r.Some? ==>
              At(db, top, r.value) && r.value.number == n && Segment(db, top, n, chain) && txs == BranchTxs(db, top, n)
    ensures r.None? ==> forall m :: m <= n ==> Ancestor(db, top, m).None?
  {
    hide BranchTxs;
    var x := top;
    chain, txs := [], [];
    AtStart(db, top);
    EmptyBranch(db, top);
    while x.number != n
      invariant At(db, top, x) && n <= x.number && Segment(db, top, x.number, chain)
      invariant txs == BranchTxs(db, top, x.number)
      decreases x.number
    {
      StepDown(db, top, x);
      BranchStep(db, top, x);
      chain := chain + [x];
      txs := txs + x.txs;
      var p := Get(db, x.parent, x.number - 1);
      if p.None? { return None, chain, txs; }
      x := p.value;
    }
    r := Some(x);
  }

  /** The two branches above the highest common block, or nothing when the chains do not meet. */
  method Split(db: Store, oldBlock: Header, newBlock: Header)
      returns (common: Option<Header>, oldTxs: seq<TxHash>, newChain: seq<Header>)
    requires Grounded(db) && oldBlock.number >= 0 && newBlock.number >= 0
    ensures common.None? ==> forall n :: !Meet(db, oldBlock, newBlock, n)
    ensures common.Some? ==>
      var n := common.value.number;
      && Highest(db, oldBlock, newBlock, n) && 0 <= n && oldTxs == BranchTxs(db, oldBlock, n)
      && Segment(db, newBlock, n, newChain)
  {
    hide Ancestor, BranchTxs, Segment;
    NoMeetAbove(db, oldBlock, newBlock);
    var x, oldChain, txs := Gather(db, oldBlock, Smaller(oldBlock.number, newBlock.number));
    if x.None? { return None, [], []; }
    var y, unused;
    y, newChain, unused := Gather(db, newBlock, x.value.number);
    if y.None? { return None, [], []; }
    while x.value.hash != y.value.hash
      invariant x.Some? && y.Some? && At(db, oldBlock, x.value) && At(db, newBlock, y.value)
      invariant x.value.number == y.value.number
      invariant forall m :: m > x.value.number ==> !Meet(db, oldBlock, newBlock, m)
      invariant txs == BranchTxs(db, oldBlock, x.value.number) && Segment(db, newBlock, y.value.number, newChain)
      decreases x.value.number
    {
      StepDown(db, oldBlock, x.value);
      StepDown(db, newBlock, y.value);
      BranchStep(db, oldBlock, x.value);
      SegmentStep(db, newBlock, y.value, newChain);
      assert !Meet(db, oldBlock, newBlock, x.value.number);
      newChain := newChain + [y.value];
      txs := txs + x.value.txs;
      x, y := Get(db, x.value.parent, x.value.number - 1), Get(db, y.value.parent, y.value.number - 1);
      if x.None? { return None, [], []; }
      if y.None? { return None, [], []; }
    }
    return x, txs, newChain;
  }

  lemma SegmentStep(db: Store, top: Header, x: Header, chain: seq<Header>)
    requires Keyed(db) && At(db, top, x) && Segment(db, top, x.number, chain)
    ensures Segment(db, top, x.number - 1, chain + [x])
  {
  }

  // ---------- re-indexing ----------

  /** Some block of the chain of h numbered in (n, m] carries tx. */
  ghost predicate CarriedBetween(db: Store, h: Header, n: int, m: int, tx: TxHash)
    requires Keyed(db)
  {
    exists k :: n < k <= m && Carries(db, h, k, tx)
  }

  /** The index once the blocks of h numbered in (n, m] were written over the one before. */
  ghost predicate BranchIndexed(db: Store, h: Header, n: int, m: int, before: Lookup, after: Lookup)
    requires Keyed(db)
  {
    forall tx ::
      if CarriedBetween(db, h, n, m, tx) then tx in after && n < after[tx].number <= m && Locates(db, h, tx, after[tx])
      else (tx in after <==> tx in before) && (tx in before ==> after[tx] == before[tx])
  }

  lemma BranchIndexedStart(db: Store, h: Header, n: int, lookup: Lookup)
    requires Keyed(db)
    ensures BranchIndexed(db, h, n, n, lookup, lookup)
    ensures forall tx :: !CarriedBetween(db, h, n, n, tx)
  {
  }

  lemma CarriedStep(db: Store, h: Header, n: int, m: int, b: Header, tx: TxHash)
    requires Keyed(db) && n <= m && Ancestor(db, h, m + 1) == Some(b)
    ensures CarriedBetween(db, h, n, m + 1, tx) <==> CarriedBetween(db, h, n, m, tx) || tx in b.txs
  {
    if tx in b.txs { assert Carries(db, h, m + 1, tx); }
    if CarriedBetween(db, h, n, m, tx) {
      var k :| n < k <= m && Carries(db, h, k, tx);
      assert n < k <= m + 1;
    }
    if CarriedBetween(db, h, n, m + 1, tx) {
      var k :| n < k <= m + 1 && Carries(db, h, k, tx);
    }
  }

  lemma BranchIndexedStep(db: Store, h: Header, n: int, m: int, b: Header, before: Lookup, mid: Lookup, after: Lookup)
    requires Keyed(db) && 0 <= n <= m && Ancestor(db, h, m + 1) == Some(b)
    requires BranchIndexed(db, h, n, m, before, mid) && EntriesWritten(mid, after, b)
    ensures BranchIndexed(db, h, n, m + 1, before, after)
  {
    hide Ancestor, CarriedBetween, Carries;
    AncestorNumber(db, h, m + 1);
    forall tx
      ensures if CarriedBetween(db, h, n, m + 1, tx) then tx in after && n < after[tx].number <= m + 1
                && Locates(db, h, tx, after[tx])
              else (tx in after <==> tx in before) && (tx in before ==> after[tx] == before[tx])
    {
      CarriedStep(db, h, n, m, b, tx);
    }
  }

  /** The entry for a carried transaction. */
  lemma CarriedLocated(db: Store, h: Header, k: int, tx: TxHash) returns (e: Entry)
    requires Keyed(db) && 0 < k && Carries(db, h, k, tx)
    ensures Locates(db, h, tx, e) && e.number == k
  {
    var b := Ancestor(db, h, k).value;
    var i :| 0 <= i < |b.txs| && b.txs[i] == tx;
    e := Entry(b.hash, k, i);
  }

  lemma LocatedCarried(db: Store, h: Header, tx: TxHash, e: Entry)
    requires Keyed(db) && Locates(db, h, tx, e)
    ensures Carries(db, h, e.number, tx) && e.number <= h.number
  {
    AncestorNumber(db, h, e.number);
  }

  /** Where two chains share their ancestors, they locate the same transactions. */
  lemma SharedLocates(db: Store, a: Header, b: Header, n: int, tx: TxHash, e: Entry)
    requires Keyed(db) && e.number <= n && forall k :: 0 <= k <= n ==> Ancestor(db, a, k) == Ancestor(db, b, k)
    ensures Locates(db, a, tx, e) <==> Locates(db, b, tx, e)
  {
  }

  /** Writing the new branch over an exact index of the old chain and deleting what only the old branch
      carried gives an exact index of the new chain. */
  lemma ReindexExact(db: Store, cur: Header, head: Header, n: int, before: Lookup, mid: Lookup, after: Lookup)
    requires Keyed(db) && 0 <= n <= cur.number && n <= head.number
    requires forall k :: 0 <= k <= n ==> Ancestor(db, cur, k) == Ancestor(db, head, k)
    requires IndexExact(db, cur, before) && OncePerChain(db, cur) && OncePerChain(db, head)
    requires BranchIndexed(db, head, n, head.number, before, mid)
    requires forall tx :: tx in after <==>
               tx in mid && !(OnBranch(db, cur, n, tx) && !CarriedBetween(db, head, n, head.number, tx))
    requires forall tx :: tx in after ==> after[tx] == mid[tx]
    ensures IndexExact(db, head, after)
  {
    hide Ancestor;
    forall tx, e
      ensures (tx in after && after[tx] == e) <==> Locates(db, head, tx, e)
    {
      ReindexOne(db, cur, head, n, before, mid, after, tx, e);
    }
  }

  lemma ReindexOne(db: Store, cur: Header, head: Header, n: int, before: Lookup, mid: Lookup, after: Lookup, tx: TxHash,
      e: Entry)
    requires Keyed(db) && 0 <= n <= cur.number && n <= head.number
    requires forall k :: 0 <= k <= n ==> Ancestor(db, cur, k) == Ancestor(db, head, k)
    requires IndexExact(db, cur, before) && OncePerChain(db, cur) && OncePerChain(db, head)
    requires BranchIndexed(db, head, n, head.number, before, mid)
    requires tx in after <==> tx in mid && !(OnBranch(db, cur, n, tx) && !CarriedBetween(db, head, n, head.number, tx))
    requires tx in after ==> after[tx] == mid[tx]
    ensures (tx in after && after[tx] == e) <==> Locates(db, head, tx, e)
  {
    hide Ancestor, Locates, Carries;
    if Locates(db, head, tx, e) {
      LocatedCarried(db, head, tx, e);
    }
    if CarriedBetween(db, head, n, head.number, tx) {
      // the new branch carries it: its one place on the new chain was written
    } else if OnBranch(db, cur, n, tx) {
      // only the old branch carries it: it was deleted, and nothing shared carries it
      var k :| k > n && Carries(db, cur, k, tx);
      var f := CarriedLocated(db, cur, k, tx);
      if Locates(db, head, tx, e) {
        assert e.number <= n;
        SharedLocates(db, cur, head, n, tx, e);
      }
    } else {
      if Locates(db, head, tx, e) || Locates(db, cur, tx, e) {
        if Locates(db, cur, tx, e) { LocatedCarried(db, cur, tx, e); }
        SharedLocates(db, cur, head, n, tx, e);
      }
    }
  }

  // ---------- the chain ----------

  /** Every number has at most the stored blocks behind it that the map names. */
  ghost predicate CanonStored(db: Store, canon: map<int, Hash>) {
    forall n :: n in canon ==> Key(n, canon[n]) in db
  }

  /** Every block above genesis adds difficulty. */
  ghost predicate PositiveDifficulty(db: Store, genesis: Header) {
    forall k :: k in db && db[k] != genesis ==> db[k].difficulty > 0
  }

  /** No block as heavy as the head has a lower number. */
  ghost predicate Lowest(tds: HeaderChain.Tds, head: Header) {
    KeyOf(head) in tds && forall k :: k in tds && tds[k] == tds[KeyOf(head)] ==> head.number <= k.number
  }

  /** The numbering names the chain of head, up to head, and the index lists just the transactions of that chain. */
  ghost predicate Leads(db: Store, head: Header, canon: map<int, Hash>, lookup: Lookup) {
    && Keyed(db) && Canonical(db, head, canon) && CanonStored(db, canon)
    && IndexExact(db, head, lookup) && OncePerChain(db, head)
  }

  class Chain {
    const genesis: Header
    ghost const headerOf: Hash -> Header
    var blocks: Store
    var tds: HeaderChain.Tds
    var canon: map<int, Hash>
    var lookup: Lookup
    var current: Header
    var headHeader: Header
    var fastBlock: Header

    /** The stored blocks form a tree in which a hash stands for one block. */
    ghost predicate Tree()
      reads this
    {
      && Rooted(blocks, genesis) && HeaderChain.Known(blocks, headerOf) && PositiveDifficulty(blocks, genesis)
      && HeaderChain.Summed(blocks, genesis, tds)
    }

    ghost predicate Valid()
      reads this
    {
      && Tree() && Stored(blocks, current) && HeaderChain.Heaviest(tds, current) && Lowest(tds, current)
      && Leads(blocks, current, canon, lookup)
      && headHeader == current && fastBlock == current
    }

    constructor (genesis: Header, ghost headerOf: Hash -> Header)
      requires genesis.number == 0 && headerOf(genesis.hash) == genesis
      ensures Valid() && current == genesis && this.genesis == genesis && this.headerOf == headerOf
      ensures blocks == map[KeyOf(genesis) := genesis] && lookup == map[]
    {
      this.genesis, this.headerOf := genesis, headerOf;
      blocks := map[KeyOf(genesis) := genesis];
      tds := map[KeyOf(genesis) := genesis.difficulty];
      canon, lookup := map[0 := genesis.hash], map[];
      current, headHeader, fastBlock := genesis, genesis, genesis;
    }

    /** Makes a block the head and names it in the numbering; the header and fast-sync heads follow
        unless the numbering named it already. */
    method Insert(block: Header)
      modifies this`canon, this`current, this`headHeader, this`fastBlock
      ensures canon == old(canon)[block.number := block.hash] && current == block
      ensures block.number in old(canon) && old(canon)[block.number] == block.hash ==>
                headHeader == old(headHeader) && fastBlock == old(fastBlock)
      ensures !(block.number in old(canon) && old(canon)[block.number] == block.hash) ==>
                headHeader == block && fastBlock == block
    {
      var updateHeads := !(block.number in canon && canon[block.number] == block.hash);
      canon := canon[block.number := block.hash];
      current := block;
      if updateHeads {
        headHeader, fastBlock := block, block;
      }
    }

    /** Inserts the blocks of a branch lowest first, writing their index entries. */
    method InsertBranch(top: Header, chain: seq<Header>, ghost n: int) returns (added: seq<TxHash>)
      requires Keyed(blocks) && 0 <= n && Segment(blocks, top, n, chain) && |chain| > 0
      modifies this`canon, this`lookup, this`current, this`headHeader, this`fastBlock
      ensures current == top && BranchIndexed(blocks, top, n, top.number, old(lookup), lookup)
      ensures NumberedAbove(blocks, top, n, top.number, old(canon), canon)
      ensures forall tx :: tx in added <==> CarriedBetween(blocks, top, n, top.number, tx)
      ensures !(top.number in old(canon) && old(canon)[top.number] == top.hash) ==>
                headHeader == top && fastBlock == top
    {
      hide Ancestor, BranchIndexed, CarriedBetween, Segment;
      added := [];
      BranchIndexedStart(blocks, top, n, lookup);
      SegmentLength(blocks, top, n, chain);
      var i := |chain| - 1;
      while i >= 0
        invariant -1 <= i < |chain| && n <= top.number - i - 1 <= top.number
        invariant BranchIndexed(blocks, top, n, top.number - i - 1, old(lookup), lookup)
        invariant NumberedAbove(blocks, top, n, top.number - i - 1, old(canon), canon)
        invariant forall tx :: tx in added <==> CarriedBetween(blocks, top, n, top.number - i - 1, tx)
        invariant i == -1 ==> current == top
        invariant i == -1 && !(top.number in old(canon) && old(canon)[top.number] == top.hash) ==>
                    headHeader == top && fastBlock == top
      {
        ghost var m := top.number - i - 1;
        var b := chain[i];
        SegmentAt(blocks, top, n, chain, i);
        ghost var mid := lookup;
        Insert(b);
        lookup := WriteTxLookupEntries(lookup, b);
        BranchIndexedStep(blocks, top, n, m, b, old(lookup), mid, lookup);
        forall tx
          ensures tx in added + b.txs <==> CarriedBetween(blocks, top, n, m + 1, tx)
        {
          CarriedStep(blocks, top, n, m, b, tx);
        }
        added := added + b.txs;
        i := i - 1;
      }
    }

    /** Moves the canonical chain from the old head to a new block whose parents are stored.  An unrooted
        pair of chains is refused before anything is changed. */
    method Reorg(oldBlock: Header, newBlock: Header) returns (ok: bool, ghost n: int)
      requires Grounded(blocks) && oldBlock.number >= 0 && newBlock.number >= 0
      modifies this`canon, this`lookup, this`current, this`headHeader, this`fastBlock
      ensures !ok ==> canon == old(canon) && lookup == old(lookup)
      ensures !ok ==> current == old(current) && headHeader == old(headHeader) && fastBlock == old(fastBlock)
      ensures ok <==> exists k :: Meet(blocks, oldBlock, newBlock, k)
      ensures ok ==> Highest(blocks, oldBlock, newBlock, n) && 0 <= n <= newBlock.number && n <= oldBlock.number
      ensures ok ==> NumberedAbove(blocks, newBlock, n, newBlock.number, old(canon), canon)
      ensures ok ==> Reindexed(blocks, oldBlock, newBlock, n, old(lookup), lookup)
      ensures ok && n < newBlock.number ==> current == newBlock
      ensures ok && n == newBlock.number ==>
                current == old(current) && headHeader == old(headHeader) && fastBlock == old(fastBlock)
      ensures ok && n < newBlock.number
                && !(newBlock.number in old(canon) && old(canon)[newBlock.number] == newBlock.hash) ==>
                headHeader == newBlock && fastBlock == newBlock
    {
      hide Ancestor, BranchIndexed, CarriedBetween, Segment, BranchTxs, Picks;
      n := 0;
      var common, deletedTxs, newChain := Split(blocks, oldBlock, newBlock);
      if common.None? { return false, 0; }
      n := common.value.number;
      MeetNumbers(blocks, oldBlock, newBlock, n);
      SegmentLength(blocks, newBlock, n, newChain);
      var addedTxs := [];
      ghost var before := lookup;
      BranchIndexedStart(blocks, newBlock, n, lookup);
      if |newChain| > 0 {
        addedTxs := InsertBranch(newBlock, newChain, n);
      }
      ghost var mid := lookup;
      var diff, at := TxDifference(deletedTxs, addedTxs);
      lookup := DeleteTxLookupEntries(lookup, diff);
      ReindexedIs(blocks, oldBlock, newBlock, n, before, mid, lookup, deletedTxs, addedTxs, diff);
      return true, n;
    }

    /** Re-routes the canonical chain and the index to a block whose parent is stored.  The block itself
        need not be stored yet.  In a rooted tree this is never refused. */
    method Adopt(block: Header) returns (ok: bool)
      requires Valid() && Candidate(blocks, headerOf, block) && OncePerChain(blocks, block)
      requires block.number in canon && canon[block.number] == block.hash ==> block == current
      modifies this`canon, this`lookup, this`current, this`headHeader, this`fastBlock
      ensures ok && Keyed(blocks) && HeaderChain.Names(blocks, block, canon, 0, block.number)
      ensures CanonStored(blocks[KeyOf(block) := block], canon) && IndexExact(blocks, block, lookup)
      ensures block.number in canon && canon[block.number] == block.hash ==> headHeader == block && fastBlock == block
    {
      hide HeaderChain.Summed, HeaderChain.Heaviest, Lowest, HeaderChain.Names, Ancestor, IndexExact, OncePerChain,
          NumberedAbove, Reindexed, Canonical, CanonStored, Rooted;
      CandidateFacts(blocks, genesis, headerOf, current, block);
      ok := true;
      if block.parent != current.hash {
        ghost var n;
        ghost var cur, before, numbered := current, lookup, canon;
        ok, n := Reorg(current, block);
        SharedBelow(blocks, genesis, headerOf, cur, block, n);
        ReorgIndex(blocks, cur, block, n, before, lookup);
        ReorgNumbering(blocks, genesis, headerOf, cur, block, n, numbered, canon);
      } else {
        DirectNumbering(blocks, genesis, headerOf, current, block, canon);
      }
      if ok {
        ghost var mid := lookup;
        lookup := WriteTxLookupEntries(lookup, block);
        if old(current).hash == block.parent {
          DirectIndex(blocks, genesis, headerOf, old(current), block, mid, lookup);
        } else {
          RewriteIndex(blocks, block, mid, lookup);
        }
      }
    }

    /** Makes a block whose parent is stored the head of the canonical chain. */
    method MakeHead(block: Header) returns (ok: bool)
      requires Valid() && Candidate(blocks, headerOf, block) && OncePerChain(blocks, block)
      requires KeyOf(block) in blocks ==> blocks[KeyOf(block)] == block
      requires block.number in canon && canon[block.number] == block.hash ==> block == current
      modifies this`canon, this`lookup, this`current, this`headHeader, this`fastBlock
      ensures ok && Leads(blocks[KeyOf(block) := block], block, canon, lookup)
      ensures current == block && headHeader == block && fastBlock == block
    {
      hide HeaderChain.Summed, HeaderChain.Heaviest, Lowest, HeaderChain.Names, HeaderChain.Known, PositiveDifficulty,
          Ancestor, IndexExact, OncePerChain, Canonical, CanonStored, Rooted;
      CandidateFacts(blocks, genesis, headerOf, current, block);
      ok := Adopt(block);
      ghost var named := canon;
      if ok {
        Insert(block);
      }
      ExtendedHead(blocks, genesis, block, named, canon, lookup);
    }

    /** Writes a block and its total difficulty, and makes it the head when it is heavier, or as heavy
        and lower, or as heavy and as high and the coin says so. */
    method WriteBlockWithState(block: Header, coin: bool) returns (status: Status)
      requires Valid() && headerOf(block.hash) == block && block.difficulty > 0
      requires Keyed(blocks) && OncePerChain(blocks, block)
      modifies this
      ensures Valid() && status != InvalidChain
      ensures status == UnknownAncestor <==> Key(block.number - 1, block.parent) !in old(blocks)
      ensures status == UnknownAncestor ==> blocks == old(blocks) && lookup == old(lookup) && canon == old(canon)
      ensures status == UnknownAncestor ==> tds == old(tds)
      ensures status != UnknownAncestor ==> blocks == old(blocks)[KeyOf(block) := block] && KeyOf(block) in tds
      ensures status != UnknownAncestor ==>
                var parent := Key(block.number - 1, block.parent);
                parent in old(tds) && tds == old(tds)[KeyOf(block) := block.difficulty + old(tds)[parent]]
      ensures status != UnknownAncestor && tds[KeyOf(block)] > old(tds[KeyOf(current)]) ==> status == Canon
      ensures status != UnknownAncestor && tds[KeyOf(block)] < old(tds[KeyOf(current)]) ==> status == Side
      ensures status != UnknownAncestor && tds[KeyOf(block)] == old(tds[KeyOf(current)]) ==>
                && (block.number < old(current).number ==> status == Canon)
                && (block.number > old(current).number ==> status == Side)
                && (block.number == old(current).number ==> (status == Canon <==> coin))
      ensures current == if status == Canon then block else old(current)
    {
      hide HeaderChain.Summed, HeaderChain.Names, Ancestor, IndexExact, OncePerChain, Canonical, CanonStored, Rooted,
          HeaderChain.Known, PositiveDifficulty, Lowest, HeaderChain.Heaviest;
      HeaderChain.SummedKeys(blocks, genesis, tds);
      if Key(block.number - 1, block.parent) !in tds { return UnknownAncestor; }
      var externTd := block.difficulty + tds[Key(block.number - 1, block.parent)];
      var localTd := tds[KeyOf(current)];
      CandidateTree(blocks, genesis, headerOf, tds, block);
      HeaderChain.HeavierHead(tds, current, block, externTd);
      LowestHead(tds, current, block, externTd);
      var reorg := externTd > localTd;
      if !reorg && externTd == localTd {
        reorg := block.number < current.number || (block.number == current.number && coin);
      }
      if reorg {
        HeadsFollow(blocks, genesis, headerOf, tds, current, block, canon);
        var ok := MakeHead(block);
        status := if ok then Canon else InvalidChain;
      } else {
        ExtendedOther(blocks, genesis, current, block, canon, lookup);
        status := Side;
      }
      tds := tds[KeyOf(block) := externTd];
      blocks := blocks[KeyOf(block) := block];
    }

    /** Writes a competing block lighter than the head without touching the canonical chain. */
    method WriteBlockWithoutState(block: Header, td: int)
      requires Valid() && Candidate(blocks, headerOf, block)
      requires Key(block.number - 1, block.parent) in tds
      requires td == block.difficulty + tds[Key(block.number - 1, block.parent)]
      requires KeyOf(current) in tds && td < tds[KeyOf(current)]
      modifies this`blocks, this`tds
      ensures Valid() && blocks == old(blocks)[KeyOf(block) := block] && tds == old(tds)[KeyOf(block) := td]
    {
      hide HeaderChain.Summed, HeaderChain.Names, Ancestor, IndexExact, OncePerChain, Canonical, CanonStored, Rooted,
          HeaderChain.Known, PositiveDifficulty, Lowest;
      CandidateTree(blocks, genesis, headerOf, tds, block);
      HeaderChain.HeavierHead(tds, current, block, td);
      LowestHead(tds, current, block, td);
      ExtendedOther(blocks, genesis, current, block, canon, lookup);
      tds := tds[KeyOf(block) := td];
      blocks := blocks[KeyOf(block) := block];
    }

    ghost function View(): View
      reads this
    {
      Seen(blocks, tds, current)
    }

    /** Writes one block. */
    method Handle(e: Event)
      requires Valid() && Acceptable(e.block, headerOf)
      modifies this
      ensures Valid() && Written(e, old(View()), View())
    {
      hide Valid, Acceptable, HeaderChain.Heaviest, HeaderChain.Summed, Lowest;
      var block := e.block;
      AcceptableNow(this, block);
      HeadWeighed(this);
      match e
      case Processed(_, coin) =>
        var status := WriteBlockWithState(block, coin);
      case Unprocessed(_) =>
        var parent := Key(block.number - 1, block.parent);
        if parent in tds && tds[KeyOf(current)] > block.difficulty + tds[parent] {
          WriteBlockWithoutState(block, block.difficulty + tds[parent]);
        }
    }

    /** Every run of block writes, whatever the coins say, keeps the numbering equal to the chain of the
        head, the index equal to the transactions of that chain and the head the lowest of the heaviest blocks. */
    method Run(events: seq<Event>) returns (ghost log: seq<View>)
      requires Valid() && forall i :: 0 <= i < |events| ==> Acceptable(events[i].block, headerOf)
      modifies this
      ensures Valid() && |log| == |events| + 1 && log[0] == old(View()) && log[|events|] == View()
      ensures forall i :: 0 <= i < |events| ==> Written(events[i], log[i], log[i + 1])
    {
      hide Valid, Acceptable, Written, View;
      log := [View()];
      for n := 0 to |events|
        invariant Valid() && |log| == n + 1 && log[0] == old(View()) && log[n] == View()
        invariant forall i :: 0 <= i < n ==> Written(events[i], log[i], log[i + 1])
      {
        Handle(events[n]);
        log := log + [View()];
      }
    }
  }

  /** The stored blocks, their total difficulties and the head. */
  datatype View = Seen(blocks: Store, tds: HeaderChain.Tds, head: Header)

  /** A block whose parent has no total difficulty is left out.  Otherwise its total difficulty is that of its
      parent and its own; one with its state becomes the head if it is heavier, or as heavy and lower or, by the
      coin, as high; one without is kept if it is lighter than the head. */
  ghost predicate Written(e: Event, v: View, w: View) {
    var b := e.block;
    var parent := Key(b.number - 1, b.parent);
    KeyOf(v.head) in v.tds
    && if parent !in v.tds then w == v
       else
         var td, best := b.difficulty + v.tds[parent], v.tds[KeyOf(v.head)];
         var stored := v.(blocks := v.blocks[KeyOf(b) := b], tds := v.tds[KeyOf(b) := td]);
         match e
         case Processed(_, coin) =>
           var wins := td > best
                       || (td == best && (b.number < v.head.number || (b.number == v.head.number && coin)));
           w == if wins then stored.(head := b) else stored
         case Unprocessed(_) => w == if td < best then stored else v
  }

  lemma HeadWeighed(c: Chain)
    requires c.Valid()
    ensures KeyOf(c.current) in c.tds && c.tds.Keys == c.blocks.Keys
  {
    HeaderChain.SummedKeys(c.blocks, c.genesis, c.tds);
  }

  /** A block with its state is written and may become the head; one whose ancestors have no state is
      kept aside while it is lighter than the head. */
  datatype Event = Processed(block: Header, coin: bool) | Unprocessed(block: Header)

  /** The header of the block passed verification against its parent, at some time and with its seal checked. */
  ghost predicate Verified(block: Header, headerOf: Hash -> Header) {
    exists latest, sealed :: HeaderRules.VerifyHeader(block, headerOf(block.parent), false, true, latest, sealed).None?
  }

  /** A verified block that repeats no transaction of its own chain. */
  ghost predicate Acceptable(block: Header, headerOf: Hash -> Header) {
    && headerOf(block.hash) == block && Verified(block, headerOf)
    && forall db: Store :: Keyed(db) && HeaderChain.Known(db, headerOf) ==> OncePerChain(db, block)
  }

  lemma AcceptableNow(c: Chain, block: Header)
    requires c.Valid() && Acceptable(block, c.headerOf)
    ensures c.headerOf(block.hash) == block && block.difficulty > 0
    ensures Keyed(c.blocks) && OncePerChain(c.blocks, block) && c.tds.Keys == c.blocks.Keys && KeyOf(c.current) in c.tds
  {
    HeaderChain.SummedKeys(c.blocks, c.genesis, c.tds);
    VerifiedPositive(block, c.headerOf);
    hide Lowest, HeaderChain.Summed, Canonical, CanonStored, IndexExact, Rooted, PositiveDifficulty, Verified;
  }

  lemma VerifiedPositive(block: Header, headerOf: Hash -> Header)
    requires Verified(block, headerOf)
    ensures block.difficulty > 0
  {
    hide HeaderRules.VerifyHeader;
    var latest, sealed :| HeaderRules.VerifyHeader(block, headerOf(block.parent), false, true, latest, sealed).None?;
    HeaderRules.VerifiedAddsDifficulty(block, headerOf(block.parent), false, true, latest, sealed);
  }

  lemma LowestHead(tds: HeaderChain.Tds, current: Header, block: Header, td: int)
    requires HeaderChain.Heaviest(tds, current) && Lowest(tds, current)
    requires KeyOf(block) in tds ==> tds[KeyOf(block)] == td
    ensures td > tds[KeyOf(current)] ==> Lowest(tds[KeyOf(block) := td], block)
    ensures td == tds[KeyOf(current)] && block.number <= current.number ==> Lowest(tds[KeyOf(block) := td], block)
    ensures td < tds[KeyOf(current)] ==> Lowest(tds[KeyOf(block) := td], current)
    ensures td == tds[KeyOf(current)] && block.number >= current.number ==> Lowest(tds[KeyOf(block) := td], current)
  {
  }

  /** A block on top of a stored one, adding difficulty, and the only one with its hash. */
  ghost predicate Candidate(db: Store, headerOf: Hash -> Header, block: Header) {
    headerOf(block.hash) == block && HasParent(db, block) && block.difficulty > 0
  }

  // ---------- facts about a candidate head ----------

  /** The chain of a candidate reaches genesis, so it meets every stored chain. */
  lemma CandidateFacts(db: Store, genesis: Header, headerOf: Hash -> Header, current: Header, block: Header)
    requires Rooted(db, genesis) && Stored(db, current) && Candidate(db, headerOf, block)
    requires HeaderChain.Known(db, headerOf)
    ensures Grounded(db) && block.number > 0 && current.number >= 0
    ensures Meet(db, current, block, 0)
    ensures block.parent == current.hash ==> block.number == current.number + 1
  {
    StoredNumber(db, genesis, current);
    var p := db[Key(block.number - 1, block.parent)];
    StoredNumber(db, genesis, p);
    RootedAncestor(db, genesis, current, 0);
    RootedAncestor(db, genesis, p, 0);
    assert headerOf(current.hash) == current;
  }

  lemma CandidateAncestor(db: Store, genesis: Header, block: Header, k: int)
    requires Rooted(db, genesis) && HasParent(db, block) && 0 <= k <= block.number && block.number > 0
    ensures Ancestor(db, block, k).Some? && Ancestor(db, block, k).value.number == k
    ensures k < block.number ==> Stored(db, Ancestor(db, block, k).value)
    ensures k == block.number ==> Ancestor(db, block, k).value == block
  {
    RootedKeyed(db, genesis);
    hide Rooted;
    if k < block.number {
      RootedAncestor(db, genesis, db[Key(block.number - 1, block.parent)], k);
    }
  }

  /** Below the meeting point the two chains are one. */
  lemma SharedBelow(db: Store, genesis: Header, headerOf: Hash -> Header, current: Header, block: Header, n: int)
    requires Rooted(db, genesis) && Stored(db, current) && Candidate(db, headerOf, block)
    requires HeaderChain.Known(db, headerOf)
    requires Meet(db, current, block, n) && 0 <= n <= current.number && n <= block.number && block.number > 0
    ensures forall k :: 0 <= k <= n ==> Ancestor(db, current, k) == Ancestor(db, block, k)
  {
    RootedAncestor(db, genesis, current, n);
    CandidateAncestor(db, genesis, block, n);
    assert headerOf(Ancestor(db, current, n).value.hash) == Ancestor(db, current, n).value;
    assert headerOf(Ancestor(db, block, n).value.hash) == Ancestor(db, block, n).value;
    forall k | 0 <= k <= n
      ensures Ancestor(db, current, k) == Ancestor(db, block, k)
    {
      AncestorChain(db, current, n, k);
      AncestorChain(db, block, n, k);
    }
  }

  lemma ReorgIndex(db: Store, cur: Header, block: Header, n: int, before: Lookup, after: Lookup)
    requires Keyed(db) && 0 <= n <= cur.number && n <= block.number
    requires forall k :: 0 <= k <= n ==> Ancestor(db, cur, k) == Ancestor(db, block, k)
    requires IndexExact(db, cur, before) && OncePerChain(db, cur) && OncePerChain(db, block)
    requires Reindexed(db, cur, block, n, before, after)
    ensures IndexExact(db, block, after)
  {
    hide Ancestor, IndexExact, OncePerChain, BranchIndexed, OnBranch, CarriedBetween;
    var mid: Lookup :| BranchIndexed(db, block, n, block.number, before, mid)
      && (forall tx :: tx in after <==>
          tx in mid && !(OnBranch(db, cur, n, tx) && !CarriedBetween(db, block, n, block.number, tx)))
      && (forall tx :: tx in after ==> after[tx] == mid[tx]);
    ReindexExact(db, cur, block, n, before, mid, after);
  }

  /** Writing the entries of the head again changes nothing that matters. */
  lemma RewriteIndex(db: Store, block: Header, before: Lookup, after: Lookup)
    requires Keyed(db) && block.number > 0 && IndexExact(db, block, before) && OncePerChain(db, block)
    requires EntriesWritten(before, after, block)
    ensures IndexExact(db, block, after)
  {
    assert Ancestor(db, block, block.number) == Some(block);
    hide Ancestor;
    forall tx, e
      ensures (tx in after && after[tx] == e) <==> Locates(db, block, tx, e)
    {
      if tx in block.txs {
        assert Locates(db, block, tx, after[tx]);
      } else {
        assert (tx in before && before[tx] == e) <==> Locates(db, block, tx, e);
      }
    }
  }

  /** Extending the head by a child adds just the entries of the child. */
  lemma DirectIndex(db: Store, genesis: Header, headerOf: Hash -> Header, cur: Header, block: Header, before: Lookup,
      after: Lookup)
    requires Rooted(db, genesis) && Stored(db, cur) && Candidate(db, headerOf, block) && HeaderChain.Known(db, headerOf)
    requires block.parent == cur.hash && block.number == cur.number + 1 && cur.number >= 0
    requires IndexExact(db, cur, before) && OncePerChain(db, cur) && OncePerChain(db, block)
    requires EntriesWritten(before, after, block)
    ensures IndexExact(db, block, after)
  {
    ChildAncestors(db, genesis, headerOf, cur, block);
    BranchIndexedStart(db, block, cur.number, before);
    BranchIndexedStep(db, block, cur.number, cur.number, block, before, before, after);
    forall tx
      ensures !OnBranch(db, cur, cur.number, tx)
    {
      BranchMember(db, cur, cur.number, tx);
    }
    ReindexExact(db, cur, block, cur.number, before, after, after);
  }

  lemma ChildAncestors(db: Store, genesis: Header, headerOf: Hash -> Header, cur: Header, block: Header)
    requires Rooted(db, genesis) && Stored(db, cur) && Candidate(db, headerOf, block) && HeaderChain.Known(db, headerOf)
    requires block.parent == cur.hash && block.number == cur.number + 1
    ensures forall k :: k <= cur.number ==> Ancestor(db, cur, k) == Ancestor(db, block, k)
    ensures Ancestor(db, block, block.number) == Some(block)
  {
    assert Get(db, block.parent, block.number - 1) == Some(cur);
  }

  lemma DirectNumbering(db: Store, genesis: Header, headerOf: Hash -> Header, cur: Header, block: Header,
      canon: map<int, Hash>)
    requires Rooted(db, genesis) && Stored(db, cur) && Candidate(db, headerOf, block) && HeaderChain.Known(db, headerOf)
    requires block.parent == cur.hash && block.number == cur.number + 1 && Canonical(db, cur, canon)
    requires CanonStored(db, canon)
    ensures HeaderChain.Names(db, block, canon, 0, block.number) && CanonStored(db[KeyOf(block) := block], canon)
  {
    ChildAncestors(db, genesis, headerOf, cur, block);
  }

  lemma ReorgNumbering(db: Store, genesis: Header, headerOf: Hash -> Header, cur: Header, block: Header, n: int,
      before: map<int, Hash>, after: map<int, Hash>)
    requires Rooted(db, genesis) && Stored(db, cur) && Candidate(db, headerOf, block) && block.number > 0
    requires Highest(db, cur, block, n) && 0 <= n <= cur.number && n <= block.number
    requires forall k :: 0 <= k <= n ==> Ancestor(db, cur, k) == Ancestor(db, block, k)
    requires Canonical(db, cur, before) && CanonStored(db, before)
    requires NumberedAbove(db, block, n, block.number, before, after)
    ensures HeaderChain.Names(db, block, after, 0, block.number) && CanonStored(db[KeyOf(block) := block], after)
    ensures n == block.number ==> block.number in before && before[block.number] == block.hash
    ensures block == cur ==> n == block.number
  {
    forall k | 0 <= k <= block.number
      ensures Ancestor(db, block, k).Some? && Ancestor(db, block, k).value.number == k
      ensures Key(k, Ancestor(db, block, k).value.hash) in db[KeyOf(block) := block]
    {
      CandidateAncestor(db, genesis, block, k);
    }
    if block == cur {
      assert Meet(db, cur, block, block.number);
    }
  }

  /** Storing a candidate keeps the tree. */
  lemma CandidateTree(db: Store, genesis: Header, headerOf: Hash -> Header, tds: HeaderChain.Tds, block: Header)
    requires Rooted(db, genesis) && HeaderChain.Known(db, headerOf) && PositiveDifficulty(db, genesis)
    requires HeaderChain.Summed(db, genesis, tds)
    requires headerOf(block.hash) == block && block.difficulty > 0 && Key(block.number - 1, block.parent) in tds
    ensures block.number > 0 && Candidate(db, headerOf, block) && (KeyOf(block) in db ==> db[KeyOf(block)] == block)
    ensures var more, td := db[KeyOf(block) := block], block.difficulty + tds[Key(block.number - 1, block.parent)];
            && Rooted(more, genesis) && HeaderChain.Known(more, headerOf) && PositiveDifficulty(more, genesis)
            && HeaderChain.Summed(more, genesis, tds[KeyOf(block) := td])
            && (KeyOf(block) in tds ==> tds[KeyOf(block)] == td)
  {
    var more := db[KeyOf(block) := block];
    var p := db[Key(block.number - 1, block.parent)];
    assert HasParent(db, block);
    assert KeyOf(block) in db ==> db[KeyOf(block)] == headerOf(block.hash);
    RootedExtend(db, genesis, block);
    forall k | k in db
      ensures Stored(more, db[k]) && PathTd(more, genesis, db[k]) == PathTd(db, genesis, db[k])
    {
      PathTdExtends(db, more, genesis, db[k]);
    }
    assert Stored(more, block) && PathTd(more, genesis, block) == block.difficulty + PathTd(more, genesis, p);
    if KeyOf(block) in tds {
      assert Stored(db, block) && PathTd(db, genesis, block) == block.difficulty + PathTd(db, genesis, p);
    }
  }

  /** Along a chain total difficulty grows strictly. */
  lemma {:induction false} PathTdGrows(db: Store, genesis: Header, h: Header, n: int)
    requires Rooted(db, genesis) && PositiveDifficulty(db, genesis) && Stored(db, h) && 0 <= n < h.number
    ensures Ancestor(db, h, n).Some? && Stored(db, Ancestor(db, h, n).value)
    ensures PathTd(db, genesis, Ancestor(db, h, n).value) < PathTd(db, genesis, h)
    decreases h.number
  {
    RootedAncestor(db, genesis, h, n);
    assert HasParent(db, h);
    var p := db[Key(h.number - 1, h.parent)];
    if n < p.number {
      PathTdGrows(db, genesis, p, n);
    }
  }

  /** A winning block is not named in the numbering yet, unless it is the head itself. */
  lemma HeadsFollow(db: Store, genesis: Header, headerOf: Hash -> Header, tds: HeaderChain.Tds, current: Header,
      block: Header, canon: map<int, Hash>)
    requires Rooted(db, genesis) && HeaderChain.Known(db, headerOf) && PositiveDifficulty(db, genesis)
    requires HeaderChain.Summed(db, genesis, tds)
    requires Stored(db, current) && HeaderChain.Heaviest(tds, current) && Canonical(db, current, canon)
    requires CanonStored(db, canon)
    requires Candidate(db, headerOf, block) && block.number > 0 && Key(block.number - 1, block.parent) in tds
    requires KeyOf(block) in tds ==> tds[KeyOf(block)] == block.difficulty + tds[Key(block.number - 1, block.parent)]
    requires var td := block.difficulty + tds[Key(block.number - 1, block.parent)];
             td > tds[KeyOf(current)] || (td == tds[KeyOf(current)] && block.number <= current.number)
    ensures block.number in canon && canon[block.number] == block.hash ==> block == current
  {
    if block.number in canon && canon[block.number] == block.hash {
      assert db[KeyOf(block)] == headerOf(block.hash) == block;
      assert block.number <= current.number;
      RootedAncestor(db, genesis, current, block.number);
      var a := Ancestor(db, current, block.number).value;
      assert headerOf(a.hash) == a;
      if block.number < current.number {
        PathTdGrows(db, genesis, current, block.number);
      }
    }
  }

  lemma ExtendedLocates(db: Store, genesis: Header, block: Header, h: Header, tx: TxHash, e: Entry)
    requires Rooted(db, genesis) && Rooted(db[KeyOf(block) := block], genesis) && Extends(db, db[KeyOf(block) := block])
    requires h.number >= 0 && (Stored(db, h) || (h.number > 0 && HasParent(db, h)))
    ensures Locates(db, h, tx, e) <==> Locates(db[KeyOf(block) := block], h, tx, e)
  {
    var more := db[KeyOf(block) := block];
    if 0 < e.number <= h.number {
      if Stored(db, h) {
        RootedAncestor(db, genesis, h, e.number);
      } else {
        CandidateAncestor(db, genesis, h, e.number);
      }
      AncestorExtends(db, more, h, e.number);
    } else if e.number > h.number {
      AncestorNumber(db, h, e.number);
      AncestorNumber(more, h, e.number);
    }
  }

  lemma ExtendedIndex(db: Store, genesis: Header, block: Header, h: Header, lookup: Lookup)
    requires Rooted(db, genesis) && Rooted(db[KeyOf(block) := block], genesis) && Extends(db, db[KeyOf(block) := block])
    requires h.number >= 0 && (Stored(db, h) || (h.number > 0 && HasParent(db, h)))
    requires IndexExact(db, h, lookup) && OncePerChain(db, h)
    ensures IndexExact(db[KeyOf(block) := block], h, lookup) && OncePerChain(db[KeyOf(block) := block], h)
  {
    hide Locates, Ancestor, Rooted, Extends;
    var more := db[KeyOf(block) := block];
    RootedKeyed(db, genesis);
    RootedKeyed(more, genesis);
    forall tx, e
      ensures Locates(more, h, tx, e) <==> Locates(db, h, tx, e)
    {
      ExtendedLocates(db, genesis, block, h, tx, e);
    }
    forall tx, e
      ensures (tx in lookup && lookup[tx] == e) <==> Locates(more, h, tx, e)
    {
      assert (tx in lookup && lookup[tx] == e) <==> Locates(db, h, tx, e);
    }
    assert IndexExact(more, h, lookup);
    forall tx, e, f | Locates(more, h, tx, e) && Locates(more, h, tx, f)
      ensures e == f
    {
      assert Locates(db, h, tx, e) && Locates(db, h, tx, f);
    }
  }

  lemma ExtendedHead(db: Store, genesis: Header, block: Header, named: map<int, Hash>, canon: map<int, Hash>,
      lookup: Lookup)
    requires Rooted(db, genesis) && HasParent(db, block) && block.number > 0
    requires KeyOf(block) in db ==> db[KeyOf(block)] == block
    requires canon == named[block.number := block.hash] && HeaderChain.Names(db, block, named, 0, block.number)
    requires CanonStored(db[KeyOf(block) := block], named) && IndexExact(db, block, lookup) && OncePerChain(db, block)
    ensures Leads(db[KeyOf(block) := block], block, canon, lookup)
  {
    var more := db[KeyOf(block) := block];
    RootedExtend(db, genesis, block);
    ExtendedIndex(db, genesis, block, block, lookup);
    assert Ancestor(more, block, block.number) == Some(block);
    forall k | 0 <= k < block.number
      ensures Ancestor(more, block, k) == Ancestor(db, block, k)
    {
      CandidateAncestor(db, genesis, block, k);
      AncestorExtends(db, more, block, k);
    }
  }

  lemma ExtendedOther(db: Store, genesis: Header, current: Header, block: Header, canon: map<int, Hash>, lookup: Lookup)
    requires Rooted(db, genesis) && HasParent(db, block) && block.number > 0
    requires KeyOf(block) in db ==> db[KeyOf(block)] == block
    requires Stored(db, current) && Leads(db, current, canon, lookup)
    ensures Leads(db[KeyOf(block) := block], current, canon, lookup)
  {
    RootedExtend(db, genesis, block);
    StoredNumber(db, genesis, current);
    ExtendedIndex(db, genesis, block, current, lookup);
    CanonicalExtends(db, db[KeyOf(block) := block], current, canon);
  }

  /** The numbering with the blocks of top in (n, m] named and the rest as before. */
  ghost predicate NumberedAbove(db: Store, top: Header, n: int, m: int, before: map<int, Hash>, after: map<int, Hash>)
    requires Keyed(db)
  {
    && (forall k :: n < k <= m ==>
        k in after && Ancestor(db, top, k).Some? && after[k] == Ancestor(db, top, k).value.hash)
    && (forall k :: !(n < k <= m) ==> (k in after <==> k in before) && (k in before ==> after[k] == before[k]))
  }

  /** The index after a reorganisation that branches off above n. */
  ghost predicate Reindexed(db: Store, cur: Header, head: Header, n: int, before: Lookup, after: Lookup)
    requires Keyed(db)
  {
    exists mid: Lookup {:trigger BranchIndexed(db, head, n, head.number, before, mid)} ::
      && BranchIndexed(db, head, n, head.number, before, mid)
      && (forall tx :: tx in after <==>
          tx in mid && !(OnBranch(db, cur, n, tx) && !CarriedBetween(db, head, n, head.number, tx)))
      && (forall tx :: tx in after ==> after[tx] == mid[tx])
  }

  lemma ReindexedIs(db: Store, cur: Header, head: Header, n: int, before: Lookup, mid: Lookup, after: Lookup,
      deleted: seq<TxHash>, added: seq<TxHash>, diff: seq<TxHash>)
    requires Keyed(db) && BranchIndexed(db, head, n, head.number, before, mid)
    requires deleted == BranchTxs(db, cur, n)
    requires forall tx :: tx in added <==> CarriedBetween(db, head, n, head.number, tx)
    requires forall tx :: tx in diff <==> tx in deleted && tx !in added
    requires after == map tx | tx in mid && tx !in diff :: mid[tx]
    ensures Reindexed(db, cur, head, n, before, after)
  {
    hide BranchIndexed, CarriedBetween, OnBranch, BranchTxs;
    forall tx
      ensures tx in deleted <==> OnBranch(db, cur, n, tx)
    {
      BranchMember(db, cur, n, tx);
    }
    assert BranchIndexed(db, head, n, head.number, before, mid);
  }

  lemma SegmentLength(db: Store, top: Header, n: int, chain: seq<Header>)
    requires Keyed(db) && Segment(db, top, n, chain)
    ensures |chain| == top.number - n
  {
  }

  lemma SegmentAt(db: Store, top: Header, n: int, chain: seq<Header>, i: int)
    requires Keyed(db) && Segment(db, top, n, chain) && 0 <= i < |chain|
    ensures Ancestor(db, top, top.number - i) == Some(chain[i]) && chain[i].number == top.number - i
    ensures i == 0 ==> chain[i] == top
  {
    AncestorNumber(db, top, top.number - i);
  }

  lemma MeetNumbers(db: Store, a: Header, b: Header, n: int)
    requires Keyed(db) && Meet(db, a, b, n)
    ensures n <= a.number && n <= b.number
  {
    AncestorNumber(db, a, n);
    AncestorNumber(db, b, n);
  }
}
