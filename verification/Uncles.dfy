/** Uncles: the window of seven ancestors a block's uncles are checked against, the uniqueness of
    uncles along a whole chain, and the rewards they mint. */
module Uncles {
  import opened Types
  import opened HeaderRules
  import opened StateDb

  datatype Block = Block(header: Header, uncles: seq<Header>)

  type Store = map<Key, Block>

  datatype Verdict =
    | Valid | TooManyUncles | DuplicateUncle | UncleIsAncestor | DanglingUncle
    | InvalidUncle(error: Error)

  const WINDOW := 7
  const MAX_UNCLES := 2

  ghost predicate Keyed(db: Store) {
    forall k :: k in db ==> db[k].header.number == k.number && db[k].header.hash == k.hash
  }

  // ---------- the window ----------

  /** Up to n stored blocks, starting with the one of this number and hash and following parents. */
  function Window(db: Store, number: int, hash: Hash, n: nat): (w: seq<Block>)
    ensures |w| <= n
    decreases n
  {
    if n == 0 || Key(number, hash) !in db then []
    else
      var b := db[Key(number, hash)];
      [b] + Window(db, number - 1, b.header.parent, n - 1)
  }

  /** The window behind one of its blocks. */
  lemma WindowStep(db: Store, w: seq<Block>, number: int, hash: Hash, n: nat)
    ensures n == 0 || Key(number, hash) !in db ==> w + Window(db, number, hash, n) == w
    ensures n > 0 && Key(number, hash) in db ==>
              var b := db[Key(number, hash)];
              w + Window(db, number, hash, n) == (w + [b]) + Window(db, number - 1, b.header.parent, n - 1)
  {
  }

  /** The blocks an uncle of the block is checked against. */
  function Recent(db: Store, block: Block): seq<Block> {
    Window(db, block.header.number - 1, block.header.parent, WINDOW)
  }

  ghost predicate IncludedIn(w: seq<Block>, hash: Hash) {
    exists i, j :: 0 <= i < |w| && 0 <= j < |w[i].uncles| && w[i].uncles[j].hash == hash
  }

  ghost predicate BlockIn(w: seq<Block>, b: Header) {
    exists i :: 0 <= i < |w| && w[i].header == b
  }

  // ---------- what a valid list of uncles is ----------

  /** Uncle j of the block was not included by a recent ancestor or earlier in the block, is no recent
      block itself, and is a valid child of a recent block other than the parent. */
  ghost predicate UncleValid(db: Store, block: Block, sealed: Header -> bool, j: nat)
    requires j < |block.uncles|
  {
    var u := block.uncles[j];
    && u.hash != block.header.hash && !IncludedIn(Recent(db, block), u.hash)
    && (forall i :: 0 <= i < j ==> block.uncles[i].hash != u.hash)
    && (forall b :: BlockIn(Recent(db, block), b) ==> b.hash != u.hash)
    && u.parent != block.header.parent
    && exists p :: (BlockIn(Recent(db, block), p) || p == block.header) && p.hash == u.parent
        && VerifyHeader(u, p, true, true, 0, sealed(u)).None?
  }

  ghost predicate UnclesValid(db: Store, block: Block, sealed: Header -> bool) {
    |block.uncles| <= MAX_UNCLES && forall j :: 0 <= j < |block.uncles| ==> UncleValid(db, block, sealed, j)
  }

  // ---------- the check ----------

  /** What the walk over the ancestors has gathered: the hashes of included uncles and the ancestors by hash. */
  ghost predicate Gathered(w: seq<Block>, included: set<Hash>, ancestors: map<Hash, Header>) {
    && (forall h :: h in included <==> IncludedIn(w, h))
    && (forall h :: h in ancestors ==> ancestors[h].hash == h && BlockIn(w, ancestors[h]))
    && (forall b :: BlockIn(w, b) ==> b.hash in ancestors)
  }

  method Gather(db: Store, block: Block) returns (included: set<Hash>, ancestors: map<Hash, Header>)
    requires Keyed(db)
    ensures Gathered(Recent(db, block), included, ancestors)
  {
    included, ancestors := {}, map[];
    NothingGathered();
    hide Gathered, Keyed, Window;
    var number, parent := block.header.number - 1, block.header.parent;
    var i := 0;
    ghost var w: seq<Block> := [];
    assert w + Recent(db, block) == Recent(db, block);
    while i < WINDOW
      invariant 0 <= i <= WINDOW && Gathered(w, included, ancestors)
      invariant w + Window(db, number, parent, WINDOW - i) == Recent(db, block)
    {
      if Key(number, parent) !in db { break; }
      var ancestor := db[Key(number, parent)];
      GatherStep(w, ancestor, included, ancestors);
      WindowStep(db, w, number, parent, WINDOW - i);
      ancestors := ancestors[ancestor.header.hash := ancestor.header];
      included := included + (set j | 0 <= j < |ancestor.uncles| :: ancestor.uncles[j].hash);
      w := w + [ancestor];
      parent, number := ancestor.header.parent, number - 1;
      i := i + 1;
    }
    WindowStep(db, w, number, parent, WINDOW - i);
  }

  lemma NothingGathered()
    ensures Gathered([], {}, map[])
  {
  }

  lemma GatherStep(w: seq<Block>, b: Block, included: set<Hash>, ancestors: map<Hash, Header>)
    requires Gathered(w, included, ancestors)
    ensures Gathered(w + [b], included + (set j | 0 <= j < |b.uncles| :: b.uncles[j].hash),
              ancestors[b.header.hash := b.header])
  {
    var more := w + [b];
    var hashes := set j | 0 <= j < |b.uncles| :: b.uncles[j].hash;
    forall h
      ensures IncludedIn(more, h) <==> IncludedIn(w, h) || h in hashes
    {
      if IncludedIn(w, h) {
        var i, j :| 0 <= i < |w| && 0 <= j < |w[i].uncles| && w[i].uncles[j].hash == h;
        assert more[i] == w[i];
      }
      if h in hashes {
        var j :| 0 <= j < |b.uncles| && b.uncles[j].hash == h;
        assert more[|w|].uncles[j].hash == h;
      }
      if IncludedIn(more, h) {
        var i, j :| 0 <= i < |more| && 0 <= j < |more[i].uncles| && more[i].uncles[j].hash == h;
        assert i < |w| ==> more[i] == w[i];
      }
    }
    BlockInStep(w, b);
  }

  lemma BlockInStep(w: seq<Block>, b: Block)
    ensures forall h :: BlockIn(w + [b], h) <==> BlockIn(w, h) || h == b.header
  {
    var more := w + [b];
    assert more[|w|] == b;
    forall h | BlockIn(w, h)
      ensures BlockIn(more, h)
    {
      var i :| 0 <= i < |w| && w[i].header == h;
      assert more[i] == w[i];
    }
  }

  /** A hash stands for one header among the stored blocks. */
  ghost predicate Unmistakable(db: Store, headerOf: Hash -> Header) {
    forall k :: k in db ==> headerOf(k.hash) == db[k].header
  }

  /** Everything gathered, with the block itself counted among both. */
  ghost predicate Ready(db: Store, block: Block, j: nat, included: set<Hash>, ancestors: map<Hash, Header>)
    requires j <= |block.uncles|
  {
    && (forall h :: h in included <==>
          || IncludedIn(Recent(db, block), h) || h == block.header.hash
          || exists i :: 0 <= i < j && block.uncles[i].hash == h)
    && (forall b :: BlockIn(Recent(db, block), b) || b == block.header ==> b.hash in ancestors)
    && (forall h :: h in ancestors ==>
        ancestors[h].hash == h && (BlockIn(Recent(db, block), ancestors[h]) || ancestors[h] == block.header))
  }

  lemma ReadyStart(db: Store, block: Block, included: set<Hash>, ancestors: map<Hash, Header>)
    requires Gathered(Recent(db, block), included, ancestors)
    ensures Ready(db, block, 0, included + {block.header.hash}, ancestors[block.header.hash := block.header])
  {
  }

  /** What the four tests on an uncle decide. */
  lemma Decides(db: Store, block: Block, sealed: Header -> bool, headerOf: Hash -> Header, j: nat,
      included: set<Hash>, ancestors: map<Hash, Header>)
    requires Keyed(db) && Unmistakable(db, headerOf) && headerOf(block.header.hash) == block.header
    requires j < |block.uncles| && Ready(db, block, j, included, ancestors)
    ensures var u := block.uncles[j];
            UncleValid(db, block, sealed, j) <==>
            && u.hash !in included && u.hash !in ancestors && u.parent in ancestors && u.parent != block.header.parent
            && VerifyHeader(u, ancestors[u.parent], true, true, 0, sealed(u)).None?
  {
    hide VerifyHeader, IncludedIn, Window;
    var u := block.uncles[j];
    forall b | BlockIn(Recent(db, block), b)
      ensures headerOf(b.hash) == b
    {
      WindowStored(db, block.header.number - 1, block.header.parent, WINDOW, b);
    }
    if u.hash in ancestors {
      assert ancestors[u.hash].hash == u.hash;
    }
    if UncleValid(db, block, sealed, j) {
      var p :| (BlockIn(Recent(db, block), p) || p == block.header) && p.hash == u.parent
          && VerifyHeader(u, p, true, true, 0, sealed(u)).None?;
      assert ancestors[p.hash] == p;
    }
  }

  lemma {:induction false} WindowStored(db: Store, number: int, hash: Hash, n: nat, b: Header)
    requires Keyed(db) && BlockIn(Window(db, number, hash, n), b)
    ensures Key(b.number, b.hash) in db && db[Key(b.number, b.hash)].header == b
    decreases n
  {
    var w := Window(db, number, hash, n);
    var i :| 0 <= i < |w| && w[i].header == b;
    if i > 0 {
      var first := db[Key(number, hash)];
      var rest := Window(db, number - 1, first.header.parent, n - 1);
      assert rest[i - 1] == w[i];
      WindowStored(db, number - 1, first.header.parent, n - 1, b);
    }
  }

  lemma ReadyStep(db: Store, block: Block, j: nat, included: set<Hash>, ancestors: map<Hash, Header>)
    requires j < |block.uncles| && Ready(db, block, j, included, ancestors)
    ensures Ready(db, block, j + 1, included + {block.uncles[j].hash}, ancestors)
  {
    hide IncludedIn, BlockIn, Window;
  }

  /** Accepts the uncles of a block exactly when each of them is valid; otherwise the first invalid one
      is reported. */
  method VerifyUncles(db: Store, block: Block, sealed: Header -> bool, ghost headerOf: Hash -> Header)
      returns (v: Verdict)
    requires Keyed(db) && Unmistakable(db, headerOf) && headerOf(block.header.hash) == block.header
    ensures v == Valid <==> UnclesValid(db, block, sealed)
    ensures v == TooManyUncles <==> |block.uncles| > 2
    ensures v != Valid && v != TooManyUncles ==>
              exists j: nat :: j < |block.uncles| && !UncleValid(db, block, sealed, j)
                && forall i: nat :: i < j ==> UncleValid(db, block, sealed, i)
  {
    hide VerifyHeader, UncleValid, Gathered, Ready, Unmistakable;
    if |block.uncles| > MAX_UNCLES { return TooManyUncles; }
    var included, ancestors := Gather(db, block);
    ReadyStart(db, block, included, ancestors);
    ancestors := ancestors[block.header.hash := block.header];
    included := included + {block.header.hash};
    var j := 0;
    while j < |block.uncles|
      invariant 0 <= j <= |block.uncles| && Ready(db, block, j, included, ancestors)
      invariant forall i: nat :: i < j ==> UncleValid(db, block, sealed, i)
    {
      var u := block.uncles[j];
      Decides(db, block, sealed, headerOf, j, included, ancestors);
      ReadyStep(db, block, j, included, ancestors);
      if u.hash in included { return DuplicateUncle; }
      included := included + {u.hash};
      if u.hash in ancestors { return UncleIsAncestor; }
      if u.parent !in ancestors || u.parent == block.header.parent { return DanglingUncle; }
      var e := VerifyHeader(u, ancestors[u.parent], true, true, 0, sealed(u));
      if e.Some? { return InvalidUncle(e.value); }
      j := j + 1;
    }
    return Valid;
  }

  // ---------- a whole chain ----------

  /** Stored blocks linked by parents from genesis on, numbered from zero, in which a hash stands for
      one header, uncles included. */
  ghost predicate Chained(db: Store, chain: seq<Block>, headerOf: Hash -> Header) {
    && Keyed(db) && |chain| > 0 && chain[0].uncles == []
    && (forall i :: 0 <= i < |chain| ==> StoredAt(db, chain[i], i) && headerOf(chain[i].header.hash) == chain[i].header)
    && (forall i :: 0 < i < |chain| ==> chain[i].header.parent == chain[i - 1].header.hash)
    && (forall i, j :: 0 <= i < |chain| && 0 <= j < |chain[i].uncles| ==>
        headerOf(chain[i].uncles[j].hash) == chain[i].uncles[j])
  }

  ghost predicate StoredAt(db: Store, b: Block, n: int) {
    b.header.number == n && Key(n, b.header.hash) in db && db[Key(n, b.header.hash)] == b
  }

  /** Every block above genesis passed, and no uncle names the block that includes it as its parent. */
  ghost predicate Passed(db: Store, chain: seq<Block>, sealed: Header -> bool) {
    forall n :: 0 < n < |chain| ==>
      && UnclesValid(db, chain[n], sealed)
      && forall j :: 0 <= j < |chain[n].uncles| ==> chain[n].uncles[j].parent != chain[n].header.hash
  }

  /** The window over a chain lists its blocks downwards. */
  lemma {:induction false} WindowOnChain(db: Store, chain: seq<Block>, headerOf: Hash -> Header, m: int, n: nat, i: nat)
    requires Chained(db, chain, headerOf) && 0 <= m < |chain| && i < n && i <= m
    ensures var w := Window(db, m, chain[m].header.hash, n); i < |w| && w[i] == chain[m - i]
    decreases n
  {
    assert StoredAt(db, chain[m], m);
    if i > 0 {
      WindowOnChain(db, chain, headerOf, m - 1, n - 1, i - 1);
      assert chain[m].header.parent == chain[m - 1].header.hash;
    }
  }

  lemma {:induction false} WindowNumbers(db: Store, number: int, hash: Hash, n: nat, b: Header)
    requires Keyed(db) && BlockIn(Window(db, number, hash, n), b)
    ensures number - n < b.number <= number
    ensures b.number == number ==> b.hash == hash
    decreases n
  {
    var w := Window(db, number, hash, n);
    var i :| 0 <= i < |w| && w[i].header == b;
    if i > 0 {
      var first := db[Key(number, hash)];
      var rest := Window(db, number - 1, first.header.parent, n - 1);
      assert rest[i - 1] == w[i];
      WindowNumbers(db, number - 1, first.header.parent, n - 1, b);
    }
  }

  /** The chain block m of at most seven blocks below n is in the window of block n. */
  lemma InWindow(db: Store, chain: seq<Block>, headerOf: Hash -> Header, m: int, n: int)
    requires Chained(db, chain, headerOf) && 0 <= m < n < |chain| && n - m <= WINDOW
    ensures var w := Recent(db, chain[n]); n - 1 - m < |w| && w[n - 1 - m] == chain[m]
  {
    assert StoredAt(db, chain[n], n) && chain[n].header.parent == chain[n - 1].header.hash;
    hide Window, Chained;
    WindowOnChain(db, chain, headerOf, n - 1, WINDOW, n - 1 - m);
  }

  /** An uncle of block n is numbered between n - 6 and n - 1. */
  lemma UncleNumber(db: Store, chain: seq<Block>, headerOf: Hash -> Header, sealed: Header -> bool, n: int, j: int)
    requires Chained(db, chain, headerOf) && Passed(db, chain, sealed) && 0 <= n < |chain| && 0 <= j < |chain[n].uncles|
    ensures n - 6 <= chain[n].uncles[j].number <= n - 1
  {
    hide Window;
    assert n > 0 && StoredAt(db, chain[n], n);
    var block, u := chain[n], chain[n].uncles[j];
    assert UncleValid(db, block, sealed, j);
    var p :| (BlockIn(Recent(db, block), p) || p == block.header) && p.hash == u.parent
        && VerifyHeader(u, p, true, true, 0, sealed(u)).None?;
    WindowNumbers(db, n - 1, block.header.parent, WINDOW, p);
  }

  /** Block numbers are unsigned. */
  ghost predicate Unsigned(db: Store) {
    forall k :: k in db ==> k.number >= 0
  }

  /** Chain block m is one of the seven before block n. */
  ghost predicate Near(m: int, n: int) { 0 <= m && n - 7 <= m < n }

  /** Uncle j of chain block n in terms of the chain alone: it is new to the seven blocks before and to the block
      itself, and a valid child of one of the seven other than the parent. */
  ghost predicate Eligible(chain: seq<Block>, sealed: Header -> bool, n: int, j: int)
    requires 0 < n < |chain| && 0 <= j < |chain[n].uncles|
  {
    var u := chain[n].uncles[j];
    && u.hash != chain[n].header.hash && (forall i :: 0 <= i < j ==> chain[n].uncles[i].hash != u.hash)
    && (forall m :: Near(m, n) ==> chain[m].header.hash != u.hash)
    && (forall m, i :: Near(m, n) && 0 <= i < |chain[m].uncles| ==> chain[m].uncles[i].hash != u.hash)
    && ParentNear(chain, sealed, n, u)
  }

  /** Uncles of a chain block are accepted exactly when there are at most two and each is eligible; one numbered
      anywhere from n - 6 to n - 1 can be. */
  lemma UnclesOnChain(db: Store, chain: seq<Block>, headerOf: Hash -> Header, sealed: Header -> bool, n: int)
    requires Chained(db, chain, headerOf) && Unsigned(db) && 0 < n < |chain|
    requires forall j :: 0 <= j < |chain[n].uncles| ==> chain[n].uncles[j].parent != chain[n].header.hash
    ensures UnclesValid(db, chain[n], sealed) <==>
            |chain[n].uncles| <= 2 && forall j :: 0 <= j < |chain[n].uncles| ==> Eligible(chain, sealed, n, j)
  {
    hide UncleValid, Eligible, Chained, Unsigned;
    forall j | 0 <= j < |chain[n].uncles|
      ensures UncleValid(db, chain[n], sealed, j) <==> Eligible(chain, sealed, n, j)
    {
      UncleOnChain(db, chain, headerOf, sealed, n, j);
    }
  }

  lemma UncleOnChain(db: Store, chain: seq<Block>, headerOf: Hash -> Header, sealed: Header -> bool, n: int, j: int)
    requires Chained(db, chain, headerOf) && Unsigned(db) && 0 < n < |chain| && 0 <= j < |chain[n].uncles|
    requires chain[n].uncles[j].parent != chain[n].header.hash
    ensures UncleValid(db, chain[n], sealed, j) <==> Eligible(chain, sealed, n, j)
  {
    var block, u := chain[n], chain[n].uncles[j];
    RecentOnChain(db, chain, headerOf, n);
    RecentIncludes(db, chain, n, u.hash);
    RecentBlocks(db, chain, n, u.hash);
    ParentAbove(chain, headerOf, db, n);
    RecentParent(db, chain, sealed, n, u);
    hide VerifyHeader, Recent, Chained, Unsigned, IncludedIn, BlockIn, Near, ParentNear;
  }

  /** One of the seven blocks before other than the parent has the uncle as a valid child. */
  ghost predicate ParentNear(chain: seq<Block>, sealed: Header -> bool, n: int, u: Header)
    requires 0 < n < |chain|
  {
    exists m :: Near(m, n - 1) && n - 7 <= m && chain[m].header.hash == u.parent
      && VerifyHeader(u, chain[m].header, true, true, 0, sealed(u)).None?
  }

  /** The window of a chain block lists the seven blocks before it. */
  ghost predicate Sees(db: Store, chain: seq<Block>, n: int)
    requires 0 < n < |chain|
  {
    var w := Recent(db, chain[n]);
    |w| == (if n < 7 then n else 7) && forall i :: 0 <= i < |w| ==> w[i] == chain[n - 1 - i]
  }

  lemma RecentBlocks(db: Store, chain: seq<Block>, n: int, hash: Hash)
    requires 0 < n < |chain| && Sees(db, chain, n)
    ensures (forall b :: BlockIn(Recent(db, chain[n]), b) ==> b.hash != hash) <==>
            forall m :: Near(m, n) ==> chain[m].header.hash != hash
  {
    hide Recent;
    var w := Recent(db, chain[n]);
    forall m | Near(m, n)
      ensures BlockIn(w, chain[m].header)
    {
      assert w[n - 1 - m] == chain[m];
    }
    forall b | BlockIn(w, b)
      ensures exists m :: Near(m, n) && chain[m].header == b
    {
      var i :| 0 <= i < |w| && w[i].header == b;
      assert Near(n - 1 - i, n) && chain[n - 1 - i].header == b;
    }
  }

  lemma RecentParent(db: Store, chain: seq<Block>, sealed: Header -> bool, n: int, u: Header)
    requires 0 < n < |chain| && Sees(db, chain, n) && u.parent != chain[n].header.hash
    requires chain[n].header.parent == chain[n - 1].header.hash
    requires forall m :: 0 <= m < n - 1 ==> chain[m].header.hash != chain[n].header.parent
    ensures ParentNear(chain, sealed, n, u) <==>
            && u.parent != chain[n].header.parent
            && exists p :: (BlockIn(Recent(db, chain[n]), p) || p == chain[n].header) && p.hash == u.parent
                 && VerifyHeader(u, p, true, true, 0, sealed(u)).None?
  {
    hide VerifyHeader, Recent;
    var block, w := chain[n], Recent(db, chain[n]);
    if ParentNear(chain, sealed, n, u) {
      var m :| Near(m, n - 1) && n - 7 <= m && chain[m].header.hash == u.parent
        && VerifyHeader(u, chain[m].header, true, true, 0, sealed(u)).None?;
      assert w[n - 1 - m] == chain[m];
    } else if u.parent != block.header.parent {
      forall p | BlockIn(w, p) && p.hash == u.parent
        ensures VerifyHeader(u, p, true, true, 0, sealed(u)).Some?
      {
        var i :| 0 <= i < |w| && w[i].header == p;
        assert Near(n - 1 - i, n - 1) && chain[n - 1 - i].header == p;
      }
    }
  }

  lemma ParentAbove(chain: seq<Block>, headerOf: Hash -> Header, db: Store, n: int)
    requires Chained(db, chain, headerOf) && 0 < n < |chain|
    ensures chain[n].header.parent == chain[n - 1].header.hash
    ensures forall m :: 0 <= m < n - 1 ==> chain[m].header.hash != chain[n].header.parent
  {
    forall m | 0 <= m < n - 1
      ensures chain[m].header.hash != chain[n - 1].header.hash
    {
      assert StoredAt(db, chain[m], m) && StoredAt(db, chain[n - 1], n - 1);
    }
  }

  /** The blocks looked at are the seven before, or all there are. */
  lemma RecentOnChain(db: Store, chain: seq<Block>, headerOf: Hash -> Header, n: int)
    requires Chained(db, chain, headerOf) && Unsigned(db) && 0 < n < |chain|
    ensures Sees(db, chain, n)
  {
    assert StoredAt(db, chain[n], n) && chain[n].header.parent == chain[n - 1].header.hash;
    hide Window;
    WindowLength(db, chain, headerOf, n - 1, chain[n - 1].header.hash, WINDOW);
    var w := Recent(db, chain[n]);
    forall i | 0 <= i < |w|
      ensures w[i] == chain[n - 1 - i]
    {
      WindowOnChain(db, chain, headerOf, n - 1, WINDOW, i);
    }
  }

  lemma {:induction false} WindowLength(db: Store, chain: seq<Block>, headerOf: Hash -> Header, m: int, hash: Hash,
      k: nat)
    requires Chained(db, chain, headerOf) && Unsigned(db) && -1 <= m < |chain|
    requires m >= 0 ==> hash == chain[m].header.hash
    ensures |Window(db, m, hash, k)| == if k < m + 1 then k else m + 1
    decreases k
  {
    if m >= 0 && k > 0 {
      assert StoredAt(db, chain[m], m);
      WindowLength(db, chain, headerOf, m - 1, chain[m].header.parent, k - 1);
    }
  }

  lemma RecentIncludes(db: Store, chain: seq<Block>, n: int, hash: Hash)
    requires 0 < n < |chain| && Sees(db, chain, n)
    ensures IncludedIn(Recent(db, chain[n]), hash) <==>
            exists m, i :: Near(m, n) && 0 <= i < |chain[m].uncles| && chain[m].uncles[i].hash == hash
  {
    hide Recent;
    var w := Recent(db, chain[n]);
    if IncludedIn(w, hash) {
      var k, i :| 0 <= k < |w| && 0 <= i < |w[k].uncles| && w[k].uncles[i].hash == hash;
      assert Near(n - 1 - k, n) && chain[n - 1 - k].uncles[i].hash == hash;
    }
    if exists m, i :: Near(m, n) && 0 <= i < |chain[m].uncles| && chain[m].uncles[i].hash == hash {
      var m, i :| Near(m, n) && 0 <= i < |chain[m].uncles| && chain[m].uncles[i].hash == hash;
      assert w[n - 1 - m].uncles[i].hash == hash;
    }
  }

  /** No uncle occurs twice anywhere on a chain, although each block looks back only seven blocks. */
  lemma UnclesUnique(db: Store, chain: seq<Block>, headerOf: Hash -> Header, sealed: Header -> bool, m: int, i: int,
      n: int, j: int)
    requires Chained(db, chain, headerOf) && Passed(db, chain, sealed)
    requires 0 <= m < |chain| && 0 <= i < |chain[m].uncles| && 0 <= n < |chain| && 0 <= j < |chain[n].uncles|
    requires chain[m].uncles[i].hash == chain[n].uncles[j].hash
    ensures m == n && i == j
  {
    if m < n {
      UncleOnce(db, chain, headerOf, sealed, m, i, n, j);
    } else if n < m {
      UncleOnce(db, chain, headerOf, sealed, n, j, m, i);
    } else {
      assert UncleValid(db, chain[n], sealed, i) && UncleValid(db, chain[n], sealed, j);
    }
  }

  lemma UncleOnce(db: Store, chain: seq<Block>, headerOf: Hash -> Header, sealed: Header -> bool, m: int, i: int,
      n: int, j: int)
    requires Chained(db, chain, headerOf) && Passed(db, chain, sealed)
    requires 0 <= m < n < |chain| && 0 <= i < |chain[m].uncles| && 0 <= j < |chain[n].uncles|
    ensures chain[m].uncles[i].hash != chain[n].uncles[j].hash
  {
    UncleNumber(db, chain, headerOf, sealed, m, i);
    UncleNumber(db, chain, headerOf, sealed, n, j);
    if n - m <= WINDOW {
      InWindow(db, chain, headerOf, m, n);
      assert IncludedIn(Recent(db, chain[n]), chain[m].uncles[i].hash);
      assert UncleValid(db, chain[n], sealed, j);
    } else {
      assert headerOf(chain[m].uncles[i].hash) != headerOf(chain[n].uncles[j].hash);
    }
  }

  /** No uncle is itself a block of the chain. */
  lemma UncleNotOnChain(db: Store, chain: seq<Block>, headerOf: Hash -> Header, sealed: Header -> bool, n: int, j: int,
      m: int)
    requires Chained(db, chain, headerOf) && Passed(db, chain, sealed)
    requires 0 <= n < |chain| && 0 <= j < |chain[n].uncles| && 0 <= m < |chain|
    ensures chain[n].uncles[j].hash != chain[m].header.hash
  {
    UncleNumber(db, chain, headerOf, sealed, n, j);
    if m < n <= m + WINDOW {
      InWindow(db, chain, headerOf, m, n);
      assert BlockIn(Recent(db, chain[n]), chain[m].header);
      assert UncleValid(db, chain[n], sealed, j);
    } else {
      assert StoredAt(db, chain[m], m);
      assert headerOf(chain[n].uncles[j].hash) != headerOf(chain[m].header.hash);
    }
  }

  // ---------- rewards ----------

  const BLOCK_REWARD := 3_000_000_000_000_000_000

  /** An eighth of three ether for each generation the uncle is short of eight back. */
  ghost function UncleReward(number: int, uncle: Header): int {
    (uncle.number + 8 - number) * 375_000_000_000_000_000
  }

  /** What an account receives for the uncles it mined. */
  ghost function UncleShare(number: int, uncles: seq<Header>, who: Address): int {
    if uncles == [] then 0
    else
      var last := uncles[|uncles| - 1];
      UncleShare(number, uncles[..|uncles| - 1], who) + if last.coinbase == who then UncleReward(number, last) else 0
  }

  /** What all uncle miners of a block receive together. */
  ghost function UncleRewards(number: int, uncles: seq<Header>): int {
    if uncles == [] then 0 else UncleRewards(number, uncles[..|uncles| - 1]) + UncleReward(number, uncles[|uncles| - 1])
  }

  /** The miner receives three ether and a thirty-second of that for each uncle. */
  ghost function MinerReward(uncles: seq<Header>): int {
    3_000_000_000_000_000_000 + |uncles| * 93_750_000_000_000_000
  }

  ghost function Minted(block: Block): int {
    MinerReward(block.uncles) + UncleRewards(block.header.number, block.uncles)
  }

  /** Credits the miner and the miners of the uncles; the supply grows by what is minted. */
  method AccumulateRewards(state: State, header: Header, uncles: seq<Header>)
    modifies state`balances
    ensures forall a :: BalanceOf(state.balances, a) ==
                        old(BalanceOf(state.balances, a)) + UncleShare(header.number, uncles, a)
                        + if a == header.coinbase then MinerReward(uncles) else 0
    ensures Supply(state.balances) == old(Supply(state.balances)) + Minted(Block(header, uncles))
  {
    var reward := BLOCK_REWARD;
    var i := 0;
    while i < |uncles|
      invariant 0 <= i <= |uncles| && reward == BLOCK_REWARD + i * (BLOCK_REWARD / 32)
      invariant forall a :: BalanceOf(state.balances, a) == old(BalanceOf(state.balances, a))
                  + UncleShare(header.number, uncles[..i], a)
      invariant Supply(state.balances) == old(Supply(state.balances)) + UncleRewards(header.number, uncles[..i])
    {
      assert uncles[..i + 1][..i] == uncles[..i];
      var r := (uncles[i].number + 8 - header.number) * BLOCK_REWARD / 8;
      state.AddBalance(uncles[i].coinbase, r);
      r := BLOCK_REWARD / 32;
      reward := reward + r;
      i := i + 1;
    }
    assert uncles[..|uncles|] == uncles;
    state.AddBalance(header.coinbase, reward);
  }

  /** On a chain that passed, an uncle d generations back earns 8 - d eighths of the block reward of three ether, so
      between two and seven. */
  lemma UncleRewardBounds(db: Store, chain: seq<Block>, headerOf: Hash -> Header, sealed: Header -> bool, n: int,
      j: int)
    requires Chained(db, chain, headerOf) && Passed(db, chain, sealed) && 0 <= n < |chain| && 0 <= j < |chain[n].uncles|
    ensures var back := n - chain[n].uncles[j].number;
            1 <= back <= 6 && UncleReward(n, chain[n].uncles[j]) == (8 - back) * 375_000_000_000_000_000
  {
    UncleNumber(db, chain, headerOf, sealed, n, j);
  }

  lemma {:induction false} UncleRewardsBounds(number: int, uncles: seq<Header>)
    requires forall j :: 0 <= j < |uncles| ==> number - 6 <= uncles[j].number <= number - 1
    ensures |uncles| * 750_000_000_000_000_000 <= UncleRewards(number, uncles) <= |uncles| * 2_625_000_000_000_000_000
  {
    if uncles != [] {
      UncleRewardsBounds(number, uncles[..|uncles| - 1]);
    }
  }

  /** A block mints at least three ether and at most 2 + 13/16 times that. */
  lemma MintedBounds(db: Store, chain: seq<Block>, headerOf: Hash -> Header, sealed: Header -> bool, n: int)
    requires Chained(db, chain, headerOf) && Passed(db, chain, sealed) && 0 <= n < |chain|
    ensures 3_000_000_000_000_000_000 <= Minted(chain[n]) <= 8_437_500_000_000_000_000
  {
    forall j | 0 <= j < |chain[n].uncles|
      ensures n - 6 <= chain[n].uncles[j].number <= n - 1
    {
      UncleNumber(db, chain, headerOf, sealed, n, j);
    }
    UncleRewardsBounds(n, chain[n].uncles);
    assert |chain[n].uncles| <= 2;
  }

  /** What the blocks 1 to n of a chain mint. */
  ghost function MintedUpTo(chain: seq<Block>, n: nat): int
    requires n < |chain|
  {
    if n == 0 then 0 else MintedUpTo(chain, n - 1) + Minted(chain[n])
  }

  /** The supply minted by a chain of n blocks is linear in n. */
  lemma {:induction false} SupplyBounds(db: Store, chain: seq<Block>, headerOf: Hash -> Header, sealed: Header -> bool,
      n: nat)
    requires Chained(db, chain, headerOf) && Passed(db, chain, sealed) && n < |chain|
    ensures n * 3_000_000_000_000_000_000 <= MintedUpTo(chain, n) <= n * 8_437_500_000_000_000_000
  {
    if n > 0 {
      SupplyBounds(db, chain, headerOf, sealed, n - 1);
      MintedBounds(db, chain, headerOf, sealed, n);
    }
  }
}
