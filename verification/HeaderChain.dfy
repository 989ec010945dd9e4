/** HeaderChain of core/headerchain.go: the header database, the canonical numbering, the heaviest
    head and the three lookup caches. */
module HeaderChain {
  import opened Types
  import opened ChainTree

  datatype Status = UnknownAncestor | Side | Canon

  type Tds = map<Key, int>
  type Numbers = map<Hash, int>

  /** The hash to number index lists exactly the stored headers, so a hash stands for one header. */
  ghost predicate Numbered(headers: Store, numbers: Numbers) {
    && (forall k :: k in headers ==> k.hash in numbers && numbers[k.hash] == k.number)
    && (forall h :: h in numbers ==> Key(numbers[h], h) in headers)
  }

  /** Stored total difficulties are the sums along the paths from genesis. */
  ghost predicate Summed(headers: Store, genesis: Header, tds: Tds)
    requires Rooted(headers, genesis)
  {
    && tds.Keys == headers.Keys
    && forall k :: k in headers ==> Stored(headers, headers[k]) && tds[k] == PathTd(headers, genesis, headers[k])
  }

  /** No stored header is heavier than the head. */
  ghost predicate Heaviest(tds: Tds, head: Header) {
    KeyOf(head) in tds && forall k :: k in tds ==> tds[k] <= tds[KeyOf(head)]
  }

  /** The numbering names the ancestors of the head and nothing above it. */
  ghost predicate ExactlyCanonical(headers: Store, head: Header, canon: map<int, Hash>)
    requires Keyed(headers)
  {
    Canonical(headers, head, canon) && forall n :: n in canon ==> 0 <= n <= head.number
  }

  ghost predicate HeadersCached(cache: map<Hash, Header>, headers: Store, numbers: Numbers) {
    forall h :: h in cache ==> h in numbers && Key(numbers[h], h) in headers && headers[Key(numbers[h], h)] == cache[h]
  }

  /** The store is part of one whose headers are all found by number. */
  ghost predicate Indexes(headers: Store, known: Store, index: Numbers) {
    Extends(headers, known) && Numbered(known, index) && Keyed(known)
  }

  ghost predicate TdsCached(cache: map<Hash, int>, tds: Tds, numbers: Numbers) {
    forall h :: h in cache ==> h in numbers && Key(numbers[h], h) in tds && tds[Key(numbers[h], h)] == cache[h]
  }

  ghost predicate NumbersCached(cache: map<Hash, int>, numbers: Numbers) {
    forall h :: h in cache ==> h in numbers && numbers[h] == cache[h]
  }

  class Chain {
    const genesis: Header
    var headers: Store
    var tds: Tds
    var numbers: Numbers
    var canon: map<int, Hash>
    var headHash: Hash
    var current: Header
    var currentHash: Hash
    var headerCache: map<Hash, Header>
    var tdCache: map<Hash, int>
    var numberCache: map<Hash, int>

    ghost predicate Tree()
      reads this
    {
      Rooted(headers, genesis) && Numbered(headers, numbers) && Summed(headers, genesis, tds)
    }

    ghost predicate Cached()
      reads this
    {
      && HeadersCached(headerCache, headers, numbers)
      && TdsCached(tdCache, tds, numbers)
      && NumbersCached(numberCache, numbers)
    }

    ghost predicate Valid()
      reads this
    {
      && Tree() && Cached()
      && Stored(headers, current) && currentHash == current.hash == headHash
      && ExactlyCanonical(headers, current, canon)
      && Heaviest(tds, current)
    }

    constructor (genesis: Header)
      requires genesis.number == 0
      ensures Valid() && this.genesis == genesis && current == genesis
      ensures headers == map[KeyOf(genesis) := genesis]
    {
      this.genesis := genesis;
      headers := map[KeyOf(genesis) := genesis];
      tds := map[KeyOf(genesis) := genesis.difficulty];
      numbers := map[genesis.hash := 0];
      canon := map[0 := genesis.hash];
      headHash, currentHash, current := genesis.hash, genesis.hash, genesis;
      headerCache, tdCache, numberCache := map[], map[], map[];
    }

    // ---------- cached lookups ----------

    /** The caches may evict any entries when one is added. */
    method CacheHeader(h: Header, ghost known: Store, ghost index: Numbers)
      requires HeadersCached(headerCache, known, index) && Stored(known, h) && h.hash in index
      requires index[h.hash] == h.number
      modifies this`headerCache
      ensures HeadersCached(headerCache, known, index)
    {
      var evicted: set<Hash> := *;
      headerCache := headerCache[h.hash := h] - evicted;
    }

    method CacheTd(hash: Hash, td: int)
      requires TdsCached(tdCache, tds, numbers)
      requires hash in numbers && Key(numbers[hash], hash) in tds && tds[Key(numbers[hash], hash)] == td
      modifies this`tdCache
      ensures TdsCached(tdCache, tds, numbers)
    {
      var evicted: set<Hash> := *;
      tdCache := tdCache[hash := td] - evicted;
    }

    method CacheNumber(hash: Hash, number: int)
      requires NumbersCached(numberCache, numbers) && hash in numbers && numbers[hash] == number
      modifies this`numberCache
      ensures NumbersCached(numberCache, numbers)
    {
      var evicted: set<Hash> := *;
      numberCache := numberCache[hash := number] - evicted;
    }

    /** The cache is keyed by hash alone, so a hit ignores the number.  A stored difficulty is always found,
        an unknown hash never, and what is found is the one stored for the hash. */
    method GetTd(hash: Hash, number: int) returns (r: Option<int>)
      requires TdsCached(tdCache, tds, numbers)
      requires forall k :: k in tds ==> k.hash in numbers && numbers[k.hash] == k.number
      modifies this`tdCache
      ensures TdsCached(tdCache, tds, numbers)
      ensures Key(number, hash) in tds ==> r == Some(tds[Key(number, hash)])
      ensures r.Some? ==> hash in numbers && Key(numbers[hash], hash) in tds && r.value == tds[Key(numbers[hash], hash)]
    {
      if hash in tdCache { return Some(tdCache[hash]); }
      if Key(number, hash) !in tds { return None; }
      r := Some(tds[Key(number, hash)]);
      CacheTd(hash, r.value);
    }

    /** A lookup against a cache filled from an earlier, larger database. */
    method GetHeader(hash: Hash, number: int, ghost known: Store, ghost index: Numbers) returns (r: Option<Header>)
      requires HeadersCached(headerCache, known, index) && Indexes(headers, known, index)
      modifies this`headerCache
      ensures HeadersCached(headerCache, known, index)
      ensures Key(number, hash) in headers ==> r == Some(headers[Key(number, hash)])
      ensures r.Some? ==> hash in index && Key(index[hash], hash) in known && r.value == known[Key(index[hash], hash)]
    {
      if hash in headerCache { return Some(headerCache[hash]); }
      r := Get(headers, hash, number);
      if r.Some? {
        assert known[Key(number, hash)] == r.value;
        CacheHeader(r.value, known, index);
      }
    }

    // ---------- writing ----------

    /** Deletes the canonical entries from i up, stopping at the first number without one. */
    method ClearAbove(number: int)
      modifies this`canon
      ensures forall n :: n in canon ==> n in old(canon) && canon[n] == old(canon)[n]
      ensures forall n :: n in old(canon) && n <= number ==> n in canon
      ensures number + 1 !in canon
      ensures (forall n :: number < n && n in old(canon) ==> forall m :: number < m <= n ==> m in old(canon)) ==>
                forall n :: n in canon ==> n <= number
    {
      var i := number + 1;
      while i in canon
        invariant number < i
        invariant canon == map n | n in old(canon) && !(number < n < i) :: old(canon)[n]
        invariant forall m :: number < m < i ==> m in old(canon)
        decreases |canon|
      {
        canon := canon - {i};
        i := i + 1;
      }
    }

    /** Walks back from the parent of the new head, overwriting numbers until one already names the
        ancestor there, which is a common ancestor with the old head. */
    method Reroute(header: Header, ghost prev: Header)
      requires Grafts(headers, genesis, numbers, header, prev, canon) && HeadersCached(headerCache, headers, numbers)
      modifies this`canon, this`headerCache
      ensures HeadersCached(headerCache, headers, numbers)
      ensures Keyed(headers) && Names(headers, header, canon, 0, header.number)
      ensures forall n :: n in canon ==> 0 <= n <= header.number
    {
      hide *;
      RerouteStart(headers, genesis, numbers, header, prev, canon);
      var headHash := header.parent;
      var headNumber := header.number - 1;
      var headHeader := GetHeader(headHash, headNumber, headers, numbers);
      while !(headNumber in canon && canon[headNumber] == headHash)
        invariant 0 <= headNumber && HeadersCached(headerCache, headers, numbers)
        invariant headHeader.Some? && headHash == headHeader.value.hash
        invariant Rerouting(headers, header, prev, canon, headNumber, headHeader.value)
        decreases headNumber
      {
        RerouteStep(headers, genesis, numbers, header, prev, canon, headNumber, headHeader.value);
        canon := canon[headNumber := headHash];
        headHash := headHeader.value.parent;
        headNumber := headHeader.value.number - 1;
        headHeader := GetHeader(headHash, headNumber, headers, numbers);
      }
      RerouteDone(headers, genesis, numbers, header, prev, canon, headNumber, headHeader.value);
    }

    /** Stores a header and its total difficulty. */
    method StoreHeader(header: Header, td: int)
      requires Tree() && Cached() && Linked(headers, numbers, header) && header.parent in numbers
      requires Key(header.number - 1, header.parent) in tds && (KeyOf(header) in tds ==> tds[KeyOf(header)] == td)
      requires td == header.difficulty + tds[Key(header.number - 1, header.parent)]
      modifies this`headers, this`tds, this`numbers, this`tdCache
      ensures Tree() && Cached() && header.number > 0 && Extends(old(headers), headers)
      ensures headers == old(headers)[KeyOf(header) := header] && tds == old(tds)[KeyOf(header) := td]
      ensures numbers == old(numbers)[header.hash := header.number]
    {
      hide Summed, HeadersCached, NumbersCached, TdsCached, Extends, Numbered, Linked;
      StoredTree(headers, genesis, numbers, tds, header);
      CachesKept(headers, tds, numbers, headerCache, tdCache, numberCache, header, td);
      hide Rooted;
      tds := tds[KeyOf(header) := td];
      numbers := numbers[header.hash := header.number];
      CacheTd(header.hash, td);
      headers := headers[KeyOf(header) := header];
    }

    /** Makes a stored header the head of the canonical chain. */
    method Adopt(header: Header)
      requires Tree() && HeadersCached(headerCache, headers, numbers)
      requires Stored(headers, header) && header.number > 0 && Stored(headers, current)
      requires ExactlyCanonical(headers, current, canon)
      modifies this`canon, this`headerCache, this`headHash, this`currentHash, this`current
      ensures HeadersCached(headerCache, headers, numbers)
      ensures current == header && currentHash == header.hash == headHash && ExactlyCanonical(headers, current, canon)
    {
      hide HeadersCached, Numbered, Summed;
      ClearAbove(header.number);
      Cleared(headers, current, header, old(canon), canon);
      Reroute(header, current);
      canon := canon[header.number := header.hash];
      Adopted(headers, genesis, header, canon);
      headHash, currentHash, current := header.hash, header.hash, header;
    }

    /** Writes a header whose parent is known, and re-routes the canonical chain when it is heavier
        than the head, or as heavy and the coin says so. */
    method WriteHeader(header: Header, coin: bool) returns (status: Status)
      requires Valid() && Linked(headers, numbers, header)
      modifies this
      ensures Valid()
      ensures status == UnknownAncestor <==> header.parent !in old(numbers)
      ensures status == UnknownAncestor ==> headers == old(headers) && canon == old(canon) && current == old(current)
      ensures status != UnknownAncestor ==> headers == old(headers)[KeyOf(header) := header] && KeyOf(header) in tds
      ensures status != UnknownAncestor ==>
                (status == Canon <==>
                    || tds[KeyOf(header)] > old(tds[KeyOf(current)])
                    || (tds[KeyOf(header)] == old(tds[KeyOf(current)]) && coin))
      ensures current == if status == Canon then header else old(current)
    {
      TreeFacts(this, header);
      hide Valid, Linked;
      var ptd := TdOf(header.parent, header.number - 1);
      if ptd.None? { return UnknownAncestor; }
      var localTd := TdOf(currentHash, current.number);
      status := Insert(header, header.difficulty + ptd.value, localTd.value, coin);
    }

    /** A lookup in a valid chain. */
    method TdOf(hash: Hash, number: int) returns (r: Option<int>)
      requires Valid()
      modifies this`tdCache
      ensures Valid() && (Key(number, hash) in tds ==> r == Some(tds[Key(number, hash)]))
      ensures r.Some? ==> hash in numbers
    {
      DifficultiesNumbered(this);
      hide Tree, HeadersCached, TdsCached, NumbersCached, ExactlyCanonical, Stored, Heaviest;
      r := GetTd(hash, number);
    }

    /** Stores a header with its total difficulty and picks the head. */
    method Insert(header: Header, externTd: int, localTd: int, coin: bool) returns (status: Status)
      requires Valid() && Linked(headers, numbers, header) && header.parent in numbers
      requires Key(header.number - 1, header.parent) in tds && KeyOf(current) in tds && localTd == tds[KeyOf(current)]
      requires externTd == header.difficulty + tds[Key(header.number - 1, header.parent)]
      requires KeyOf(header) in tds ==> tds[KeyOf(header)] == externTd
      modifies this
      ensures Valid() && headers == old(headers)[KeyOf(header) := header] && tds == old(tds)[KeyOf(header) := externTd]
      ensures status == (if externTd > localTd || (externTd == localTd && coin) then Canon else Side)
      ensures current == if status == Canon then header else old(current)
    {
      hide Rooted, Numbered, Summed, ExactlyCanonical, Stored, Heaviest, HeadersCached, TdsCached, NumbersCached,
          Linked, Extends;
      ghost var known := headers;
      RootedKeyed(headers, genesis);
      HeavierHead(tds, current, header, externTd);
      StoreHeader(header, externTd);
      RootedKeyed(headers, genesis);
      HeadKept(known, headers, genesis, current, header, canon);
      if externTd > localTd || (externTd == localTd && coin) {
        Adopt(header);
        status := Canon;
      } else {
        status := Side;
      }
      StoredCached(headers, numbers, header);
      CacheHeader(header, headers, numbers);
      CacheNumber(header.hash, header.number);
    }

    /** Every run of writes from a valid chain, whatever the coins say, keeps the canonical numbering
        equal to the ancestors of the head, the difficulties equal to the path sums and the head the
        heaviest stored header; stored are all headers whose parent was there when they were written. */
    method Run(written: seq<Header>, coins: seq<bool>, ghost headerOf: Hash -> Header)
      requires Valid() && |written| == |coins| && Known(headers, headerOf)
      requires forall i :: 0 <= i < |written| ==> Proper(written[i], headerOf)
      modifies this
      ensures Valid() && Known(headers, headerOf) && headers == Written(old(headers), written)
    {
      hide Valid;
      for i := 0 to |written|
        invariant Valid() && Known(headers, headerOf) && headers == Written(old(headers), written[..i])
      {
        assert written[..i + 1][..i] == written[..i];
        KnownLinked(this, written[i], headerOf);
        var status := WriteHeader(written[i], coins[i]);
      }
      assert written[..|written|] == written;
    }

    // ---------- rewinding ----------

    /** All that a rewind needs and keeps: the indexes agree with the stored headers, the caches agree with
        the indexes, and the numbering is exactly the chain of the head.  Side headers may have lost their
        ancestors. */
    ghost predicate Rewindable()
      reads this
    {
      && Keyed(headers) && Numbered(headers, numbers) && tds.Keys == headers.Keys && Cached()
      && Stored(headers, current) && current.number >= 0 && ExactlyCanonical(headers, current, canon)
    }

    /** Deletes the headers of the chain of the head above the target, walking down by parents. */
    method Unwind(target: int) returns (hdr: Option<Header>)
      requires Keyed(headers) && Numbered(headers, numbers) && tds.Keys == headers.Keys
      requires HeadersCached(headerCache, headers, numbers) && Stored(headers, current) && current.number >= 0
      requires Reaches(headers, current) && target >= 0
      modifies this`headers, this`tds, this`numbers, this`headerCache
      ensures Keyed(old(headers)) && hdr == Ancestor(old(headers), current, Lesser(target, current.number)) && hdr.Some?
      ensures headers == Rewound(old(headers), current, Lesser(target, current.number))
      ensures tds.Keys == headers.Keys && (forall k :: k in tds ==> k in old(tds) && tds[k] == old(tds)[k])
      ensures Numbered(headers, numbers)
    {
      hide Keyed, Extends, Ancestor, Rewound, HeadersCached, Numbered, Reaches;
      ghost var known, index, m := headers, numbers, current.number;
      hdr := Some(current);
      UnwindStart(known, current);
      while hdr.Some? && hdr.value.number > target
        invariant hdr.Some? && hdr == Ancestor(known, current, m) && hdr.value.number == m
        invariant Lesser(target, current.number) <= m <= current.number
        invariant headers == Rewound(known, current, m) && Numbered(headers, numbers)
        invariant tds.Keys == headers.Keys && forall k :: k in tds ==> k in old(tds) && tds[k] == old(tds)[k]
        invariant HeadersCached(headerCache, known, index)
        decreases m
      {
        var h := hdr.value;
        UnwindStep(known, index, current, m, numbers);
        headers := headers - {KeyOf(h)};
        numbers := numbers - {h.hash};
        tds := tds - {KeyOf(h)};
        hdr := GetHeader(h.parent, h.number - 1, known, index);
        m := m - 1;
      }
    }

    /** Deletes the canonical entries from the height down to just above the target. */
    method ClearBetween(target: int, height: int)
      requires forall n :: n in canon ==> n <= height
      modifies this`canon
      ensures forall n :: n in canon <==> n in old(canon) && (n <= target || n > height)
      ensures forall n :: n in canon ==> canon[n] == old(canon)[n]
    {
      var i := height;
      while i > target
        invariant target <= i || i == height
        invariant i <= height && forall n :: n in canon <==> n in old(canon) && n <= i
        invariant forall n :: n in canon ==> canon[n] == old(canon)[n]
      {
        canon := canon - {i};
        i := i - 1;
      }
    }

    /** Empties the caches and takes a header as the head. */
    method MoveHead(head: Header)
      modifies this`headerCache, this`tdCache, this`numberCache, this`current, this`currentHash, this`headHash
      ensures Cached() && current == head && currentHash == head.hash == headHash
    {
      headerCache, tdCache, numberCache := map[], map[], map[];
      current := head;
      currentHash := current.hash;
      headHash := currentHash;
    }

    /** Rewinds the chain to the ancestor numbered target, or leaves it when it is not that high.  Rewinds
        can follow each other, and lookups stay possible. */
    method SetHead(target: int)
      requires Rewindable() && target >= 0
      modifies this
      ensures Rewindable() && currentHash == current.hash == headHash
      ensures Keyed(old(headers))
      ensures Ancestor(old(headers), old(current), if target < old(current).number then target else old(current).number)
              == Some(current)
      ensures headers == Rewound(old(headers), old(current), current.number)
      ensures forall k :: k in tds ==> k in old(tds) && tds[k] == old(tds)[k]
      ensures forall n :: n in canon <==> 0 <= n <= current.number
      ensures forall n :: n in canon ==> n in old(canon) && canon[n] == old(canon)[n]
    {
      hide Keyed, HeadersCached, Numbered, Rewound, Ancestor, ExactlyCanonical, Reaches;
      ghost var known, head, named, m := headers, current, canon, Lesser(target, current.number);
      CanonicalReaches(known, current, canon);
      var height := current.number;
      var hdr := Unwind(target);
      ClearBetween(target, height);
      MoveHead(if hdr.Some? then hdr.value else genesis);
      RewoundCanonical(known, head, named, canon, m);
    }
  }

  /** Every run of writes can be followed by a rewind. */
  lemma ValidRewindable(c: Chain)
    requires c.Valid()
    ensures c.Rewindable()
  {
    SummedKeys(c.headers, c.genesis, c.tds);
    StoredNumber(c.headers, c.genesis, c.current);
  }

  /** The headers stored once some were written in order: each whose parent is stored by then. */
  ghost function Written(headers: Store, more: seq<Header>): Store {
    if more == [] then headers
    else
      var before, h := Written(headers, more[..|more| - 1]), more[|more| - 1];
      if Key(h.number - 1, h.parent) in before then before[KeyOf(h) := h] else before
  }

  /** A header is the only one with its hash and numbered one above the header its parent hash names. */
  ghost predicate Proper(h: Header, headerOf: Hash -> Header) {
    headerOf(h.hash) == h && h.number == headerOf(h.parent).number + 1
  }

  ghost predicate Known(headers: Store, headerOf: Hash -> Header) {
    forall k :: k in headers ==> headerOf(k.hash) == headers[k]
  }

  lemma KnownLinked(c: Chain, header: Header, headerOf: Hash -> Header)
    requires c.Valid() && Known(c.headers, headerOf) && Proper(header, headerOf)
    ensures Linked(c.headers, c.numbers, header)
    ensures Known(c.headers[KeyOf(header) := header], headerOf)
    ensures header.parent in c.numbers <==> Key(header.number - 1, header.parent) in c.headers
  {
    var headers, numbers := c.headers, c.numbers;
    assert Keyed(headers);
    assert header.parent in numbers ==> headerOf(header.parent) == headers[Key(numbers[header.parent], header.parent)];
  }

  /** The key is on the chain of h. */
  ghost predicate OnChain(db: Store, h: Header, k: Key)
    requires Keyed(db) && k in db
  {
    Ancestor(db, h, k.number) == Some(db[k])
  }

  /** The store without the headers on the chain of h that are numbered above m. */
  ghost function Rewound(db: Store, h: Header, m: int): Store
    requires Keyed(db)
  {
    map k | k in db && !(k.number > m && OnChain(db, h, k)) :: db[k]
  }

  /** The chain of h is stored down to number zero. */
  ghost predicate Reaches(db: Store, h: Header)
    requires Keyed(db)
  {
    forall n :: 0 <= n <= h.number ==> Ancestor(db, h, n).Some?
  }

  lemma CanonicalReaches(db: Store, h: Header, canon: map<int, Hash>)
    requires Keyed(db) && ExactlyCanonical(db, h, canon)
    ensures Reaches(db, h) && forall n :: n in canon <==> 0 <= n <= h.number
  {
  }

  lemma {:induction false} AncestorStored(db: Store, h: Header, n: int)
    requires Keyed(db) && Stored(db, h) && Ancestor(db, h, n).Some?
    ensures Stored(db, Ancestor(db, h, n).value) && Ancestor(db, h, n).value.number == n
    decreases h.number - n
  {
    if h.number > n {
      AncestorStored(db, Get(db, h.parent, h.number - 1).value, n);
    }
  }

  lemma UnwindStart(db: Store, h: Header)
    requires Keyed(db) && Stored(db, h)
    ensures Rewound(db, h, h.number) == db && Ancestor(db, h, h.number) == Some(h)
  {
    hide Ancestor;
    forall k | k in db
      ensures k in Rewound(db, h, h.number)
    {
      AncestorNumber(db, h, k.number);
    }
    assert Ancestor(db, h, h.number) == Some(h) by { SelfAncestor(db, h); }
  }

  lemma SelfAncestor(db: Store, h: Header)
    requires Keyed(db)
    ensures Ancestor(db, h, h.number) == Some(h)
  {
  }

  /** Going down by one deletes just the header at m. */
  lemma RewoundNext(db: Store, h: Header, m: int)
    requires Keyed(db) && Stored(db, h) && Ancestor(db, h, m).Some?
    ensures Rewound(db, h, m - 1) == Rewound(db, h, m) - {KeyOf(Ancestor(db, h, m).value)}
    ensures KeyOf(Ancestor(db, h, m).value) in Rewound(db, h, m) && Extends(Rewound(db, h, m - 1), db)
  {
    AncestorStored(db, h, m);
    hide Ancestor;
    var t := Ancestor(db, h, m).value;
    forall k | k in db
      ensures k in Rewound(db, h, m - 1) <==> k in Rewound(db, h, m) && k != KeyOf(t)
    {
    }
  }

  lemma NumberedWithout(headers: Store, numbers: Numbers, k: Key)
    requires Numbered(headers, numbers) && k in headers
    ensures Numbered(headers - {k}, numbers - {k.hash})
  {
  }

  lemma UnwindStep(db: Store, index: Numbers, h: Header, m: int, numbers: Numbers)
    requires Keyed(db) && Numbered(db, index) && Stored(db, h) && 0 < m <= h.number && Reaches(db, h)
    requires Numbered(Rewound(db, h, m), numbers)
    ensures Ancestor(db, h, m).Some?
    ensures var t := Ancestor(db, h, m).value;
            && t.number == m && Rewound(db, h, m) - {KeyOf(t)} == Rewound(db, h, m - 1)
            && Numbered(Rewound(db, h, m - 1), numbers - {t.hash})
            && Key(m - 1, t.parent) in Rewound(db, h, m - 1)
            && Ancestor(db, h, m - 1) == Some(Rewound(db, h, m - 1)[Key(m - 1, t.parent)])
    ensures Extends(Rewound(db, h, m - 1), db) && Ancestor(db, h, m - 1).Some?
    ensures Ancestor(db, h, m - 1).value.number == m - 1
  {
    hide Ancestor, Numbered;
    assert Ancestor(db, h, m).Some? && Ancestor(db, h, m - 1).Some?;
    hide Reaches;
    var t := Ancestor(db, h, m).value;
    AncestorStored(db, h, m);
    AncestorStored(db, h, m - 1);
    AncestorParent(db, h, m);
    RewoundNext(db, h, m);
    NumberedWithout(Rewound(db, h, m), numbers, KeyOf(t));
  }

  lemma {:induction false} RewoundAncestor(db: Store, h: Header, m: int, t: Header, n: int)
    requires Keyed(db) && Keyed(Rewound(db, h, m)) && t.number <= m && n <= t.number
    ensures Ancestor(Rewound(db, h, m), t, n) == Ancestor(db, t, n)
    decreases t.number - n
  {
    if t.number > n {
      var p := Get(db, t.parent, t.number - 1);
      assert Get(Rewound(db, h, m), t.parent, t.number - 1) == p;
      if p.Some? {
        RewoundAncestor(db, h, m, p.value, n);
      }
    }
  }

  lemma RewoundKeyed(db: Store, h: Header, m: int)
    requires Keyed(db)
    ensures Keyed(Rewound(db, h, m))
  {
  }

  lemma RewoundStored(db: Store, h: Header, m: int)
    requires Keyed(db) && Ancestor(db, h, m).Some? && Stored(db, Ancestor(db, h, m).value)
    requires Ancestor(db, h, m).value.number == m
    ensures Stored(Rewound(db, h, m), Ancestor(db, h, m).value)
  {
    hide Ancestor, Keyed;
  }

  /** Rewinding to a and then to b below it leaves the same store and head as rewinding to b at once. */
  lemma RewindsCompose(db: Store, h: Header, a: int, b: int)
    requires Keyed(db) && Stored(db, h) && Reaches(db, h) && 0 <= b <= a <= h.number
    ensures Ancestor(db, h, a).Some? && Keyed(Rewound(db, h, a))
    ensures Rewound(Rewound(db, h, a), Ancestor(db, h, a).value, b) == Rewound(db, h, b)
    ensures Ancestor(Rewound(db, h, a), Ancestor(db, h, a).value, b) == Ancestor(db, h, b)
  {
    hide Ancestor;
    RewoundKeyed(db, h, a);
    assert Ancestor(db, h, a).Some?;
    hide Reaches;
    AncestorStored(db, h, a);
    var once, t := Rewound(db, h, a), Ancestor(db, h, a).value;
    forall n | 0 <= n <= a
      ensures Ancestor(once, t, n) == Ancestor(db, h, n)
    {
      AncestorChain(db, h, a, n);
      RewoundAncestor(db, h, a, t, n);
    }
    forall k | k in db
      ensures k in Rewound(once, t, b) <==> k in Rewound(db, h, b)
    {
      AncestorNumber(once, t, k.number);
    }
  }

  /** The numbering cut at m is exactly the chain of the header at m in the rewound store. */
  lemma RewoundCanonical(db: Store, h: Header, before: map<int, Hash>, after: map<int, Hash>, m: int)
    requires Keyed(db) && Stored(db, h) && ExactlyCanonical(db, h, before) && 0 <= m <= h.number
    requires forall n :: n in after <==> 0 <= n <= m
    requires forall n :: n in after ==> n in before && after[n] == before[n]
    ensures Keyed(Rewound(db, h, m)) && Ancestor(db, h, m).Some? && Ancestor(db, h, m).value.number == m
    ensures Stored(Rewound(db, h, m), Ancestor(db, h, m).value)
    ensures ExactlyCanonical(Rewound(db, h, m), Ancestor(db, h, m).value, after)
  {
    hide Ancestor, Rewound, Keyed, Stored;
    RewoundKeyed(db, h, m);
    assert m in before;
    AncestorStored(db, h, m);
    RewoundStored(db, h, m);
    var t := Ancestor(db, h, m).value;
    forall n | 0 <= n <= m
      ensures Ancestor(Rewound(db, h, m), t, n) == Ancestor(db, h, n)
    {
      AncestorChain(db, h, m, n);
      RewoundAncestor(db, h, m, t, n);
    }
  }

  lemma SummedKeys(headers: Store, genesis: Header, tds: Tds)
    requires Rooted(headers, genesis) && Summed(headers, genesis, tds)
    ensures tds.Keys == headers.Keys
  {
  }

  /** A header numbered one above its parent, if that is known, and the only one with its hash. */
  ghost predicate Linked(headers: Store, numbers: Numbers, header: Header) {
    && (header.parent in numbers ==> header.number == numbers[header.parent] + 1)
    && (header.hash in numbers ==>
        Key(numbers[header.hash], header.hash) in headers && headers[Key(numbers[header.hash], header.hash)] == header)
  }

  lemma StoredTree(headers: Store, genesis: Header, numbers: Numbers, tds: Tds, header: Header)
    requires Rooted(headers, genesis) && Numbered(headers, numbers) && Summed(headers, genesis, tds)
    requires Linked(headers, numbers, header) && header.parent in numbers
    ensures header.number > 0 && Key(header.number - 1, header.parent) in tds
    ensures var more := headers[KeyOf(header) := header];
            && Rooted(more, genesis) && Extends(headers, more)
            && Numbered(more, numbers[header.hash := header.number])
            && Summed(more, genesis,
                 tds[KeyOf(header) := header.difficulty + tds[Key(header.number - 1, header.parent)]])
  {
    var more := headers[KeyOf(header) := header];
    var p := headers[Key(header.number - 1, header.parent)];
    assert HasParent(headers, header);
    StoredNumber(headers, genesis, p);
    RootedExtend(headers, genesis, header);
    forall k | k in headers
      ensures Stored(more, headers[k]) && PathTd(more, genesis, headers[k]) == PathTd(headers, genesis, headers[k])
    {
      PathTdExtends(headers, more, genesis, headers[k]);
    }
    assert Stored(more, header) && PathTd(more, genesis, header) == header.difficulty + PathTd(more, genesis, p);
  }

  lemma CachesKept(headers: Store, tds: Tds, numbers: Numbers, hc: map<Hash, Header>, tc: map<Hash, int>,
      nc: map<Hash, int>, header: Header, td: int)
    requires HeadersCached(hc, headers, numbers) && TdsCached(tc, tds, numbers) && NumbersCached(nc, numbers)
    requires Linked(headers, numbers, header) && Numbered(headers, numbers) && Keyed(headers)
    requires KeyOf(header) in tds ==> tds[KeyOf(header)] == td
    ensures var ns := numbers[header.hash := header.number];
            && HeadersCached(hc, headers[KeyOf(header) := header], ns)
            && TdsCached(tc, tds[KeyOf(header) := td], ns) && NumbersCached(nc, ns)
  {
    assert header.hash in numbers ==> KeyOf(header) == Key(numbers[header.hash], header.hash);
  }

  /** What the stored head and a linked header give the lookups. */
  lemma DifficultiesNumbered(c: Chain)
    requires c.Valid()
    ensures forall k :: k in c.tds ==> k.hash in c.numbers && c.numbers[k.hash] == k.number
  {
  }

  lemma TreeFacts(c: Chain, header: Header)
    requires c.Valid() && Linked(c.headers, c.numbers, header)
    ensures c.current.hash in c.numbers && c.current.number == c.numbers[c.current.hash] && KeyOf(c.current) in c.tds
    ensures c.currentHash == c.current.hash
    ensures header.parent in c.numbers ==> header.number == c.numbers[header.parent] + 1
    ensures header.parent in c.numbers <==> Key(header.number - 1, header.parent) in c.tds
    ensures KeyOf(header) in c.tds && header.parent in c.numbers ==>
              c.tds[KeyOf(header)] == header.difficulty + c.tds[Key(header.number - 1, header.parent)]
  {
    var headers, genesis, numbers, tds := c.headers, c.genesis, c.numbers, c.tds;
    if KeyOf(header) in tds && header.parent in numbers {
      assert headers[KeyOf(header)] == header;
      var p := headers[Key(header.number - 1, header.parent)];
      StoredNumber(headers, genesis, p);
      assert PathTd(headers, genesis, header) == header.difficulty + PathTd(headers, genesis, p);
    }
  }

  lemma HeadKept(known: Store, headers: Store, genesis: Header, current: Header, header: Header, canon: map<int, Hash>)
    requires Keyed(known) && Rooted(headers, genesis) && Extends(known, headers)
    requires headers == known[KeyOf(header) := header]
    requires Stored(known, current) && ExactlyCanonical(known, current, canon)
    ensures Stored(headers, current) && Stored(headers, header) && ExactlyCanonical(headers, current, canon)
  {
    CanonicalExtends(known, headers, current, canon);
  }

  /** Of the old head and a new header, the heavier one is the heaviest stored. */
  lemma HeavierHead(tds: Tds, current: Header, header: Header, td: int)
    requires Heaviest(tds, current) && (KeyOf(header) in tds ==> tds[KeyOf(header)] == td)
    ensures td >= tds[KeyOf(current)] ==> Heaviest(tds[KeyOf(header) := td], header)
    ensures td <= tds[KeyOf(current)] ==> Heaviest(tds[KeyOf(header) := td], current)
  {
  }

  lemma StoredCached(headers: Store, numbers: Numbers, header: Header)
    requires Stored(headers, header) && Numbered(headers, numbers)
    ensures header.hash in numbers && numbers[header.hash] == header.number
    ensures headers[Key(numbers[header.hash], header.hash)] == header
  {
  }

  lemma Cleared(headers: Store, prev: Header, header: Header, before: map<int, Hash>, canon: map<int, Hash>)
    requires Keyed(headers) && ExactlyCanonical(headers, prev, before) && header.number >= 0
    requires forall n :: n in canon ==> n in before && canon[n] == before[n]
    requires forall n :: n in before && n <= header.number ==> n in canon
    requires (forall n :: header.number < n && n in before ==> forall m :: header.number < m <= n ==> m in before) ==>
               forall n :: n in canon ==> n <= header.number
    ensures Names(headers, prev, canon, 0, Lesser(prev.number + 1, header.number))
    ensures Within(canon, header.number, header.number - 1, prev.number)
  {
    forall n, m | header.number < m <= n && n in before
      ensures m in before
    {
      assert 0 <= m <= prev.number && Ancestor(headers, prev, m).Some?;
    }
  }

  lemma Adopted(headers: Store, genesis: Header, header: Header, canon: map<int, Hash>)
    requires Rooted(headers, genesis) && Stored(headers, header) && header.number in canon
    requires canon[header.number] == header.hash
    requires Names(headers, header, canon, 0, header.number) && forall n :: n in canon ==> 0 <= n <= header.number
    ensures ExactlyCanonical(headers, header, canon)
  {
  }

  function Lesser(a: int, b: int): int { if a < b then a else b }

  /** The numbering names the ancestors of h on [lo, hi). */
  ghost predicate Names(db: Store, h: Header, canon: map<int, Hash>, lo: int, hi: int)
    requires Keyed(db)
  {
    forall n :: lo <= n < hi ==> n in canon && Ancestor(db, h, n).Some? && canon[n] == Ancestor(db, h, n).value.hash
  }

  /** Entries lie in [0, top], and those up to n lie in [0, low]. */
  ghost predicate Within(canon: map<int, Hash>, top: int, n: int, low: int) {
    forall k :: k in canon ==> 0 <= k <= top && (k <= n ==> k <= low)
  }

  /** The parent of the ancestor at n can be looked up by its own number. */
  lemma ParentLookup(db: Store, genesis: Header, numbers: Numbers, h: Header, n: int)
    requires Rooted(db, genesis) && Numbered(db, numbers) && Stored(db, h) && 0 < n <= h.number
    ensures Ancestor(db, h, n).Some? && Ancestor(db, h, n - 1).Some? && Ancestor(db, h, n - 1).value.number == n - 1
    ensures var p := Ancestor(db, h, n).value.parent;
            p == Ancestor(db, h, n - 1).value.hash && p in numbers && numbers[p] == n - 1
            && Key(n - 1, p) in db && Some(db[Key(n - 1, p)]) == Ancestor(db, h, n - 1)
    ensures n == h.number ==> Ancestor(db, h, n) == Some(h)
    ensures Extends(db, db) && Keyed(db)
  {
    RootedAncestor(db, genesis, h, n);
    RootedAncestor(db, genesis, h, n - 1);
    AncestorParent(db, h, n);
  }

  /** Two stored headers of a rooted tree. */
  ghost predicate Forked(db: Store, genesis: Header, numbers: Numbers, header: Header, prev: Header) {
    Rooted(db, genesis) && Numbered(db, numbers) && Stored(db, header) && Stored(db, prev)
  }

  /** The numbering follows prev as far as the parent of header. */
  ghost predicate Grafts(db: Store, genesis: Header, numbers: Numbers, header: Header, prev: Header,
      canon: map<int, Hash>)
  {
    && Forked(db, genesis, numbers, header, prev) && header.number > 0
    && Names(db, prev, canon, 0, Lesser(prev.number + 1, header.number))
    && Within(canon, header.number, header.number - 1, prev.number)
  }

  /** The numbering follows header above n and prev up to n, and h is the ancestor of header at n. */
  ghost predicate Rerouting(db: Store, header: Header, prev: Header, canon: map<int, Hash>, n: int, h: Header)
    requires Keyed(db)
  {
    && 0 <= n < header.number && Ancestor(db, header, n) == Some(h) && h.number == n
    && Names(db, header, canon, n + 1, header.number)
    && Names(db, prev, canon, 0, Lesser(prev.number + 1, n + 1)) && Within(canon, header.number, n, prev.number)
  }

  lemma RerouteStart(db: Store, genesis: Header, numbers: Numbers, header: Header, prev: Header, canon: map<int, Hash>)
    requires Grafts(db, genesis, numbers, header, prev, canon)
    ensures header.number > 0 && Keyed(db)
    ensures var k := Key(header.number - 1, header.parent);
            k in db && db[k].hash == k.hash && Rerouting(db, header, prev, canon, header.number - 1, db[k])
    ensures Indexes(db, db, numbers) && Forked(db, genesis, numbers, header, prev)
  {
    hide Ancestor, Rooted, Within, Numbered;
    ParentLookup(db, genesis, numbers, header, header.number);
  }

  /** Overwriting one number moves the walk one step down; genesis is never overwritten. */
  lemma RerouteStep(db: Store, genesis: Header, numbers: Numbers, header: Header, prev: Header, canon: map<int, Hash>,
      n: int, h: Header)
    requires Forked(db, genesis, numbers, header, prev)
    requires Rerouting(db, header, prev, canon, n, h) && !(n in canon && canon[n] == h.hash)
    ensures n > 0 && h.number == n
    ensures var k := Key(n - 1, h.parent);
            k in db && db[k].hash == k.hash && Rerouting(db, header, prev, canon[n := h.hash], n - 1, db[k])
  {
    RootedKeyed(db, genesis);
    hide Ancestor, Rooted, Keyed, Numbered;
    AboveGenesis(db, genesis, header, prev, canon, n, h);
    ParentLookup(db, genesis, numbers, header, n);
    NamesKept(db, prev, canon, n, h.hash, Lesser(prev.number + 1, n));
    NamesOneMore(db, header, canon, n, h);
  }

  /** Genesis is always named already. */
  lemma AboveGenesis(db: Store, genesis: Header, header: Header, prev: Header, canon: map<int, Hash>, n: int, h: Header)
    requires Rooted(db, genesis) && Stored(db, header) && Stored(db, prev)
    requires Rerouting(db, header, prev, canon, n, h) && !(n in canon && canon[n] == h.hash)
    ensures n > 0
  {
    RootedKeyed(db, genesis);
    StoredNumber(db, genesis, prev);
    RootedAncestor(db, genesis, header, 0);
    RootedAncestor(db, genesis, prev, 0);
    hide Ancestor, Rooted, Keyed, Stored;
    assert n == 0 ==> Ancestor(db, prev, 0).value == h;
  }

  lemma NamesKept(db: Store, h: Header, canon: map<int, Hash>, n: int, hash: Hash, hi: int)
    requires Keyed(db) && hi <= n && Names(db, h, canon, 0, hi)
    ensures Names(db, h, canon[n := hash], 0, hi)
  {
    hide Ancestor, Keyed;
  }

  lemma NamesOneMore(db: Store, header: Header, canon: map<int, Hash>, n: int, h: Header)
    requires Keyed(db) && Ancestor(db, header, n) == Some(h) && Names(db, header, canon, n + 1, header.number)
    ensures Names(db, header, canon[n := h.hash], n, header.number)
  {
    hide Ancestor, Keyed;
  }

  lemma RerouteDone(db: Store, genesis: Header, numbers: Numbers, header: Header, prev: Header, canon: map<int, Hash>,
      n: int, h: Header)
    requires Forked(db, genesis, numbers, header, prev)
    requires Rerouting(db, header, prev, canon, n, h) && n in canon && canon[n] == h.hash
    ensures Names(db, header, canon, 0, header.number) && forall k :: k in canon ==> 0 <= k <= header.number
  {
    RootedKeyed(db, genesis);
    hide Ancestor, Rooted, Keyed;
    assert n <= prev.number;
    RootedAncestor(db, genesis, prev, n);
    MeetBelow(db, genesis, numbers, header, prev, n);
  }

  /** Two chains that agree at one number agree at every number below it. */
  lemma MeetBelow(headers: Store, genesis: Header, numbers: Numbers, a: Header, b: Header, m: int)
    requires Rooted(headers, genesis) && Numbered(headers, numbers) && Stored(headers, a) && Stored(headers, b)
    requires 0 <= m <= a.number && m <= b.number
    requires Ancestor(headers, a, m).Some? && Ancestor(headers, b, m).Some?
    requires Ancestor(headers, a, m).value.hash == Ancestor(headers, b, m).value.hash
    ensures forall n :: 0 <= n <= m ==> Ancestor(headers, a, n) == Ancestor(headers, b, n)
  {
    RootedAncestor(headers, genesis, a, m);
    RootedAncestor(headers, genesis, b, m);
    forall n | 0 <= n <= m
      ensures Ancestor(headers, a, n) == Ancestor(headers, b, n)
    {
      AncestorChain(headers, a, m, n);
      AncestorChain(headers, b, m, n);
    }
  }
}
