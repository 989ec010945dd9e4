/** Headers as a parent-linked tree in the database: ancestors, canonical numbering and total
    difficulty along a path. */
module ChainTree {
  import opened Types

  type Store = map<Key, Header>

  function KeyOf(h: Header): Key {
    Key(h.number, h.hash)
  }

  function Get(db: Store, hash: Hash, number: int): Option<Header> {
    if Key(number, hash) in db then Some(db[Key(number, hash)]) else None
  }

  /** Every header is stored under its own number and hash. */
  ghost predicate Keyed(db: Store) {
    forall k :: k in db ==> KeyOf(db[k]) == k
  }

  /** The header n is reached from h by following stored parents. */
  ghost function Ancestor(db: Store, h: Header, n: int): Option<Header>
    requires Keyed(db)
    decreases h.number - n
  {
    if h.number == n then Some(h)
    else if h.number < n then None
    else
      var p := Get(db, h.parent, h.number - 1);
      if p.None? then None else Ancestor(db, p.value, n)
  }

  lemma {:induction false} AncestorNumber(db: Store, h: Header, n: int)
    requires Keyed(db)
    ensures Ancestor(db, h, n).Some? ==> Ancestor(db, h, n).value.number == n && n <= h.number
    decreases h.number - n
  {
    if h.number > n && Get(db, h.parent, h.number - 1).Some? {
      AncestorNumber(db, Get(db, h.parent, h.number - 1).value, n);
    }
  }

  /** An ancestor of an ancestor is an ancestor. */
  lemma {:induction false} AncestorChain(db: Store, h: Header, m: int, n: int)
    requires Keyed(db) && n <= m && Ancestor(db, h, m).Some?
    ensures Ancestor(db, Ancestor(db, h, m).value, n) == Ancestor(db, h, n)
    decreases h.number - m
  {
    if h.number > m {
      AncestorChain(db, Get(db, h.parent, h.number - 1).value, m, n);
    }
  }

  /** The parent of the ancestor at n is the ancestor below it. */
  lemma AncestorParent(db: Store, h: Header, n: int)
    requires Keyed(db) && Ancestor(db, h, n).Some?
    ensures Ancestor(db, h, n - 1) == Get(db, Ancestor(db, h, n).value.parent, n - 1)
  {
    AncestorNumber(db, h, n);
    AncestorChain(db, h, n, n - 1);
  }

  ghost predicate Extends(db: Store, more: Store) {
    forall k :: k in db ==> k in more && more[k] == db[k]
  }

  /** Storing more headers changes no ancestor that was reachable. */
  lemma {:induction false} AncestorExtends(db: Store, more: Store, h: Header, n: int)
    requires Keyed(db) && Keyed(more) && Extends(db, more) && Ancestor(db, h, n).Some?
    ensures Ancestor(more, h, n) == Ancestor(db, h, n)
    decreases h.number - n
  {
    if h.number > n {
      AncestorExtends(db, more, Get(db, h.parent, h.number - 1).value, n);
    }
  }

  // ---------- rooted stores ----------

  ghost predicate HasParent(db: Store, h: Header) {
    Key(h.number - 1, h.parent) in db
  }

  /** Genesis has number zero and every other stored header has a stored parent. */
  ghost predicate Rooted(db: Store, genesis: Header) {
    && Keyed(db) && genesis.number == 0 && KeyOf(genesis) in db && db[KeyOf(genesis)] == genesis
    && (forall k :: k in db && db[k] != genesis ==> k.number > 0 && HasParent(db, db[k]))
  }

  ghost predicate Stored(db: Store, h: Header) {
    KeyOf(h) in db && db[KeyOf(h)] == h
  }

  lemma RootedKeyed(db: Store, genesis: Header)
    requires Rooted(db, genesis)
    ensures Keyed(db)
  {
  }

  lemma StoredNumber(db: Store, genesis: Header, h: Header)
    requires Rooted(db, genesis) && Stored(db, h)
    ensures h.number >= 0
  {
  }

  lemma {:induction false} RootedAncestor(db: Store, genesis: Header, h: Header, n: int)
    requires Rooted(db, genesis) && Stored(db, h) && 0 <= n <= h.number
    ensures Ancestor(db, h, n).Some? && Stored(db, Ancestor(db, h, n).value) && Ancestor(db, h, n).value.number == n
    ensures n == 0 ==> Ancestor(db, h, n).value == genesis
    decreases h.number - n
  {
    if h.number > n {
      assert HasParent(db, h);
      RootedAncestor(db, genesis, Get(db, h.parent, h.number - 1).value, n);
    }
  }

  /** The sum of difficulties from genesis to h. */
  ghost function PathTd(db: Store, genesis: Header, h: Header): int
    requires Rooted(db, genesis) && Stored(db, h)
    decreases h.number
  {
    if h == genesis then h.difficulty
    else
      assert HasParent(db, h);
      h.difficulty + PathTd(db, genesis, db[Key(h.number - 1, h.parent)])
  }

  lemma {:induction false} PathTdExtends(db: Store, more: Store, genesis: Header, h: Header)
    requires Rooted(db, genesis) && Rooted(more, genesis) && Extends(db, more) && Stored(db, h)
    ensures Stored(more, h) && PathTd(more, genesis, h) == PathTd(db, genesis, h)
    decreases h.number
  {
    if h != genesis {
      assert HasParent(db, h);
      PathTdExtends(db, more, genesis, db[Key(h.number - 1, h.parent)]);
    }
  }

  /** The canonical numbering of a head: each number up to it names the ancestor there. */
  ghost predicate Canonical(db: Store, head: Header, canon: map<int, Hash>)
    requires Keyed(db)
  {
    forall n :: 0 <= n <= head.number ==>
      Ancestor(db, head, n).Some? && n in canon && canon[n] == Ancestor(db, head, n).value.hash
  }

  lemma RootedExtend(db: Store, genesis: Header, h: Header)
    requires Rooted(db, genesis) && h.number > 0 && HasParent(db, h)
    requires KeyOf(h) in db ==> db[KeyOf(h)] == h
    ensures Rooted(db[KeyOf(h) := h], genesis) && Extends(db, db[KeyOf(h) := h])
  {
    var more := db[KeyOf(h) := h];
    assert Extends(db, more) && Keyed(more);
    assert genesis == more[KeyOf(genesis)];
    forall k | k in more && more[k] != genesis
      ensures k.number > 0 && HasParent(more, more[k])
    {
      assert k in db ==> HasParent(db, db[k]);
    }
  }

  lemma CanonicalExtends(db: Store, more: Store, head: Header, canon: map<int, Hash>)
    requires Keyed(db) && Keyed(more) && Extends(db, more) && Canonical(db, head, canon)
    ensures Canonical(more, head, canon)
  {
    forall n | 0 <= n <= head.number
      ensures Ancestor(more, head, n) == Ancestor(db, head, n)
    {
      AncestorExtends(db, more, head, n);
    }
  }
}
