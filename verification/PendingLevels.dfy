/** Cutting account lists down to a common length, as the pending overflow stage of
    core/tx_pool.go does, and the totals that decide how far down to cut. */
module PendingLevels {
  import opened Types
  import opened TxTypes
  import opened TxSortedMap
  import opened TxList
  import opened PoolState
  import opened Sums

  /** The list lengths by account. */
  ghost function Sizes(x: Lists): map<Address, int> {
    map a | a in x :: |x[a].items|
  }

  ghost function Count(x: Lists): int {
    Total(Sizes(x))
  }

  ghost function CutList(l: List, level: nat): List {
    l.(items := Lowest(l.items, level))
  }

  /** The lists with those of the accounts in s cut to the level lowest nonces. */
  ghost function CutOn(x: Lists, s: set<Address>, level: nat): Lists {
    map a | a in x :: if a in s then CutList(x[a], level) else x[a]
  }

  /** The lists with every remote account cut to the level. */
  ghost function Cut(x: Lists, locals: set<Address>, level: nat): Lists {
    map a | a in x :: if a in locals then x[a] else CutList(x[a], level)
  }

  // ---------- lengths ----------

  lemma {:induction false} LowestSize(m: Items, k: nat)
    ensures |Lowest(m, k)| == if |m| < k then |m| else k
  {
    if |m| <= k { LowestAll(m, k); } else { LowestFirst(m, k); }
  }

  /** Cutting twice is cutting to the lower level. */
  lemma {:induction false} LowestLowest(m: Items, j: nat, k: nat)
    requires j <= k
    ensures Lowest(Lowest(m, k), j) == Lowest(m, j)
    decreases k
  {
    if j > 0 && m != map[] {
      var n := Least(m.Keys);
      var rest := Lowest(m - {n}, k - 1);
      LowestOrder(m - {n}, k - 1);
      var cut := rest[n := m[n]];
      assert IsLeast(cut.Keys, n);
      assert cut - {n} == rest;
      LowestLowest(m - {n}, j - 1, k - 1);
    }
  }

  lemma CutListSize(l: List, level: nat)
    ensures |CutList(l, level).items| == if |l.items| < level then |l.items| else level
    ensures |l.items| <= level ==> CutList(l, level) == l
  {
    LowestSize(l.items, level);
    if |l.items| <= level { LowestAll(l.items, level); }
  }

  lemma CountUpdate(x: Lists, a: Address, r: List)
    requires a in x
    ensures Count(x[a := r]) == Count(x) - |x[a].items| + |r.items|
  {
    assert Sizes(x[a := r]) == Sizes(x)[a := |r.items|];
    TotalUpdate(Sizes(x), a, |r.items|);
  }

  // ---------- levels ----------

  /** Accounts that are no longer than the level need not be named. */
  lemma CutOnIgnores(x: Lists, s: set<Address>, t: set<Address>, level: nat)
    requires forall a :: a in x && (a in s <==> a !in t) ==> |x[a].items| <= level
    ensures CutOn(x, s, level) == CutOn(x, t, level)
  {
    forall a | a in x
      ensures CutOn(x, s, level)[a] == CutOn(x, t, level)[a]
    {
      CutListSize(x[a], level);
    }
  }

  lemma CutOnIsCut(x: Lists, s: set<Address>, locals: set<Address>, level: nat)
    requires s !! locals && forall a :: a in x && a !in s && a !in locals ==> |x[a].items| <= level
    ensures CutOn(x, s, level) == Cut(x, locals, level)
  {
    forall a | a in x
      ensures CutOn(x, s, level)[a] == Cut(x, locals, level)[a]
    {
      CutListSize(x[a], level);
    }
  }

  lemma CutOnAgain(x: Lists, s: set<Address>, j: nat, k: nat)
    requires j <= k
    ensures CutOn(CutOn(x, s, k), s, j) == CutOn(x, s, j)
  {
    forall a | a in x
      ensures CutOn(CutOn(x, s, k), s, j)[a] == CutOn(x, s, j)[a]
    {
      LowestLowest(x[a].items, j, k);
    }
  }

  /** Extending the cut set by one account, whose list is cut in place. */
  lemma CutOnStep(x: Lists, s: set<Address>, a: Address, level: nat)
    requires a in x && a !in s
    ensures CutOn(x, s, level)[a := CutList(x[a], level)] == CutOn(x, s + {a}, level)
    ensures a in CutOn(x, s, level) && CutOn(x, s, level)[a] == x[a]
  {
  }

  ghost predicate IsBound(x: Lists, level: nat) {
    forall a :: a in x ==> |x[a].items| <= level
  }

  lemma {:induction false} BoundExists(x: Lists)
    ensures exists level :: IsBound(x, level)
    decreases |x|
  {
    if x == map[] {
      assert IsBound(x, 0);
    } else {
      var a :| a in x;
      BoundExists(x - {a});
      var level :| IsBound(x - {a}, level);
      var top := if |x[a].items| > level then |x[a].items| else level;
      forall b | b in x
        ensures |x[b].items| <= top
      {
        if b != a { assert b in x - {a}; }
      }
      assert IsBound(x, top);
    }
  }

  ghost function Bound(x: Lists): (level: nat)
    ensures IsBound(x, level)
  {
    BoundExists(x);
    var level :| IsBound(x, level);
    level
  }

  // ---------- the state of the overflow stage ----------

  /** The remote accounts above their guaranteed allowance. */
  ghost function Spammers(x: Lists, locals: set<Address>, slots: nat): set<Address> {
    set a | a in x && a !in locals && |x[a].items| > slots
  }

  ghost function Addresses(s: seq<Address>): set<Address> {
    set a | a in s
  }

  ghost predicate Distinct(s: seq<Address>) {
    forall i, j :: 0 <= i < j < |s| ==> s[i] != s[j]
  }

  /** Some remote account is longer than the level. */
  ghost predicate Cuts(x: Lists, locals: set<Address>, level: nat) {
    exists a :: a in x && a !in locals && |x[a].items| > level
  }

  /** Whatever is cut at this level had to be: one level higher the total is over the limit. */
  ghost predicate Needed(x: Lists, locals: set<Address>, limit: nat, level: nat) {
    Cuts(x, locals, level) ==> Count(Cut(x, locals, level + 1)) > limit
  }

  ghost predicate Full(x: Lists, offenders: seq<Address>, level: nat) {
    forall i :: 0 <= i < |offenders| ==> offenders[i] in x && |x[offenders[i]].items| >= level
  }

  /** The offenders found so far have been cut to the level, and nobody else is above it. */
  ghost predicate Flooded(x: Lists, locals: set<Address>, slots: nat, limit: nat, offenders: seq<Address>,
      rest: set<Address>, level: nat) {
    && Distinct(offenders) && slots <= level
    && Addresses(offenders) !! rest && Addresses(offenders) + rest == Spammers(x, locals, slots)
    && (forall a :: a in rest ==> |x[a].items| <= level)
    && Needed(x, locals, limit, level)
  }

  /** Distinct accounts whose lists all have the given length. */
  ghost predicate Aligned(x: Lists, offenders: seq<Address>, level: nat) {
    Distinct(offenders) && forall i :: 0 <= i < |offenders| ==> offenders[i] in x && |x[offenders[i]].items| == level
  }

  lemma FullAligned(x: Lists, offenders: seq<Address>, level: nat)
    requires Distinct(offenders) && Full(x, offenders, level)
    ensures Aligned(CutOn(x, Addresses(offenders), level), offenders, level)
  {
    forall i | 0 <= i < |offenders|
      ensures |CutOn(x, Addresses(offenders), level)[offenders[i]].items| == level
    {
      CutListSize(x[offenders[i]], level);
    }
  }

  lemma FloodStart(x: Lists, locals: set<Address>, slots: nat, limit: nat, level: nat)
    requires IsBound(x, level) && slots <= level
    ensures Flooded(x, locals, slots, limit, [], Spammers(x, locals, slots), level)
    ensures CutOn(x, Addresses([]), level) == x
  {
  }

  /** The first offender is the longest account, so nothing is above its length. */
  lemma FloodFirst(x: Lists, locals: set<Address>, slots: nat, limit: nat, rest: set<Address>, level: nat, a: Address)
    requires Flooded(x, locals, slots, limit, [], rest, level) && a in rest
    requires forall b :: b in rest ==> |x[b].items| <= |x[a].items|
    ensures Flooded(x, locals, slots, limit, [a], rest - {a}, |x[a].items|) && Full(x, [a], |x[a].items|)
    ensures CutOn(x, Addresses([a]), |x[a].items|) == x
  {
    assert Addresses([a]) + (rest - {a}) == rest;
    forall b | b in x && b !in locals
      ensures |x[b].items| <= |x[a].items|
    {
      assert b in Spammers(x, locals, slots) || |x[b].items| <= slots;
    }
    CutOnIgnores(x, Addresses([a]), {}, |x[a].items|);
    assert CutOn(x, {}, |x[a].items|) == x;
  }

  /** Taking in the next offender once the earlier ones were lowered no further than its length. */
  lemma FloodNext(x: Lists, locals: set<Address>, slots: nat, limit: nat, offenders: seq<Address>,
      rest: set<Address>, level: nat, lower: nat, a: Address)
    requires Flooded(x, locals, slots, limit, offenders, rest, level) && a in rest
    requires forall b :: b in rest ==> |x[b].items| <= |x[a].items|
    requires |x[a].items| <= lower <= level
    requires lower < level ==> Count(CutOn(x, Addresses(offenders), lower + 1)) > limit
    ensures Flooded(x, locals, slots, limit, offenders + [a], rest - {a}, lower)
    ensures CutOn(x, Addresses(offenders + [a]), lower) == CutOn(x, Addresses(offenders), lower)
  {
    var more := offenders + [a];
    assert Addresses(more) == Addresses(offenders) + {a};
    assert a !in offenders;
    assert Addresses(more) + (rest - {a}) == Spammers(x, locals, slots);
    NeededLower(x, locals, slots, limit, offenders, rest, level, lower);
    CutOnIgnores(x, Addresses(more), Addresses(offenders), lower);
  }

  lemma NeededLower(x: Lists, locals: set<Address>, slots: nat, limit: nat, offenders: seq<Address>,
      rest: set<Address>, level: nat, lower: nat)
    requires Flooded(x, locals, slots, limit, offenders, rest, level) && slots <= lower <= level
    requires forall a :: a in rest ==> |x[a].items| <= lower
    requires lower < level ==> Count(CutOn(x, Addresses(offenders), lower + 1)) > limit
    ensures Needed(x, locals, limit, lower)
  {
    hide CutOn, Cut, Count, Cuts;
    if lower < level {
      forall a | a in x && a !in Addresses(offenders) && a !in locals
        ensures |x[a].items| <= lower + 1
      {
        assert a in Spammers(x, locals, slots) || |x[a].items| <= slots;
      }
      CutOnIsCut(x, Addresses(offenders), locals, lower + 1);
    }
  }

  /** The stage ends with every remote account cut to one level. */
  lemma FloodDone(x: Lists, locals: set<Address>, slots: nat, limit: nat, offenders: seq<Address>,
      rest: set<Address>, level: nat, lower: nat)
    requires Flooded(x, locals, slots, limit, offenders, rest, level) && slots <= lower <= level
    requires forall a :: a in rest ==> |x[a].items| <= lower
    requires lower < level ==> Count(CutOn(x, Addresses(offenders), lower + 1)) > limit
    ensures CutOn(x, Addresses(offenders), lower) == Cut(x, locals, lower) && Needed(x, locals, limit, lower)
  {
    NeededLower(x, locals, slots, limit, offenders, rest, level, lower);
    forall a | a in x && a !in Addresses(offenders) && a !in locals
      ensures |x[a].items| <= lower
    {
      assert a in Spammers(x, locals, slots) || |x[a].items| <= slots;
    }
    CutOnIsCut(x, Addresses(offenders), locals, lower);
  }
}
