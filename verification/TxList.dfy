/** txList of core/tx_list.go: an account's transactions with cost and gas caps that let Filter
    skip the scan, and a strict mode in which a removal invalidates everything after it. */
module TxList {
  import opened Types
  import opened TxTypes
  import opened TxSortedMap

  /** The contents of a list as a value; the pool keeps its lists in this form. */
  datatype List = List(strict: bool, items: Items, costcap: int, gascap: nat)

  /** A transaction the given balance or block gas limit cannot cover. */
  predicate Over(tx: Tx, costLimit: int, gasLimit: nat) {
    Cost(tx) > costLimit || tx.gas > gasLimit
  }

  /** Both caps bound every stored transaction. */
  ghost predicate Capped(l: List) {
    forall n :: n in l.items ==> !Over(l.items[n], l.costcap, l.gascap)
  }

  ghost predicate WellFormed(l: List) {
    Keyed(l.items) && Capped(l)
  }

  ghost predicate GapFree(m: Items) {
    forall a, k, b :: a in m && b in m && a <= k <= b ==> k in m
  }

  // ---------- what each operation does to the contents ----------

  /** A replacement needs a strictly higher price that also meets the percentage bump. */
  predicate Replaces(prev: Tx, tx: Tx, priceBump: nat) {
    prev.price < tx.price && prev.price * (100 + priceBump) / 100 <= tx.price
  }

  predicate Accepts(l: List, tx: Tx, priceBump: nat) {
    tx.nonce in l.items ==> Replaces(l.items[tx.nonce], tx, priceBump)
  }

  function Inserted(l: List, tx: Tx): List {
    l.(items := l.items[tx.nonce := tx],
       costcap := if l.costcap < Cost(tx) then Cost(tx) else l.costcap,
       gascap := if l.gascap < tx.gas then tx.gas else l.gascap)
  }

  /** The transactions a full scan takes out for cost or gas. */
  ghost function Unpayable(l: List, costLimit: int, gasLimit: nat): Items {
    map n | n in l.items && Over(l.items[n], costLimit, gasLimit) :: l.items[n]
  }

  /** The payable transactions that strict mode takes out because an earlier one goes. */
  ghost function Invalidated(l: List, costLimit: int, gasLimit: nat): Items {
    var gone := Unpayable(l, costLimit, gasLimit);
    if !l.strict || gone == map[] then map[]
    else map n | n in l.items && n !in gone && Least(gone.Keys) < n :: l.items[n]
  }

  /** What is left after a full scan. */
  ghost function Payable(l: List, costLimit: int, gasLimit: nat): Items {
    l.items - Unpayable(l, costLimit, gasLimit).Keys - Invalidated(l, costLimit, gasLimit).Keys
  }

  /** What is left after removing one nonce. */
  ghost function Removed(l: List, nonce: nat): Items {
    if nonce in l.items && l.strict then Below(l.items, nonce) else l.items - {nonce}
  }

  // ---------- laws ----------

  /** The bump in whole percents: a replacement is dearer, and one wei more would be above the percentage. */
  lemma BumpMet(prev: Tx, tx: Tx, priceBump: nat)
    ensures Replaces(prev, tx, priceBump) <==>
              tx.price > prev.price && 100 * (tx.price + 1) > (100 + priceBump) * prev.price
  {
    var scaled := prev.price * (100 + priceBump);
    assert scaled == 100 * (scaled / 100) + scaled % 100;
  }

  lemma InsertedWellFormed(l: List, tx: Tx)
    requires WellFormed(l)
    ensures WellFormed(Inserted(l, tx))
  {
  }

  /** When the caps are within the limits a full scan would take nothing out. */
  lemma ShortCircuit(l: List, costLimit: int, gasLimit: nat)
    requires Capped(l) && l.costcap <= costLimit && l.gascap <= gasLimit
    ensures Unpayable(l, costLimit, gasLimit) == map[] && Invalidated(l, costLimit, gasLimit) == map[]
    ensures Payable(l, costLimit, gasLimit) == l.items
  {
    assert forall n :: n !in Unpayable(l, costLimit, gasLimit);
  }

  /** Unpayable, invalidated and remaining transactions partition the list. */
  lemma FilterPartition(l: List, costLimit: int, gasLimit: nat)
    ensures var a, b, c := Unpayable(l, costLimit, gasLimit), Invalidated(l, costLimit, gasLimit),
              Payable(l, costLimit, gasLimit);
            && SubMap(a, l.items) && SubMap(b, l.items) && SubMap(c, l.items)
            && a.Keys !! b.Keys && (a.Keys + b.Keys) !! c.Keys
            && a.Keys + b.Keys + c.Keys == l.items.Keys
            && |a| + |b| + |c| == |l.items|
  {
    var a, b, c := Unpayable(l, costLimit, gasLimit), Invalidated(l, costLimit, gasLimit),
        Payable(l, costLimit, gasLimit);
    assert c.Keys == l.items.Keys - a.Keys - b.Keys;
    Partition(l.items.Keys, a.Keys, b.Keys, c.Keys);
  }

  ghost predicate SubMap(a: Items, m: Items) {
    forall n :: n in a ==> n in m && a[n] == m[n]
  }

  lemma Partition(m: set<nat>, a: set<nat>, b: set<nat>, c: set<nat>)
    requires a <= m && b <= m && a !! b && c == m - a - b
    ensures (a + b) !! c && a + b + c == m && |a| + |b| + |c| == |m|
  {
    assert a + b + c == m;
  }

  /** A strict list that loses something keeps exactly what lies below the lowest loss. */
  lemma FilterStrict(l: List, costLimit: int, gasLimit: nat)
    requires l.strict && Unpayable(l, costLimit, gasLimit) != map[]
    ensures Payable(l, costLimit, gasLimit) == Below(l.items, Least(Unpayable(l, costLimit, gasLimit).Keys))
  {
    var gone := Unpayable(l, costLimit, gasLimit);
    var low := Least(gone.Keys);
    forall n | n in l.items
      ensures n in Payable(l, costLimit, gasLimit) <==> n < low
    {
      if n < low { assert n !in gone; }
      assert low in gone;
    }
  }

  lemma BelowGapFree(m: Items, t: nat)
    requires GapFree(m)
    ensures GapFree(Below(m, t)) && GapFree(From(m, t))
  {
  }

  lemma LowestGapFree(m: Items, k: nat)
    requires GapFree(m)
    ensures GapFree(Lowest(m, k))
  {
    LowestOrder(m, k);
    forall a, i, b | a in Lowest(m, k) && b in Lowest(m, k) && a <= i <= b
      ensures i in Lowest(m, k)
    {
      assert i in m;
    }
  }

  /** Every removing operation keeps a gap-free strict list gap-free. */
  lemma StrictStaysGapFree(l: List, costLimit: int, gasLimit: nat, nonce: nat, k: nat)
    requires l.strict && GapFree(l.items)
    ensures GapFree(Payable(l, costLimit, gasLimit))
    ensures GapFree(Removed(l, nonce))
    ensures GapFree(Lowest(l.items, k))
    ensures GapFree(From(l.items, nonce))
  {
    LowestGapFree(l.items, k);
    BelowGapFree(l.items, nonce);
    if Unpayable(l, costLimit, gasLimit) == map[] {
      assert Payable(l, costLimit, gasLimit) == l.items;
    } else {
      FilterStrict(l, costLimit, gasLimit);
      BelowGapFree(l.items, Least(Unpayable(l, costLimit, gasLimit).Keys));
    }
    if nonce !in l.items { assert l.items - {nonce} == l.items; }
  }

  // ---------- the object ----------

  class TxListObject {
    const strict: bool
    const txs: SortedMap
    var costcap: int
    var gascap: nat

    ghost function View(): List
      reads this, txs
    {
      List(strict, txs.items, costcap, gascap)
    }

    ghost predicate Valid()
      reads this, txs
    {
      txs.Valid() && WellFormed(View())
    }

    constructor (strict: bool)
      ensures Valid() && fresh(txs) && View() == List(strict, map[], 0, 0)
    {
      this.strict := strict;
      txs := new SortedMap();
      costcap, gascap := 0, 0;
    }

    /** A list with the given contents. */
    constructor Load(l: List)
      requires WellFormed(l)
      ensures Valid() && fresh(txs) && View() == l
    {
      hide Indexed, Sorted;
      strict, costcap, gascap := l.strict, l.costcap, l.gascap;
      txs := new SortedMap.Load(l.items);
    }

    method Value() returns (l: List)
      requires Valid()
      ensures l == View() && WellFormed(l)
    {
      l := List(strict, txs.items, costcap, gascap);
    }

    method Overlaps(tx: Tx) returns (b: bool)
      requires Valid()
      ensures b <==> tx.nonce in txs.items
    {
      var prev := txs.Get(tx.nonce);
      b := prev.Some?;
    }

    method Add(tx: Tx, priceBump: nat) returns (inserted: bool, replaced: Option<Tx>)
      requires Valid()
      modifies this, txs
      ensures Valid() && inserted == old(Accepts(View(), tx, priceBump))
      ensures tx.nonce !in old(txs.items) ==> inserted
      ensures tx.nonce in old(txs.items) ==>
                var p := old(txs.items)[tx.nonce].price;
                inserted <==> tx.price > p && 100 * (tx.price + 1) > (100 + priceBump) * p
      ensures View() == if inserted then old(Inserted(View(), tx)) else old(View())
      ensures txs.items == if inserted then old(txs.items)[tx.nonce := tx] else old(txs.items)
      ensures replaced == old(if inserted && tx.nonce in txs.items then Some(txs.items[tx.nonce]) else None)
    {
      hide Indexed, Sorted;
      var prev := txs.Get(tx.nonce);
      if prev.Some? { BumpMet(prev.value, tx, priceBump); }
      if prev.Some? && !Replaces(prev.value, tx, priceBump) {
        return false, None;
      }
      txs.Put(tx);
      if costcap < Cost(tx) { costcap := Cost(tx); }
      if gascap < tx.gas { gascap := tx.gas; }
      return true, prev;
    }

    method Forward(threshold: nat) returns (removed: seq<Tx>)
      requires Valid()
      modifies txs
      ensures Valid() && View() == old(View()).(items := From(old(txs.items), threshold))
      ensures removed == Sorted(Below(old(txs.items), threshold))
    {
      hide Indexed, Sorted;
      removed := txs.Forward(threshold);
    }

    method Filter(costLimit: int, gasLimit: nat) returns (removed: seq<Tx>, invalids: seq<Tx>)
      requires Valid()
      modifies this, txs
      ensures Valid() && txs.items == Payable(old(View()), costLimit, gasLimit)
      ensures costcap <= costLimit && gascap <= gasLimit
      ensures forall tx :: tx in removed <==>
                Has(old(txs.items), tx) && (tx.value + tx.price * tx.gas > costLimit || tx.gas > gasLimit)
      ensures forall tx :: tx in removed <==> Has(Unpayable(old(View()), costLimit, gasLimit), tx)
      ensures forall tx :: tx in invalids <==> Has(Invalidated(old(View()), costLimit, gasLimit), tx)
      ensures |removed| + |invalids| + |txs.items| == |old(txs.items)|
      ensures DistinctNonces(removed) && DistinctNonces(invalids)
      ensures WellFormed(View()) && strict == old(View()).strict
    {
      hide Indexed, Sorted;
      ghost var l := View();
      if costcap <= costLimit && gascap <= gasLimit {
        ShortCircuit(l, costLimit, gasLimit);
        return [], [];
      }
      costcap, gascap := costLimit, gasLimit;
      removed := txs.Filter(tx => Over(tx, costLimit, gasLimit));
      ghost var mid := txs.items;
      invalids := [];
      ScanRemoved(l, costLimit, gasLimit, removed, mid);
      if strict && |removed| > 0 {
        var lowest := LowestNonce(removed);
        ScanLowest(l, costLimit, gasLimit, removed, lowest);
        invalids := txs.Filter((tx: Tx) => tx.nonce > lowest);
        ScanInvalids(l, costLimit, gasLimit, lowest, mid, txs.items, invalids);
      }
    }

    method Cap(threshold: nat) returns (drops: seq<Tx>)
      requires Valid()
      modifies txs
      ensures Valid() && View() == old(View()).(items := Lowest(old(txs.items), threshold))
      ensures |drops| + |txs.items| == |old(txs.items)| == |Sorted(old(txs.items))|
      ensures forall i :: 0 <= i < |drops| ==> drops[i] == Sorted(old(txs.items))[|old(txs.items)| - 1 - i]
    {
      hide Indexed, Sorted, Lowest;
      LowestOrder(txs.items, threshold);
      drops := txs.Cap(threshold);
    }

    method Remove(tx: Tx) returns (removed: bool, invalids: seq<Tx>)
      requires Valid()
      modifies txs
      ensures Valid() && View() == old(View()).(items := Removed(old(View()), tx.nonce))
      ensures removed == (tx.nonce in old(txs.items))
      ensures forall t :: t in invalids <==> strict && removed && Has(From(old(txs.items), tx.nonce + 1), t)
      ensures DistinctNonces(invalids)
    {
      hide Indexed, Sorted, Above;
      ghost var m := txs.items;
      var nonce := tx.nonce;
      removed := txs.Remove(nonce);
      if !removed { return false, []; }
      if strict {
        invalids := txs.Filter(Above(nonce));
        CutAbove(m, nonce, txs.items, invalids);
        return true, invalids;
      }
      return true, [];
    }

    method Ready(start: nat) returns (ready: seq<Tx>)
      requires Valid()
      modifies txs
      ensures Valid() && View() == old(View()).(items := NotReady(old(txs.items), start))
      ensures ready == Sorted(ReadyRun(old(txs.items), start))
    {
      hide Indexed, Sorted, RunEnd;
      ready := txs.Ready(start);
      SortedEmpty();
    }

    method Flatten() returns (all: seq<Tx>)
      requires Valid()
      modifies txs`cache
      ensures Valid() && all == Sorted(txs.items) && View() == old(View())
    {
      hide Indexed, Sorted;
      all := txs.Flatten();
    }
  }

  ghost predicate Has(m: Items, tx: Tx) {
    tx.nonce in m && m[tx.nonce] == tx
  }

  /** The consecutive run from the lowest nonce, when that nonce is not above start. */
  ghost function ReadyRun(m: Items, start: nat): Items {
    if m == map[] || Least(m.Keys) > start then map[] else Below(m, RunEnd(m, Least(m.Keys)))
  }

  ghost function NotReady(m: Items, start: nat): Items {
    if m == map[] || Least(m.Keys) > start then m else From(m, RunEnd(m, Least(m.Keys)))
  }

  lemma SortedEmpty()
    ensures Sorted(map[]) == []
  {
  }

  method LowestNonce(txs: seq<Tx>) returns (low: nat)
    requires |txs| > 0
    ensures (exists i :: 0 <= i < |txs| && txs[i].nonce == low) && forall i :: 0 <= i < |txs| ==> low <= txs[i].nonce
  {
    low := txs[0].nonce;
    for i := 0 to |txs|
      invariant exists k :: 0 <= k < |txs| && txs[k].nonce == low
      invariant forall k :: 0 <= k < i ==> low <= txs[k].nonce
    {
      if low > txs[i].nonce { low := txs[i].nonce; }
    }
  }

  function Above(nonce: nat): Tx -> bool { (t: Tx) => t.nonce > nonce }

  lemma CutAbove(m: Items, nonce: nat, rest: Items, invalids: seq<Tx>)
    requires Keyed(m) && rest == Kept(m - {nonce}, Above(nonce))
    requires forall t :: t in invalids <==> Has(m - {nonce}, t) && Above(nonce)(t)
    ensures rest == Below(m, nonce)
    ensures forall t :: t in invalids <==> Has(From(m, nonce + 1), t)
  {
  }

  lemma ScanRemoved(l: List, costLimit: int, gasLimit: nat, removed: seq<Tx>, mid: Items)
    requires Keyed(l.items)
    requires forall tx :: tx in removed <==> Has(l.items, tx) && Over(tx, costLimit, gasLimit)
    requires mid == Kept(l.items, tx => Over(tx, costLimit, gasLimit))
    ensures forall tx :: tx in removed <==> Has(Unpayable(l, costLimit, gasLimit), tx)
    ensures mid == l.items - Unpayable(l, costLimit, gasLimit).Keys
    ensures |removed| == 0 || !l.strict ==>
              Payable(l, costLimit, gasLimit) == mid && Invalidated(l, costLimit, gasLimit) == map[]
  {
    var gone := Unpayable(l, costLimit, gasLimit);
    if gone != map[] {
      var n :| n in gone;
      assert Has(gone, gone[n]);
    }
  }

  lemma ScanLowest(l: List, costLimit: int, gasLimit: nat, removed: seq<Tx>, lowest: nat)
    requires Keyed(l.items)
    requires forall tx :: tx in removed <==> Has(Unpayable(l, costLimit, gasLimit), tx)
    requires exists i :: 0 <= i < |removed| && removed[i].nonce == lowest
    requires forall i :: 0 <= i < |removed| ==> lowest <= removed[i].nonce
    ensures Unpayable(l, costLimit, gasLimit) != map[] && Least(Unpayable(l, costLimit, gasLimit).Keys) == lowest
  {
    var gone := Unpayable(l, costLimit, gasLimit);
    var i :| 0 <= i < |removed| && removed[i].nonce == lowest;
    assert removed[i] in removed;
    forall n | n in gone
      ensures lowest <= n
    {
      assert Has(gone, gone[n]);
    }
  }

  lemma ScanInvalids(l: List, costLimit: int, gasLimit: nat, lowest: nat, mid: Items, rest: Items, invalids: seq<Tx>)
    requires Keyed(l.items) && l.strict
    requires Unpayable(l, costLimit, gasLimit) != map[] && Least(Unpayable(l, costLimit, gasLimit).Keys) == lowest
    requires mid == l.items - Unpayable(l, costLimit, gasLimit).Keys
    requires rest == Kept(mid, (tx: Tx) => tx.nonce > lowest)
    requires forall tx :: tx in invalids <==> Has(mid, tx) && tx.nonce > lowest
    ensures rest == Payable(l, costLimit, gasLimit)
    ensures forall tx :: tx in invalids <==> Has(Invalidated(l, costLimit, gasLimit), tx)
  {
    var inv := Invalidated(l, costLimit, gasLimit);
    assert forall n :: n in inv <==> n in mid && n > lowest;
    assert rest == mid - inv.Keys;
  }

  // ---------- the same operations on list values ----------

  ghost predicate DistinctNonces(txs: seq<Tx>) {
    forall i, j :: 0 <= i < j < |txs| ==> txs[i].nonce != txs[j].nonce
  }

  /** The transactions taken out of a list, each once, and nothing else changed. */
  ghost predicate TakenOut(before: Items, after: Items, out: seq<Tx>) {
    && SubMap(after, before)
    && (forall tx :: tx in out <==> Has(before, tx) && tx.nonce !in after)
    && DistinctNonces(out)
  }

  lemma SortedMembers(m: Items)
    requires Keyed(m)
    ensures DistinctNonces(Sorted(m)) && forall tx :: tx in Sorted(m) <==> Has(m, tx)
  {
    SortedIs(m);
  }

  method AddTo(l: List, tx: Tx, priceBump: nat) returns (r: List, inserted: bool, replaced: Option<Tx>)
    requires WellFormed(l)
    ensures inserted == Accepts(l, tx, priceBump) && r == if inserted then Inserted(l, tx) else l
    ensures replaced == if inserted && tx.nonce in l.items then Some(l.items[tx.nonce]) else None
    ensures WellFormed(r)
  {
    var o := new TxListObject.Load(l);
    inserted, replaced := o.Add(tx, priceBump);
    r := o.Value();
  }

  method OverlapsIn(l: List, tx: Tx) returns (b: bool)
    requires WellFormed(l)
    ensures b <==> tx.nonce in l.items
  {
    var o := new TxListObject.Load(l);
    b := o.Overlaps(tx);
  }

  method ForwardOf(l: List, threshold: nat) returns (r: List, removed: seq<Tx>)
    requires WellFormed(l)
    ensures WellFormed(r) && r == l.(items := From(l.items, threshold))
    ensures TakenOut(l.items, r.items, removed)
  {
    hide Sorted, Indexed;
    var o := new TxListObject.Load(l);
    removed := o.Forward(threshold);
    r := o.Value();
    SortedMembers(Below(l.items, threshold));
  }

  method FilterOf(l: List, costLimit: int, gasLimit: nat) returns (r: List, removed: seq<Tx>, invalids: seq<Tx>)
    requires WellFormed(l)
    ensures WellFormed(r) && r.strict == l.strict && r.items == Payable(l, costLimit, gasLimit)
    ensures TakenOut(l.items, r.items, removed + invalids)
    ensures !l.strict ==> invalids == []
    ensures forall tx :: tx in removed <==> Has(Unpayable(l, costLimit, gasLimit), tx)
  {
    hide Sorted, Indexed;
    var o := new TxListObject.Load(l);
    removed, invalids := o.Filter(costLimit, gasLimit);
    r := o.Value();
    FilterTaken(l, costLimit, gasLimit, removed, invalids);
  }

  lemma FilterTaken(l: List, costLimit: int, gasLimit: nat, removed: seq<Tx>, invalids: seq<Tx>)
    requires Keyed(l.items) && DistinctNonces(removed) && DistinctNonces(invalids)
    requires forall tx :: tx in removed <==> Has(Unpayable(l, costLimit, gasLimit), tx)
    requires forall tx :: tx in invalids <==> Has(Invalidated(l, costLimit, gasLimit), tx)
    ensures TakenOut(l.items, Payable(l, costLimit, gasLimit), removed + invalids)
    ensures !l.strict ==> invalids == []
  {
    var a, b := Unpayable(l, costLimit, gasLimit), Invalidated(l, costLimit, gasLimit);
    UnionTaken(l.items, a, b, removed, invalids);
    assert invalids == [] || invalids[0] in invalids;
  }

  lemma UnionTaken(m: Items, a: Items, b: Items, removed: seq<Tx>, invalids: seq<Tx>)
    requires Keyed(m) && DistinctNonces(removed) && DistinctNonces(invalids)
    requires SubMap(a, m) && SubMap(b, m) && a.Keys !! b.Keys
    requires forall tx :: tx in removed <==> Has(a, tx)
    requires forall tx :: tx in invalids <==> Has(b, tx)
    ensures TakenOut(m, m - a.Keys - b.Keys, removed + invalids)
  {
    var out := removed + invalids;
    forall i, j | 0 <= i < j < |out|
      ensures out[i].nonce != out[j].nonce
    {
      if i < |removed| <= j {
        assert Has(a, out[i]) && Has(b, out[j]) by {
          assert out[i] in removed && out[j] in invalids;
        }
      }
    }
  }

  method CapOf(l: List, threshold: nat) returns (r: List, drops: seq<Tx>)
    requires WellFormed(l)
    ensures WellFormed(r) && r == l.(items := Lowest(l.items, threshold))
    ensures TakenOut(l.items, r.items, drops)
  {
    hide Sorted, Indexed, Lowest;
    var o := new TxListObject.Load(l);
    drops := o.Cap(threshold);
    r := o.Value();
    CapTaken(l.items, threshold, drops);
  }

  lemma CapTaken(m: Items, k: nat, drops: seq<Tx>)
    requires Keyed(m) && |drops| + |Lowest(m, k)| == |m| == |Sorted(m)|
    requires forall i :: 0 <= i < |drops| ==> drops[i] == Sorted(m)[|m| - 1 - i]
    ensures TakenOut(m, Lowest(m, k), drops)
  {
    LowestPrefix(m, k);
    LowestWithin(m, k);
    SortedMembers(m);
    hide Sorted, Lowest, DistinctNonces, SubMap, Has;
    ReversedTail(Sorted(m), |Lowest(m, k)|, drops);
    TailDropped(m, Lowest(m, k), Sorted(m));
  }

  lemma LowestWithin(m: Items, k: nat)
    ensures SubMap(Lowest(m, k), m)
  {
    LowestOrder(m, k);
  }

  lemma ReversedTail(txs: seq<Tx>, n: nat, drops: seq<Tx>)
    requires |drops| + n == |txs| && DistinctNonces(txs)
    requires forall i :: 0 <= i < |drops| ==> drops[i] == txs[|txs| - 1 - i]
    ensures DistinctNonces(drops) && forall tx :: tx in drops <==> tx in txs[n..]
  {
    var tail := txs[n..];
    forall tx
      ensures tx in drops <==> tx in tail
    {
      if tx in drops {
        var i :| 0 <= i < |drops| && drops[i] == tx;
        assert tail[|drops| - 1 - i] == tx;
      }
      if tx in tail {
        var i :| 0 <= i < |tail| && tail[i] == tx;
        assert drops[|drops| - 1 - i] == tx;
      }
    }
  }

  /** What lies past the kept ones is what is not kept. */
  lemma TailDropped(m: Items, low: Items, txs: seq<Tx>)
    requires |low| <= |m| == |txs| && forall tx :: tx in txs <==> Has(m, tx)
    requires forall i :: 0 <= i < |m| ==> (txs[i].nonce in low <==> i < |low|)
    ensures forall tx :: tx in txs[|low|..] <==> Has(m, tx) && tx.nonce !in low
  {
    var tail := txs[|low|..];
    forall tx
      ensures tx in tail <==> tx in txs && tx.nonce !in low
    {
      if tx in tail {
        var i :| 0 <= i < |tail| && tail[i] == tx;
        assert txs[|low| + i] == tx;
      }
      if tx in txs && tx.nonce !in low {
        var i :| 0 <= i < |txs| && txs[i] == tx;
        assert tail[i - |low|] == tx;
      }
    }
  }

  /** Position tells the kept from the dropped. */
  lemma LowestPrefix(m: Items, k: nat)
    requires Keyed(m)
    ensures |Lowest(m, k)| <= |m| == |Sorted(m)|
    ensures forall i :: 0 <= i < |m| ==> (Sorted(m)[i].nonce in Lowest(m, k) <==> i < |Lowest(m, k)|)
  {
    SortedLength(m);
    SortedIs(m);
    if |m| <= k {
      LowestAll(m, k);
    } else {
      LowestFirst(m, k);
      LowestOrder(m, k);
      var low, txs := Lowest(m, k), Sorted(m);
      SortedIs(low);
      forall i | 0 <= i < |m|
        ensures txs[i].nonce in low <==> i < k
      {
        if i < k { assert txs[..k][i] == txs[i]; }
        if txs[i].nonce in low { assert low[txs[i].nonce] in txs[..k]; }
      }
    }
  }

  method RemoveFrom(l: List, tx: Tx) returns (r: List, removed: bool, invalids: seq<Tx>)
    requires WellFormed(l)
    ensures WellFormed(r) && r == l.(items := Removed(l, tx.nonce)) && removed == (tx.nonce in l.items)
    ensures removed ==> TakenOut(l.items - {tx.nonce}, r.items, invalids)
    ensures !removed ==> invalids == [] && r == l
    ensures !l.strict ==> invalids == []
  {
    hide Sorted, Indexed;
    var o := new TxListObject.Load(l);
    removed, invalids := o.Remove(tx);
    r := o.Value();
    if !removed { assert l.items - {tx.nonce} == l.items; }
    assert invalids == [] || invalids[0] in invalids;
  }

  method ReadyOf(l: List, start: nat) returns (r: List, ready: seq<Tx>)
    requires WellFormed(l)
    ensures WellFormed(r) && r == l.(items := NotReady(l.items, start))
    ensures TakenOut(l.items, r.items, ready)
    ensures forall i, j :: 0 <= i < j < |ready| ==> ready[i].nonce < ready[j].nonce
  {
    hide Sorted, Indexed, RunEnd;
    var o := new TxListObject.Load(l);
    ready := o.Ready(start);
    r := o.Value();
    SortedMembers(ReadyRun(l.items, start));
    SortedIs(ReadyRun(l.items, start));
  }

  method FlattenOf(l: List) returns (all: seq<Tx>)
    requires WellFormed(l)
    ensures all == Sorted(l.items)
    ensures forall tx :: tx in all <==> Has(l.items, tx)
  {
    hide Sorted, Indexed;
    var o := new TxListObject.Load(l);
    all := o.Flatten();
    SortedMembers(l.items);
  }
}
