/** Binary heaps stored in a slice, as the heap-ordered slices of core/tx_list.go and p2p/dial.go
    use them: sift-up and sift-down along an arbitrary strict weak order, and the operations
    built from the two. */
module Heap {
  /** What the Less method of a heap has to satisfy: irreflexive, with "not less" a total preorder. */
  ghost predicate StrictWeakOrder<T(!new)>(less: (T, T) -> bool) {
    && (forall a, b :: less(a, b) ==> !less(b, a))
    && (forall a, b, c {:trigger less(b, a), less(c, b)} :: !less(b, a) && !less(c, b) ==> !less(c, a))
  }

  /** The element at k is not less than its parent. */
  ghost predicate Edge<T>(less: (T, T) -> bool, s: seq<T>, k: nat)
    requires 0 < k < |s|
  {
    !less(s[k], s[(k - 1) / 2])
  }

  ghost predicate IsHeap<T>(less: (T, T) -> bool, s: seq<T>) {
    forall k :: 0 < k < |s| ==> Edge(less, s, k)
  }

  function Swap<T>(s: seq<T>, i: nat, j: nat): seq<T>
    requires i < |s| && j < |s|
  {
    s[i := s[j]][j := s[i]]
  }

  function Up<T>(less: (T, T) -> bool, s: seq<T>, j: nat): (r: seq<T>)
    requires j < |s|
    ensures |r| == |s|
    decreases j
  {
    if j == 0 || !less(s[j], s[(j - 1) / 2]) then s
    else Up(less, Swap(s, (j - 1) / 2, j), (j - 1) / 2)
  }

  /** The smaller child of i, which has at least one. */
  function MinChild<T>(less: (T, T) -> bool, s: seq<T>, i: nat): (j: nat)
    requires 2 * i + 1 < |s|
    ensures j < |s| && (j == 2 * i + 1 || j == 2 * i + 2)
  {
    if 2 * i + 2 < |s| && less(s[2 * i + 2], s[2 * i + 1]) then 2 * i + 2 else 2 * i + 1
  }

  /** Whether sift-down moves the element at i at all. */
  predicate Sinks<T>(less: (T, T) -> bool, s: seq<T>, i: nat)
    requires i < |s|
  {
    2 * i + 1 < |s| && less(s[MinChild(less, s, i)], s[i])
  }

  function Down<T>(less: (T, T) -> bool, s: seq<T>, i: nat): (r: seq<T>)
    requires i < |s|
    ensures |r| == |s|
    decreases |s| - i
  {
    if !Sinks(less, s, i) then s
    else Down(less, Swap(s, i, MinChild(less, s, i)), MinChild(less, s, i))
  }

  /** The slice a removal at i works on: the last element moved into i, one element shorter. */
  function Vacate<T>(s: seq<T>, i: nat): (t: seq<T>)
    requires i < |s|
    ensures |t| == |s| - 1
  {
    Swap(s, i, |s| - 1)[..|s| - 1]
  }

  function Push<T>(less: (T, T) -> bool, s: seq<T>, x: T): seq<T> {
    Up(less, s + [x], |s|)
  }

  /** The heap left once the root has been taken out. */
  function Pop<T>(less: (T, T) -> bool, s: seq<T>): seq<T>
    requires |s| > 0
  {
    var t := Vacate(s, 0);
    if |t| == 0 then t else Down(less, t, 0)
  }

  /** The heap left once the element at i has been taken out. */
  function Remove<T>(less: (T, T) -> bool, s: seq<T>, i: nat): seq<T>
    requires i < |s|
  {
    var t := Vacate(s, i);
    if i == |t| then t
    else if Sinks(less, t, i) then Down(less, t, i)
    else Up(less, t, i)
  }

  /** Sift-down applied to every position below k, highest first. */
  function Heapify<T>(less: (T, T) -> bool, s: seq<T>, k: nat): (r: seq<T>)
    requires k <= |s|
    ensures |r| == |s|
    decreases k
  {
    if k == 0 then s else Heapify(less, Down(less, s, k - 1), k - 1)
  }

  function Init<T>(less: (T, T) -> bool, s: seq<T>): seq<T> {
    Heapify(less, s, |s| / 2)
  }

  // ---------- nothing is lost or added ----------

  lemma SwapPermutes<T>(s: seq<T>, i: nat, j: nat)
    requires i < |s| && j < |s|
    ensures multiset(Swap(s, i, j)) == multiset(s)
  {
  }

  lemma {:induction false} UpPermutes<T>(less: (T, T) -> bool, s: seq<T>, j: nat)
    requires j < |s|
    ensures multiset(Up(less, s, j)) == multiset(s)
    decreases j
  {
    if j > 0 && less(s[j], s[(j - 1) / 2]) {
      SwapPermutes(s, (j - 1) / 2, j);
      UpPermutes(less, Swap(s, (j - 1) / 2, j), (j - 1) / 2);
    }
  }

  lemma {:induction false} DownPermutes<T>(less: (T, T) -> bool, s: seq<T>, i: nat)
    requires i < |s|
    ensures multiset(Down(less, s, i)) == multiset(s)
    decreases |s| - i
  {
    if Sinks(less, s, i) {
      var c := MinChild(less, s, i);
      SwapPermutes(s, i, c);
      DownPermutes(less, Swap(s, i, c), c);
    }
  }

  lemma {:induction false} HeapifyPermutes<T>(less: (T, T) -> bool, s: seq<T>, k: nat)
    requires k <= |s|
    ensures multiset(Heapify(less, s, k)) == multiset(s)
    decreases k
  {
    if k > 0 {
      DownPermutes(less, s, k - 1);
      HeapifyPermutes(less, Down(less, s, k - 1), k - 1);
    }
  }

  lemma VacateContents<T>(s: seq<T>, i: nat)
    requires i < |s|
    ensures multiset(Vacate(s, i)) == multiset(s) - multiset{s[i]}
  {
    var t := Swap(s, i, |s| - 1);
    SwapPermutes(s, i, |s| - 1);
    assert t == t[..|s| - 1] + [s[i]];
  }

  // ---------- the order is kept ----------

  /** The element at k is not less than its grandparent. */
  ghost predicate Skip<T>(less: (T, T) -> bool, s: seq<T>, k: nat)
    requires 2 < k < |s|
  {
    !less(s[k], s[((k - 1) / 2 - 1) / 2])
  }

  /** A heap apart from the edge into j, which sift-up is about to repair. */
  ghost predicate HeapButAbove<T>(less: (T, T) -> bool, s: seq<T>, j: nat) {
    && (forall k :: 0 < k < |s| && k != j ==> Edge(less, s, k))
    && (forall k :: 2 < k < |s| && (k - 1) / 2 == j ==> Skip(less, s, k))
  }

  ghost predicate HeapFrom<T>(less: (T, T) -> bool, s: seq<T>, lo: nat) {
    forall k :: 0 < k < |s| && lo <= (k - 1) / 2 ==> Edge(less, s, k)
  }

  /** A heap from position lo on, apart from the edges out of i, which sift-down is about to repair. */
  ghost predicate HeapButBelow<T>(less: (T, T) -> bool, s: seq<T>, i: nat, lo: nat) {
    && (forall k :: 0 < k < |s| && lo <= (k - 1) / 2 != i ==> Edge(less, s, k))
    && (forall k :: 2 < k < |s| && (k - 1) / 2 == i && lo <= (i - 1) / 2 ==> Skip(less, s, k))
  }

  lemma {:induction false} UpHeap<T(!new)>(less: (T, T) -> bool, s: seq<T>, j: nat)
    requires StrictWeakOrder(less) && j < |s| && HeapButAbove(less, s, j)
    ensures IsHeap(less, Up(less, s, j))
    decreases j
  {
    if j > 0 && less(s[j], s[(j - 1) / 2]) {
      UpStep(less, s, j);
      UpHeap(less, Swap(s, (j - 1) / 2, j), (j - 1) / 2);
    } else {
      assert forall k :: 0 < k < |s| ==> Edge(less, s, k);
    }
  }

  lemma UpStep<T(!new)>(less: (T, T) -> bool, s: seq<T>, j: nat)
    requires StrictWeakOrder(less) && 0 < j < |s| && HeapButAbove(less, s, j)
    requires less(s[j], s[(j - 1) / 2])
    ensures HeapButAbove(less, Swap(s, (j - 1) / 2, j), (j - 1) / 2)
  {
    var p := (j - 1) / 2;
    var t := Swap(s, p, j);
    forall k | 0 < k < |s| && k != p
      ensures Edge(less, t, k)
    {
      if k != j { assert Edge(less, s, k); }
      if (k - 1) / 2 == j { assert Skip(less, s, k); }
    }
    forall k | 2 < k < |s| && (k - 1) / 2 == p
      ensures Skip(less, t, k)
    {
      assert Edge(less, s, p);
      if k != j { assert Edge(less, s, k); }
    }
  }

  lemma {:induction false} DownHeap<T(!new)>(less: (T, T) -> bool, s: seq<T>, i: nat, lo: nat)
    requires StrictWeakOrder(less) && lo <= i < |s| && HeapButBelow(less, s, i, lo)
    ensures HeapFrom(less, Down(less, s, i), lo)
    decreases |s| - i
  {
    if Sinks(less, s, i) {
      DownStep(less, s, i, lo);
      DownHeap(less, Swap(s, i, MinChild(less, s, i)), MinChild(less, s, i), lo);
    } else {
      assert forall k :: 0 < k < |s| && (k - 1) / 2 == i ==> Edge(less, s, k);
    }
  }

  lemma DownStep<T(!new)>(less: (T, T) -> bool, s: seq<T>, i: nat, lo: nat)
    requires StrictWeakOrder(less) && lo <= i < |s| && HeapButBelow(less, s, i, lo)
    requires Sinks(less, s, i)
    ensures HeapButBelow(less, Swap(s, i, MinChild(less, s, i)), MinChild(less, s, i), lo)
  {
    var c := MinChild(less, s, i);
    var t := Swap(s, i, c);
    forall k | 0 < k < |s| && lo <= (k - 1) / 2 != c
      ensures Edge(less, t, k)
    {
      if (k - 1) / 2 != i { assert Edge(less, s, k); }
      if k == i { assert Skip(less, s, c); }
    }
    forall k | 2 < k < |s| && (k - 1) / 2 == c && lo <= (c - 1) / 2
      ensures Skip(less, t, k)
    {
      assert Edge(less, s, k);
    }
  }

  lemma {:induction false} HeapMin<T(!new)>(less: (T, T) -> bool, s: seq<T>, k: nat)
    requires StrictWeakOrder(less) && IsHeap(less, s) && k < |s|
    ensures !less(s[k], s[0])
    decreases k
  {
    if k > 0 {
      assert Edge(less, s, k);
      HeapMin(less, s, (k - 1) / 2);
    }
  }

  lemma PushCorrect<T(!new)>(less: (T, T) -> bool, s: seq<T>, x: T)
    requires StrictWeakOrder(less) && IsHeap(less, s)
    ensures IsHeap(less, Push(less, s, x)) && multiset(Push(less, s, x)) == multiset(s) + multiset{x}
  {
    var t := s + [x];
    assert forall k :: 0 < k < |s| ==> Edge(less, s, k) && Edge(less, t, k);
    UpHeap(less, t, |s|);
    UpPermutes(less, t, |s|);
  }

  /** Away from i, and across i, the vacated slice still has its order. */
  lemma VacateEdges<T(!new)>(less: (T, T) -> bool, s: seq<T>, i: nat)
    requires StrictWeakOrder(less) && IsHeap(less, s) && i < |s|
    ensures var t := Vacate(s, i);
            && (forall k :: 0 < k < |t| && k != i && (k - 1) / 2 != i ==> Edge(less, t, k))
            && (forall k :: 2 < k < |t| && (k - 1) / 2 == i ==> Skip(less, t, k))
  {
    var t := Vacate(s, i);
    forall k | 0 < k < |t| && k != i && (k - 1) / 2 != i
      ensures Edge(less, t, k)
    {
      assert Edge(less, s, k);
    }
    forall k | 2 < k < |t| && (k - 1) / 2 == i
      ensures Skip(less, t, k)
    {
      assert Edge(less, s, k) && Edge(less, s, i);
    }
  }

  lemma HeapFromZero<T>(less: (T, T) -> bool, s: seq<T>)
    requires HeapFrom(less, s, 0)
    ensures IsHeap(less, s)
  {
  }

  /** Popping a heap takes out a least element and leaves a heap of the others. */
  lemma PopCorrect<T(!new)>(less: (T, T) -> bool, s: seq<T>)
    requires StrictWeakOrder(less) && IsHeap(less, s) && |s| > 0
    ensures IsHeap(less, Pop(less, s)) && multiset(Pop(less, s)) == multiset(s) - multiset{s[0]}
    ensures forall x :: x in s ==> !less(x, s[0])
  {
    VacateContents(s, 0);
    VacateEdges(less, s, 0);
    if |s| > 1 {
      DownHeap(less, Vacate(s, 0), 0, 0);
      DownPermutes(less, Vacate(s, 0), 0);
      HeapFromZero(less, Down(less, Vacate(s, 0), 0));
    }
    forall x | x in s
      ensures !less(x, s[0])
    {
      var k :| 0 <= k < |s| && s[k] == x;
      HeapMin(less, s, k);
    }
  }

  lemma RemoveHeap<T(!new)>(less: (T, T) -> bool, t: seq<T>, i: nat)
    requires StrictWeakOrder(less) && i < |t|
    requires forall k :: 0 < k < |t| && k != i && (k - 1) / 2 != i ==> Edge(less, t, k)
    requires forall k :: 2 < k < |t| && (k - 1) / 2 == i ==> Skip(less, t, k)
    ensures IsHeap(less, if Sinks(less, t, i) then Down(less, t, i) else Up(less, t, i))
  {
    if Sinks(less, t, i) {
      var c := MinChild(less, t, i);
      var u := Swap(t, i, c);
      if i > 0 { assert Skip(less, t, c); }
      forall k | 0 < k < |u| && (k - 1) / 2 != c
        ensures Edge(less, u, k)
      {
        if k != i && (k - 1) / 2 != i { assert Edge(less, t, k); }
      }
      forall k | 2 < k < |u| && (k - 1) / 2 == c
        ensures Skip(less, u, k)
      {
        assert Edge(less, t, k);
      }
      DownHeap(less, u, c, 0);
      HeapFromZero(less, Down(less, t, i));
    } else {
      forall k | 0 < k < |t| && (k - 1) / 2 == i
        ensures Edge(less, t, k)
      {
      }
      UpHeap(less, t, i);
    }
  }

  lemma RemoveCorrect<T(!new)>(less: (T, T) -> bool, s: seq<T>, i: nat)
    requires StrictWeakOrder(less) && IsHeap(less, s) && i < |s|
    ensures IsHeap(less, Remove(less, s, i)) && multiset(Remove(less, s, i)) == multiset(s) - multiset{s[i]}
  {
    VacateContents(s, i);
    VacateEdges(less, s, i);
    if i < |s| - 1 {
      RemoveHeap(less, Vacate(s, i), i);
      DownPermutes(less, Vacate(s, i), i);
      UpPermutes(less, Vacate(s, i), i);
    }
  }

  lemma {:induction false} HeapifyCorrect<T(!new)>(less: (T, T) -> bool, s: seq<T>, k: nat)
    requires StrictWeakOrder(less) && k <= |s| && HeapFrom(less, s, k)
    ensures IsHeap(less, Heapify(less, s, k))
    decreases k
  {
    if k > 0 {
      DownHeap(less, s, k - 1, k - 1);
      HeapifyCorrect(less, Down(less, s, k - 1), k - 1);
    }
  }

  lemma InitCorrect<T(!new)>(less: (T, T) -> bool, s: seq<T>)
    requires StrictWeakOrder(less)
    ensures IsHeap(less, Init(less, s)) && multiset(Init(less, s)) == multiset(s)
  {
    HeapifyCorrect(less, s, |s| / 2);
    HeapifyPermutes(less, s, |s| / 2);
  }
}
