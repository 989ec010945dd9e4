/** Transactions as the pool sees them, and the orderings it keeps them in. */
module TxTypes {
  import opened Types

  /** A signed transaction.  The sender is the one recovered from the signature; size is its encoded
      size in bytes and intrinsic the gas its data costs before execution. */
  datatype Tx = Tx(hash: Hash, sender: Address, nonce: nat, price: nat, gas: nat, value: int, size: nat, intrinsic: nat)

  /** The most a transaction can cost its sender: value plus gas at its price. */
  function Cost(tx: Tx): int {
    tx.value + tx.price * tx.gas
  }

  ghost predicate IsLeast(s: set<nat>, m: nat) {
    m in s && forall n :: n in s ==> m <= n
  }

  /** The least element of a set. */
  ghost function Least(s: set<nat>): (m: nat)
    requires s != {}
    ensures IsLeast(s, m)
  {
    LeastExists(s);
    var m :| IsLeast(s, m);
    m
  }

  lemma {:induction false} LeastExists(s: set<nat>)
    requires s != {}
    ensures exists m :: IsLeast(s, m)
    decreases |s|
  {
    var x :| x in s;
    var rest := s - {x};
    assert s == rest + {x};
    if rest == {} {
      assert IsLeast(s, x);
    } else {
      LeastExists(rest);
      var m :| IsLeast(rest, m);
      assert IsLeast(s, if x < m then x else m);
    }
  }

  // ---------- sorting ----------

  ghost predicate SortedBy<T>(key: T -> nat, s: seq<T>) {
    forall i, j :: 0 <= i < j < |s| ==> key(s[i]) <= key(s[j])
  }

  /** Where x belongs in a sorted slice. */
  function Slot<T>(key: T -> nat, s: seq<T>, x: T): (k: nat)
    ensures k <= |s|
  {
    if s == [] || key(x) <= key(s[0]) then 0 else 1 + Slot(key, s[1..], x)
  }

  function InsertBy<T>(key: T -> nat, s: seq<T>, x: T): seq<T> {
    var k := Slot(key, s, x);
    s[..k] + [x] + s[k..]
  }

  function SortBy<T>(key: T -> nat, s: seq<T>): seq<T> {
    if s == [] then [] else InsertBy(key, SortBy(key, s[1..]), s[0])
  }

  lemma {:induction false} SlotIs<T>(key: T -> nat, s: seq<T>, x: T)
    requires SortedBy(key, s)
    ensures forall i :: 0 <= i < Slot(key, s, x) ==> key(s[i]) < key(x)
    ensures forall i :: Slot(key, s, x) <= i < |s| ==> key(x) <= key(s[i])
  {
    if s != [] && key(s[0]) < key(x) {
      SlotIs(key, s[1..], x);
      forall i | 0 <= i < |s|
        ensures if i < Slot(key, s, x) then key(s[i]) < key(x) else key(x) <= key(s[i])
      {
        if i > 0 { assert s[i] == s[1..][i - 1]; }
      }
    }
  }

  lemma InsertByCorrect<T>(key: T -> nat, s: seq<T>, x: T)
    requires SortedBy(key, s)
    ensures SortedBy(key, InsertBy(key, s, x)) && multiset(InsertBy(key, s, x)) == multiset(s) + multiset{x}
  {
    SlotIs(key, s, x);
    assert s == s[..Slot(key, s, x)] + s[Slot(key, s, x)..];
  }

  lemma {:induction false} SortByCorrect<T>(key: T -> nat, s: seq<T>)
    ensures SortedBy(key, SortBy(key, s)) && multiset(SortBy(key, s)) == multiset(s)
  {
    if s != [] {
      SortByCorrect(key, s[1..]);
      InsertByCorrect(key, SortBy(key, s[1..]), s[0]);
      assert s == [s[0]] + s[1..];
    }
  }

  /** A sequence that holds nothing twice has distinct elements. */
  lemma CountedDistinct<T>(s: seq<T>)
    requires forall x :: multiset(s)[x] <= 1
    ensures forall i, j :: 0 <= i < j < |s| ==> s[i] != s[j]
  {
    forall i, j | 0 <= i < j < |s| && s[i] == s[j]
      ensures false
    {
      RepeatCounted(s, i, j);
    }
  }

  lemma RepeatCounted<T>(s: seq<T>, i: nat, j: nat)
    requires i < j < |s| && s[i] == s[j]
    ensures multiset(s)[s[i]] >= 2
  {
    assert s == s[..j] + s[j..];
    assert s[i] == s[..j][i] && s[j] == s[j..][0];
  }
}
