/** Sharing one connection between protocols: which protocols two peers have in common, the range of
    message codes each gets, and the shift of codes on the way out and in.  The ranges follow the
    Capability Messaging section of the devp2p RLPx specification. */
module Protocols {
  import opened Types

  datatype Protocol = Protocol(name: string, version: nat, length: nat)
  datatype Cap = Cap(name: string, version: nat)

  /** A protocol running on a connection, with the first message code of its range. */
  datatype Running = Running(proto: Protocol, offset: nat)

  const BASE_LENGTH: nat := 16

  // ---------- the order of names ----------

  /** Names are compared letter by letter. */
  predicate NameLess(a: string, b: string) {
    b != [] && (a == [] || a[0] < b[0] || (a[0] == b[0] && NameLess(a[1..], b[1..])))
  }

  /** The first letter in which two names differ decides, and a name comes before its continuations. */
  lemma {:induction false} NameDecided(a: string, b: string)
    ensures NameLess(a, b) <==> exists k: nat :: DiffersAt(a, b, k)
  {
    if a == [] {
      assert b != [] ==> DiffersAt(a, b, 0);
    } else if b != [] && a[0] != b[0] {
      assert a[0] < b[0] ==> DiffersAt(a, b, 0);
      forall k: nat | DiffersAt(a, b, k)
        ensures k == 0
      {
        if k > 0 { SameFirst(a, b, k); }
      }
    } else if b != [] {
      NameDecided(a[1..], b[1..]);
      if NameLess(a, b) {
        var k: nat :| DiffersAt(a[1..], b[1..], k);
        assert a[..k + 1] == [a[0]] + a[1..][..k] && b[..k + 1] == [b[0]] + b[1..][..k];
        assert DiffersAt(a, b, k + 1);
      }
      forall k: nat | DiffersAt(a, b, k)
        ensures k > 0 && DiffersAt(a[1..], b[1..], k - 1)
      {
        assert a[1..][..k - 1] == a[..k][1..] && b[1..][..k - 1] == b[..k][1..];
      }
    }
  }

  lemma SameFirst(a: string, b: string, k: nat)
    requires DiffersAt(a, b, k) && k > 0
    ensures a[0] == b[0]
  {
    assert a[0] == a[..k][0] && b[0] == b[..k][0];
  }

  ghost predicate DiffersAt(a: string, b: string, k: nat) {
    k <= |a| && k < |b| && a[..k] == b[..k] && (k == |a| || a[k] < b[k])
  }

  lemma {:induction false} NameTotal(a: string, b: string)
    ensures NameLess(a, b) || NameLess(b, a) || a == b
    ensures !(NameLess(a, b) && NameLess(b, a)) && !NameLess(a, a)
  {
    if a != [] && b != [] && a[0] == b[0] {
      NameTotal(a[1..], b[1..]);
      assert a == [a[0]] + a[1..] && b == [b[0]] + b[1..];
    }
    if a != [] {
      NameTotal(a[1..], a[1..]);
    }
  }

  lemma {:induction false} NameTransitive(a: string, b: string, c: string)
    requires NameLess(a, b) && NameLess(b, c)
    ensures NameLess(a, c)
  {
    if a != [] && a[0] == b[0] && b[0] == c[0] {
      NameTransitive(a[1..], b[1..], c[1..]);
    }
  }

  // ---------- sorting capabilities ----------

  predicate CapLess(a: Cap, b: Cap) {
    NameLess(a.name, b.name) || (a.name == b.name && a.version < b.version)
  }

  lemma CapOrder(a: Cap, b: Cap, c: Cap)
    ensures !(CapLess(a, b) && CapLess(b, a))
    ensures CapLess(a, b) && !CapLess(c, b) ==> CapLess(a, c)
  {
    NameTotal(a.name, b.name);
    NameTotal(c.name, b.name);
    if CapLess(a, b) && !CapLess(c, b) && NameLess(a.name, b.name) && NameLess(b.name, c.name) {
      NameTransitive(a.name, b.name, c.name);
    }
  }

  ghost predicate CapsSorted(s: seq<Cap>) {
    forall i, j :: 0 <= i < j < |s| ==> !CapLess(s[j], s[i])
  }

  function InsertCap(s: seq<Cap>, c: Cap): seq<Cap> {
    if s == [] || !CapLess(s[0], c) then [c] + s else [s[0]] + InsertCap(s[1..], c)
  }

  function SortCaps(s: seq<Cap>): seq<Cap> {
    if s == [] then [] else InsertCap(SortCaps(s[1..]), s[0])
  }

  lemma {:induction false} InsertCapCorrect(s: seq<Cap>, c: Cap)
    requires CapsSorted(s)
    ensures CapsSorted(InsertCap(s, c)) && multiset(InsertCap(s, c)) == multiset(s) + multiset{c}
  {
    hide CapLess;
    if s != [] {
      assert s == [s[0]] + s[1..];
      if CapLess(s[0], c) {
        InsertCapCorrect(s[1..], c);
        var rest := InsertCap(s[1..], c);
        forall j | 0 <= j < |rest|
          ensures !CapLess(rest[j], s[0])
        {
          assert rest[j] in multiset(rest);
          CapOrder(s[0], c, c);
        }
      } else {
        forall j | 0 <= j < |s|
          ensures !CapLess(s[j], c)
        {
          CapOrder(s[j], c, s[0]);
        }
      }
    }
  }

  lemma {:induction false} SortCapsCorrect(s: seq<Cap>)
    ensures CapsSorted(SortCaps(s)) && multiset(SortCaps(s)) == multiset(s)
  {
    if s != [] {
      SortCapsCorrect(s[1..]);
      InsertCapCorrect(SortCaps(s[1..]), s[0]);
      assert s == [s[0]] + s[1..];
    }
  }

  // ---------- what is shared ----------

  predicate Fits(p: Protocol, c: Cap) { p.name == c.name && p.version == c.version }

  /** The first own protocol that fits a capability of the peer. */
  function FirstFit(protocols: seq<Protocol>, c: Cap): (r: Option<Protocol>)
    ensures r.None? <==> forall p :: p in protocols ==> !Fits(p, c)
    ensures r.Some? ==> r.value in protocols && Fits(r.value, c)
  {
    if protocols == [] then None
    else if Fits(protocols[0], c) then Some(protocols[0])
    else
      assert protocols == [protocols[0]] + protocols[1..];
      FirstFit(protocols[1..], c)
  }

  /** Of the own protocols with the name and version of a capability, the first is taken. */
  lemma {:induction false} FirstTaken(protocols: seq<Protocol>, c: Cap, i: nat)
    requires i < |protocols| && protocols[i].name == c.name && protocols[i].version == c.version
    requires forall j :: 0 <= j < i ==> protocols[j].name != c.name || protocols[j].version != c.version
    ensures FirstFit(protocols, c) == Some(protocols[i])
  {
    if i > 0 {
      assert protocols[0].name != c.name || protocols[0].version != c.version;
      FirstTaken(protocols[1..], c, i - 1);
    }
  }

  ghost predicate Shared(protocols: seq<Protocol>, caps: seq<Cap>, name: string, version: nat) {
    Cap(name, version) in caps && FirstFit(protocols, Cap(name, version)).Some?
  }

  /** An own protocol in the highest version that the peer shares. */
  ghost predicate Best(protocols: seq<Protocol>, caps: seq<Cap>, p: Protocol) {
    && Cap(p.name, p.version) in caps && FirstFit(protocols, Cap(p.name, p.version)) == Some(p)
    && forall v: nat :: Shared(protocols, caps, p.name, v) ==> v <= p.version
  }

  ghost predicate NamesSorted(entries: seq<Protocol>) {
    forall i, j :: 0 <= i < j < |entries| ==> NameLess(entries[i].name, entries[j].name)
  }

  ghost predicate Named(entries: seq<Protocol>, name: string) {
    exists i :: 0 <= i < |entries| && entries[i].name == name
  }

  /** The shared protocols, each name once in its highest shared version, in the order of names. */
  ghost predicate Chosen(protocols: seq<Protocol>, caps: seq<Cap>, entries: seq<Protocol>) {
    && NamesSorted(entries)
    && (forall i :: 0 <= i < |entries| ==> Best(protocols, caps, entries[i]))
    && (forall name, v: nat :: Shared(protocols, caps, name, v) ==> Named(entries, name))
  }

  /** Where the range of the entry i begins: after the ranges of the entries before it. */
  ghost function OffsetAt(entries: seq<Protocol>, i: nat): nat
    requires i <= |entries|
  {
    if i == 0 then 16 else OffsetAt(entries, i - 1) + entries[i - 1].length
  }

  /** The running protocols are the entries, with ranges that lie one after the other from 16 on. */
  ghost predicate Laid(entries: seq<Protocol>, running: map<string, Running>) {
    && (forall i :: 0 <= i < |entries| ==> entries[i].name in running && running[entries[i].name].proto == entries[i])
    && (forall i {:trigger OffsetAt(entries, i)} :: 0 <= i < |entries| ==>
        running[entries[i].name].offset == OffsetAt(entries, i))
    && (forall name :: name in running ==> exists i :: 0 <= i < |entries| && entries[i].name == name)
  }

  // ---------- choosing, capability by capability ----------

  lemma ChosenSkip(protocols: seq<Protocol>, caps: seq<Cap>, entries: seq<Protocol>, c: Cap)
    requires Chosen(protocols, caps, entries) && FirstFit(protocols, c).None?
    ensures Chosen(protocols, caps + [c], entries)
  {
    hide FirstFit, NameLess;
    assert forall name, v: nat :: Shared(protocols, caps + [c], name, v) <==> Shared(protocols, caps, name, v);
  }

  /** Of capabilities in order, the names of the entries come before that of the next one or are it. */
  lemma NamesBefore(protocols: seq<Protocol>, caps: seq<Cap>, entries: seq<Protocol>, c: Cap, i: nat)
    requires Chosen(protocols, caps, entries) && CapsSorted(caps + [c]) && i < |entries|
    ensures NameLess(entries[i].name, c.name) || entries[i].name == c.name
    ensures entries[i].name == c.name ==> entries[i].version <= c.version
  {
    hide FirstFit, NameLess;
    assert Best(protocols, caps, entries[i]);
    var k :| 0 <= k < |caps| && caps[k] == Cap(entries[i].name, entries[i].version);
    assert !CapLess((caps + [c])[|caps|], (caps + [c])[k]);
    NameTotal(entries[i].name, c.name);
  }

  lemma ChosenAppend(protocols: seq<Protocol>, caps: seq<Cap>, entries: seq<Protocol>, c: Cap, p: Protocol)
    requires Chosen(protocols, caps, entries) && CapsSorted(caps + [c]) && FirstFit(protocols, c) == Some(p)
    requires !Named(entries, c.name)
    ensures Chosen(protocols, caps + [c], entries + [p])
  {
    hide FirstFit, NameLess, CapsSorted;
    var more := entries + [p];
    forall i | 0 <= i < |entries|
      ensures NameLess(entries[i].name, c.name) && Best(protocols, caps + [c], entries[i]) && more[i] == entries[i]
    {
      NamesBefore(protocols, caps, entries, c, i);
      assert Best(protocols, caps, entries[i]);
      SharedOther(protocols, caps, c, entries[i].name);
    }
    SharedSame(protocols, caps, c);
    assert Best(protocols, caps + [c], p);
    forall name, v: nat | Shared(protocols, caps + [c], name, v)
      ensures Named(more, name)
    {
      NamedMore(protocols, caps, entries, c, p, name, v);
    }
  }

  lemma NamedMore(protocols: seq<Protocol>, caps: seq<Cap>, entries: seq<Protocol>, c: Cap, p: Protocol, name: string,
      v: nat)
    requires Chosen(protocols, caps, entries) && p.name == c.name && Shared(protocols, caps + [c], name, v)
    ensures Named(entries + [p], name)
  {
    var more := entries + [p];
    if name == c.name {
      assert more[|entries|].name == name;
    } else {
      assert Shared(protocols, caps, name, v);
      var i :| 0 <= i < |entries| && entries[i].name == name;
      assert more[i].name == name;
    }
  }

  lemma SharedOther(protocols: seq<Protocol>, caps: seq<Cap>, c: Cap, name: string)
    requires name != c.name
    ensures forall v: nat :: Shared(protocols, caps + [c], name, v) <==> Shared(protocols, caps, name, v)
  {
  }

  lemma SharedSame(protocols: seq<Protocol>, caps: seq<Cap>, c: Cap)
    ensures forall v: nat :: Shared(protocols, caps + [c], c.name, v) ==>
              Shared(protocols, caps, c.name, v) || v == c.version
  {
  }

  lemma ChosenReplace(protocols: seq<Protocol>, caps: seq<Cap>, entries: seq<Protocol>, c: Cap, p: Protocol)
    requires Chosen(protocols, caps, entries) && CapsSorted(caps + [c]) && FirstFit(protocols, c) == Some(p)
    requires |entries| > 0 && entries[|entries| - 1].name == c.name
    ensures Chosen(protocols, caps + [c], entries[..|entries| - 1] + [p])
  {
    hide FirstFit, NameLess, CapsSorted;
    var last := |entries| - 1;
    var more := entries[..last] + [p];
    forall i | 0 <= i < last
      ensures NameLess(entries[i].name, c.name) && Best(protocols, caps + [c], entries[i]) && more[i] == entries[i]
    {
      assert Best(protocols, caps, entries[i]) && NameLess(entries[i].name, entries[last].name);
      NameTotal(entries[i].name, entries[i].name);
      SharedOther(protocols, caps, c, entries[i].name);
    }
    NamesBefore(protocols, caps, entries, c, last);
    SharedSame(protocols, caps, c);
    assert Best(protocols, caps, entries[last]);
    assert Best(protocols, caps + [c], p);
    forall name, v: nat | Shared(protocols, caps + [c], name, v)
      ensures Named(more, name)
    {
      if name == c.name {
        assert more[last].name == name;
      } else {
        assert Shared(protocols, caps, name, v);
        var i :| 0 <= i < |entries| && entries[i].name == name;
        assert more[i].name == name;
      }
    }
  }

  /** An entry of the next capability's name can only be the last one. */
  lemma NamedLast(protocols: seq<Protocol>, caps: seq<Cap>, entries: seq<Protocol>, c: Cap)
    requires Chosen(protocols, caps, entries) && CapsSorted(caps + [c]) && Named(entries, c.name)
    ensures |entries| > 0 && entries[|entries| - 1].name == c.name
  {
    hide FirstFit, NameLess, CapsSorted;
    var i :| 0 <= i < |entries| && entries[i].name == c.name;
    var last := |entries| - 1;
    NamesBefore(protocols, caps, entries, c, last);
    NameTotal(c.name, entries[last].name);
  }

  // ---------- the layout ----------

  lemma {:induction false} OffsetPrefix(a: seq<Protocol>, b: seq<Protocol>, i: nat)
    requires i <= |a| && i <= |b| && a[..i] == b[..i]
    ensures OffsetAt(a, i) == OffsetAt(b, i)
  {
    if i > 0 {
      assert a[..i - 1] == a[..i][..i - 1] && b[..i - 1] == b[..i][..i - 1];
      assert a[i - 1] == a[..i][i - 1] && b[i - 1] == b[..i][i - 1];
      OffsetPrefix(a, b, i - 1);
    }
  }

  /** Putting one protocol behind the first n entries. */
  lemma LaidStep(entries: seq<Protocol>, n: nat, running: map<string, Running>, p: Protocol)
    requires Laid(entries, running) && NamesSorted(entries)
    requires (n == |entries| && !Named(entries, p.name)) || (n == |entries| - 1 && entries[n].name == p.name)
    ensures Laid(entries[..n] + [p], running[p.name := Running(p, OffsetAt(entries, n))])
  {
    hide OffsetAt, NameLess, NamesSorted, Named, Laid;
    var more := entries[..n] + [p];
    var r := running[p.name := Running(p, OffsetAt(entries, n))];
    forall i: nat | i < |more|
      ensures LaidAt(more, r, i)
    {
      if i < n {
        LaidBefore(entries, n, running, p, i);
      } else {
        assert more[..n] == entries[..n];
        OffsetPrefix(more, entries, n);
      }
    }
    LaidNamesStep(entries, n, running, p, r);
    LaidAll(more, r);
  }

  ghost predicate LaidAt(entries: seq<Protocol>, running: map<string, Running>, i: nat)
    requires i < |entries|
  {
    entries[i].name in running && running[entries[i].name] == Running(entries[i], OffsetAt(entries, i))
  }

  lemma LaidAll(entries: seq<Protocol>, running: map<string, Running>)
    requires forall i: nat :: i < |entries| ==> LaidAt(entries, running, i)
    requires forall name :: name in running ==> exists i :: 0 <= i < |entries| && entries[i].name == name
    ensures Laid(entries, running)
  {
    hide OffsetAt;
    forall i | 0 <= i < |entries|
      ensures entries[i].name in running && running[entries[i].name] == Running(entries[i], OffsetAt(entries, i))
    {
      assert LaidAt(entries, running, i);
    }
  }

  /** The entries before the new one stay where they were. */
  lemma LaidBefore(entries: seq<Protocol>, n: nat, running: map<string, Running>, p: Protocol, i: nat)
    requires Laid(entries, running) && NamesSorted(entries) && i < n
    requires (n == |entries| && !Named(entries, p.name)) || (n == |entries| - 1 && entries[n].name == p.name)
    ensures var more := entries[..n] + [p];
            more[i].name != p.name && LaidAt(more, running, i)
  {
    hide OffsetAt, NameLess, NamesSorted, Named;
    var more := entries[..n] + [p];
    assert more[i] == entries[i] && entries[i].name in running;
    NamesDiffer(entries, n, p, i);
    assert more[..i] == entries[..i];
    OffsetPrefix(more, entries, i);
  }

  lemma LaidNamesStep(entries: seq<Protocol>, n: nat, running: map<string, Running>, p: Protocol,
      r: map<string, Running>)
    requires Laid(entries, running) && r.Keys == running.Keys + {p.name} && |entries| - 1 <= n <= |entries|
    requires n < |entries| ==> entries[n].name == p.name
    ensures forall name :: name in r ==> exists i :: 0 <= i < n + 1 && (entries[..n] + [p])[i].name == name
  {
    hide OffsetAt;
    var more := entries[..n] + [p];
    forall name | name in r
      ensures exists i :: 0 <= i < n + 1 && more[i].name == name
    {
      if name == p.name {
        assert more[n].name == name;
      } else {
        var i :| 0 <= i < |entries| && entries[i].name == name;
        assert more[i].name == name;
      }
    }
  }

  lemma NamesDiffer(entries: seq<Protocol>, n: nat, p: Protocol, i: nat)
    requires NamesSorted(entries) && i < n
    requires (n == |entries| && !Named(entries, p.name)) || (n == |entries| - 1 && entries[n].name == p.name)
    ensures entries[i].name != p.name
  {
    if n < |entries| {
      NameTotal(entries[i].name, entries[n].name);
    }
  }

  /** Matches the own protocols with the capabilities of a peer: each shared name gets its highest
      shared version, and the ranges of message codes follow each other from 16 on in the order of names. */
  method MatchProtocols(protocols: seq<Protocol>, caps: seq<Cap>) returns (running: map<string, Running>,
      ghost entries: seq<Protocol>)
    ensures Chosen(protocols, caps, entries) && Laid(entries, running)
    ensures forall name :: name in running ==>
              running[name].proto.name == name && Best(protocols, caps, running[name].proto)
    ensures forall name, v: nat :: Shared(protocols, caps, name, v) ==> name in running
  {
    hide FirstFit, NameLess, OffsetAt, Chosen, Laid, CapsSorted, Named, Best, Shared;
    var sorted := SortCaps(caps);
    SortCapsCorrect(caps);
    var offset := BASE_LENGTH;
    running, entries := map[], [];
    ChosenNothing(protocols);
    assert sorted[..0] == [];
    for k := 0 to |sorted|
      invariant Chosen(protocols, sorted[..k], entries) && Laid(entries, running)
      invariant offset == OffsetAt(entries, |entries|)
    {
      var cap := sorted[k];
      assert sorted[..k + 1] == sorted[..k] + [cap];
      SortedPrefix(sorted, k + 1);
      var proto := FirstFit(protocols, cap);
      if proto.None? {
        ChosenSkip(protocols, sorted[..k], entries, cap);
      } else {
        LaidNames(entries, running, cap.name);
        ghost var n := |entries|;
        if cap.name in running {
          NamedLast(protocols, sorted[..k], entries, cap);
          n := n - 1;
          LaidLast(entries, running);
          offset := offset - running[cap.name].proto.length;
          ChosenReplace(protocols, sorted[..k], entries, cap, proto.value);
        } else {
          assert entries[..n] == entries;
          ChosenAppend(protocols, sorted[..k], entries, cap, proto.value);
        }
        ChosenSorted(protocols, sorted[..k], entries);
        FitsName(protocols, cap);
        LaidStep(entries, n, running, proto.value);
        running := running[cap.name := Running(proto.value, offset)];
        OffsetAfter(entries, n, proto.value);
        entries := entries[..n] + [proto.value];
        offset := offset + proto.value.length;
      }
    }
    assert sorted[..|sorted|] == sorted;
    ChosenReordered(protocols, sorted, caps, entries);
    ChosenRunning(protocols, caps, entries, running);
  }

  lemma ChosenRunning(protocols: seq<Protocol>, caps: seq<Cap>, entries: seq<Protocol>, running: map<string, Running>)
    requires Chosen(protocols, caps, entries) && Laid(entries, running)
    ensures forall name :: name in running ==>
              running[name].proto.name == name && Best(protocols, caps, running[name].proto)
    ensures forall name, v: nat :: Shared(protocols, caps, name, v) ==> name in running
  {
    hide FirstFit, NameLess, OffsetAt, Best, Shared, NamesSorted;
    forall name | name in running
      ensures running[name].proto.name == name && Best(protocols, caps, running[name].proto)
    {
      var i :| 0 <= i < |entries| && entries[i].name == name;
      assert Best(protocols, caps, entries[i]);
    }
    forall name, v: nat | Shared(protocols, caps, name, v)
      ensures name in running
    {
      var i :| 0 <= i < |entries| && entries[i].name == name;
      assert entries[i].name in running;
    }
  }

  lemma ChosenNothing(protocols: seq<Protocol>)
    ensures Chosen(protocols, [], []) && Laid([], map[]) && OffsetAt([], 0) == 16
  {
  }

  lemma SortedPrefix(s: seq<Cap>, k: nat)
    requires CapsSorted(s) && k <= |s|
    ensures CapsSorted(s[..k])
  {
  }

  lemma LaidNames(entries: seq<Protocol>, running: map<string, Running>, name: string)
    requires Laid(entries, running)
    ensures name in running <==> Named(entries, name)
  {
  }

  lemma LaidLast(entries: seq<Protocol>, running: map<string, Running>)
    requires Laid(entries, running) && |entries| > 0
    ensures var p := entries[|entries| - 1];
            p.name in running && running[p.name].proto == p
                && OffsetAt(entries, |entries|) == OffsetAt(entries, |entries| - 1) + p.length
  {
  }

  lemma ChosenSorted(protocols: seq<Protocol>, caps: seq<Cap>, entries: seq<Protocol>)
    requires Chosen(protocols, caps, entries)
    ensures NamesSorted(entries)
  {
  }

  lemma FitsName(protocols: seq<Protocol>, c: Cap)
    ensures FirstFit(protocols, c).Some? ==> FirstFit(protocols, c).value.name == c.name
  {
  }

  lemma OffsetAfter(entries: seq<Protocol>, n: nat, p: Protocol)
    requires n <= |entries|
    ensures OffsetAt(entries[..n] + [p], n + 1) == OffsetAt(entries, n) + p.length
  {
    assert (entries[..n] + [p])[..n] == entries[..n];
    OffsetPrefix(entries[..n] + [p], entries, n);
  }

  /** The choice depends on which capabilities there are, not on their order. */
  lemma ChosenReordered(protocols: seq<Protocol>, a: seq<Cap>, b: seq<Cap>, entries: seq<Protocol>)
    requires Chosen(protocols, a, entries) && multiset(a) == multiset(b)
    ensures Chosen(protocols, b, entries)
  {
    hide FirstFit, NameLess;
    forall c
      ensures c in a <==> c in b
    {
      assert c in a <==> c in multiset(a);
    }
    assert forall name, v: nat :: Shared(protocols, b, name, v) <==> Shared(protocols, a, name, v);
    forall i | 0 <= i < |entries|
      ensures Best(protocols, b, entries[i])
    {
      assert Best(protocols, a, entries[i]);
    }
  }

  // ---------- finding the protocol of a code ----------

  lemma OffsetNext(entries: seq<Protocol>, n: nat)
    requires n <= |entries|
    ensures OffsetAt(entries, n) == if n == 0 then 16 else OffsetAt(entries, n - 1) + entries[n - 1].length
  {
  }

  lemma {:induction false} OffsetsGrow(entries: seq<Protocol>, i: nat, j: nat)
    requires i < j <= |entries|
    ensures OffsetAt(entries, i) + entries[i].length <= OffsetAt(entries, j)
  {
    if i + 1 < j {
      OffsetsGrow(entries, i, j - 1);
    }
  }

  ghost predicate InRange(r: Running, code: nat) {
    r.offset <= code < r.offset + r.proto.length
  }

  /** No code lies in the ranges of two protocols. */
  lemma RangesDisjoint(entries: seq<Protocol>, running: map<string, Running>, code: nat, a: string, b: string)
    requires Laid(entries, running) && a in running && b in running && InRange(running[a], code)
    requires InRange(running[b], code)
    ensures a == b
  {
    hide OffsetAt;
    var i :| 0 <= i < |entries| && entries[i].name == a;
    var j :| 0 <= j < |entries| && entries[j].name == b;
    if i < j {
      OffsetsGrow(entries, i, j);
    } else if j < i {
      OffsetsGrow(entries, j, i);
    }
  }

  /** Every code from 16 up to the end of the last range lies in the range of some protocol. */
  lemma {:induction false} RangesTile(entries: seq<Protocol>, running: map<string, Running>, code: nat, n: nat)
      returns (i: nat)
    requires Laid(entries, running) && n <= |entries| && 16 <= code < OffsetAt(entries, n)
    ensures i < n && entries[i].name in running && InRange(running[entries[i].name], code)
  {
    hide OffsetAt;
    OffsetNext(entries, n);
    if code < OffsetAt(entries, n - 1) {
      i := RangesTile(entries, running, code, n - 1);
    } else {
      i := n - 1;
    }
  }

  /** Looks the running protocols through, in any order, for the one whose range holds the code. */
  method GetProto(running: map<string, Running>, code: nat, ghost entries: seq<Protocol>) returns (r: Option<Running>)
    requires Laid(entries, running)
    ensures r.None? <==> code < 16 || code >= OffsetAt(entries, |entries|)
    ensures r.Some? ==>
              && r.value.proto in entries && r.value.proto.name in running
              && running[r.value.proto.name] == r.value && InRange(r.value, code)
    ensures forall name :: name in running && InRange(running[name], code) ==> r == Some(running[name])
  {
    hide OffsetAt, Laid;
    var todo := running.Keys;
    while todo != {}
      invariant todo <= running.Keys
      invariant forall name :: name in running && name !in todo ==> !InRange(running[name], code)
      decreases |todo|
    {
      var name :| name in todo;
      var proto := running[name];
      if code >= proto.offset && code < proto.offset + proto.proto.length {
        FoundProto(entries, running, code, name);
        return Some(proto);
      }
      todo := todo - {name};
    }
    if 16 <= code < OffsetAt(entries, |entries|) {
      ghost var i := RangesTile(entries, running, code, |entries|);
    }
    return None;
  }

  lemma FoundProto(entries: seq<Protocol>, running: map<string, Running>, code: nat, name: string)
    requires Laid(entries, running) && name in running && InRange(running[name], code)
    ensures 16 <= code < OffsetAt(entries, |entries|) && running[name].proto in entries
    ensures running[name].proto.name == name
    ensures forall other :: other in running && InRange(running[other], code) ==> other == name
  {
    hide OffsetAt;
    var i :| 0 <= i < |entries| && entries[i].name == name;
    OffsetsGrow(entries, i, |entries|);
    OffsetAboveBase(entries, i);
    forall other | other in running && InRange(running[other], code)
      ensures other == name
    {
      RangesDisjoint(entries, running, code, other, name);
    }
  }

  lemma {:induction false} OffsetAboveBase(entries: seq<Protocol>, i: nat)
    requires i <= |entries|
    ensures OffsetAt(entries, i) >= 16
  {
    if i > 0 {
      OffsetAboveBase(entries, i - 1);
    }
  }

  // ---------- two peers ----------

  function CapsOf(protocols: seq<Protocol>): (r: seq<Cap>)
    ensures |r| == |protocols| && forall i :: 0 <= i < |r| ==> r[i] == Cap(protocols[i].name, protocols[i].version)
  {
    seq(|protocols|, i requires 0 <= i < |protocols| => Cap(protocols[i].name, protocols[i].version))
  }

  /** The peers give every version of a protocol that both have the same length. */
  ghost predicate LengthsAgree(a: seq<Protocol>, b: seq<Protocol>) {
    forall p, q :: p in a && q in b && p.name == q.name && p.version == q.version ==> p.length == q.length
  }

  lemma SharedBoth(a: seq<Protocol>, b: seq<Protocol>, name: string, v: nat)
    ensures Shared(a, CapsOf(b), name, v) <==> Shared(b, CapsOf(a), name, v)
  {
    hide FirstFit;
    SharedHas(a, b, name, v);
    SharedHas(b, a, name, v);
  }

  lemma SharedHas(a: seq<Protocol>, b: seq<Protocol>, name: string, v: nat)
    ensures Shared(a, CapsOf(b), name, v) <==>
              (exists p :: p in a && Fits(p, Cap(name, v))) && (exists q :: q in b && Fits(q, Cap(name, v)))
  {
    var c := Cap(name, v);
    if c in CapsOf(b) {
      var i :| 0 <= i < |b| && CapsOf(b)[i] == c;
      assert b[i] in b && Fits(b[i], c);
    }
    if exists q :: q in b && Fits(q, c) {
      var q :| q in b && Fits(q, c);
      var i :| 0 <= i < |b| && b[i] == q;
      assert CapsOf(b)[i] == c;
    }
  }

  /** What one peer chose, the other chose too. */
  lemma BestBoth(a: seq<Protocol>, b: seq<Protocol>, p: Protocol, entries: seq<Protocol>)
    requires LengthsAgree(a, b) && Best(a, CapsOf(b), p) && Chosen(b, CapsOf(a), entries)
    ensures p in entries
  {
    hide FirstFit, NameLess;
    assert Shared(a, CapsOf(b), p.name, p.version);
    SharedBoth(a, b, p.name, p.version);
    var i :| 0 <= i < |entries| && entries[i].name == p.name;
    var q := entries[i];
    assert Best(b, CapsOf(a), q) && Shared(b, CapsOf(a), q.name, q.version);
    SharedBoth(a, b, q.name, q.version);
    FitIsOwn(a, p);
    FitIsOwn(b, q);
  }

  lemma FitIsOwn(protocols: seq<Protocol>, p: Protocol)
    requires FirstFit(protocols, Cap(p.name, p.version)) == Some(p)
    ensures p in protocols
  {
  }

  /** Two lists in the order of names with the same entries are the same list. */
  lemma {:induction false} SameList(s: seq<Protocol>, t: seq<Protocol>)
    requires NamesSorted(s) && NamesSorted(t) && forall p :: p in s <==> p in t
    ensures s == t
  {
    hide NameLess;
    if |t| > 0 {
      assert t[0] in t && t[0] in s;
    }
    if |s| > 0 {
      assert s[0] in s && s[0] in t;
      var i :| 0 <= i < |t| && t[i] == s[0];
      assert t[0] in t && t[0] in s;
      var j :| 0 <= j < |s| && s[j] == t[0];
      NameTotal(s[0].name, t[0].name);
      assert s[0] == t[0];
      TailHas(s, t);
      TailHas(t, s);
      SameList(s[1..], t[1..]);
      assert s == [s[0]] + s[1..] && t == [t[0]] + t[1..];
    }
  }

  lemma TailHas(s: seq<Protocol>, t: seq<Protocol>)
    requires |s| > 0 && |t| > 0 && s[0] == t[0] && NamesSorted(s) && forall p :: p in s ==> p in t
    ensures NamesSorted(s[1..]) && forall p :: p in s[1..] ==> p in t[1..]
  {
    hide NameLess;
    forall p | p in s[1..]
      ensures p in t[1..]
    {
      var i :| 1 <= i < |s| && s[i] == p;
      NameTotal(s[0].name, s[i].name);
      assert p in s && p in t;
      var j :| 0 <= j < |t| && t[j] == p;
      assert t[1..][j - 1] == p;
    }
  }

  /** Two peers that agree on lengths choose the same protocols and lay out the same ranges. */
  lemma PeersAgree(a: seq<Protocol>, b: seq<Protocol>, ea: seq<Protocol>, eb: seq<Protocol>, ra: map<string,
      Running>, rb: map<string, Running>)
    requires LengthsAgree(a, b) && Chosen(a, CapsOf(b), ea) && Chosen(b, CapsOf(a), eb) && Laid(ea, ra) && Laid(eb, rb)
    ensures ea == eb && ra == rb
  {
    hide FirstFit, NameLess, OffsetAt;
    forall p | p in ea
      ensures p in eb
    {
      BestBoth(a, b, p, eb);
    }
    forall p | p in eb
      ensures p in ea
    {
      BestBoth(b, a, p, ea);
    }
    SameList(ea, eb);
    LaidOnce(ea, ra, rb);
  }

  /** The layout of a list of entries is determined by it. */
  lemma LaidOnce(entries: seq<Protocol>, ra: map<string, Running>, rb: map<string, Running>)
    requires Laid(entries, ra) && Laid(entries, rb)
    ensures ra == rb
  {
    hide OffsetAt;
    forall name
      ensures name in ra <==> name in rb
      ensures name in ra && name in rb ==> ra[name] == rb[name]
    {
      LaidNames(entries, ra, name);
      LaidNames(entries, rb, name);
      if Named(entries, name) {
        var i :| 0 <= i < |entries| && entries[i].name == name;
        assert ra[name].offset == OffsetAt(entries, i) == rb[name].offset;
      }
    }
  }

  // ---------- messages ----------

  /** Shifts a code into the protocol's range; a code beyond the protocol's length is refused. */
  function WriteCode(rw: Running, code: nat): Option<nat> {
    if code >= rw.proto.length then None else Some(code + rw.offset)
  }

  /** Shifts a code back that was delivered to the protocol. */
  function ReadCode(rw: Running, code: nat): int { code - rw.offset }

  /** A code that one peer's protocol writes is delivered to the same protocol of the other peer and reads
      back unchanged. */
  lemma CodeRoundTrip(a: seq<Protocol>, b: seq<Protocol>, ea: seq<Protocol>, eb: seq<Protocol>, ra: map<string,
      Running>, rb: map<string, Running>, name: string, code: nat)
    requires LengthsAgree(a, b) && Chosen(a, CapsOf(b), ea) && Chosen(b, CapsOf(a), eb) && Laid(ea, ra) && Laid(eb, rb)
    requires name in ra
    ensures WriteCode(ra[name], code).Some? <==> code < ra[name].proto.length
    ensures code < ra[name].proto.length ==>
              var wire := WriteCode(ra[name], code).value;
              && name in rb && wire >= 16 && ReadCode(rb[name], wire) == code
              && forall other :: other in rb && InRange(rb[other], wire) <==> other == name
  {
    hide OffsetAt, Chosen, Laid, LengthsAgree;
    PeersAgree(a, b, ea, eb, ra, rb);
    if code < ra[name].proto.length { FoundProto(eb, rb, WriteCode(ra[name], code).value, name); }
  }
}
