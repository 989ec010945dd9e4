/** The dialer: which nodes are dialed next, and the history that spaces dials to the same node. */
module Dialer {
  import opened Types
  import Heap

  type Id = nat

  datatype Node = Node(id: Id, ip: nat)

  datatype Flag = Dyn | Static

  datatype Task = Dial(flag: Flag, node: Node) | Discover | WaitExpire

  /** A connection that passed the handshakes, with its flags; matching counts the shared protocols. */
  datatype Conn = Conn(id: Id, inbound: bool, dyn: bool, fixed: bool, trusted: bool, matching: nat)

  type Peers = map<Id, Conn>

  datatype PastDial = PastDial(id: Id, exp: int)

  datatype DialError = AlreadyDialing | AlreadyConnected | IsSelf | NotWhitelisted | RecentlyDialed

  const HISTORY_EXPIRATION := 30
  const FALLBACK_INTERVAL := 20

  // ---------- the dial history ----------

  predicate ExpLess(a: PastDial, b: PastDial) { a.exp < b.exp }

  predicate Contains(hist: seq<PastDial>, id: Id) {
    exists i :: 0 <= i < |hist| && hist[i].id == id
  }

  /** The entries that have not expired. */
  ghost predicate Unexpired(before: seq<PastDial>, after: seq<PastDial>, now: int) {
    forall e :: multiset(after)[e] == if e.exp < now then 0 else multiset(before)[e]
  }

  /** Drops the entries that have expired, earliest first, and keeps all others. */
  method Expire(hist: seq<PastDial>, now: int) returns (left: seq<PastDial>)
    requires Heap.IsHeap(ExpLess, hist)
    ensures Heap.IsHeap(ExpLess, left) && Unexpired(hist, left, now)
  {
    hide Heap.IsHeap;
    left := hist;
    while |left| > 0 && left[0].exp < now
      invariant Heap.IsHeap(ExpLess, left)
      invariant forall e :: multiset(left)[e] == multiset(hist)[e]
                  || (e.exp < now && multiset(left)[e] <= multiset(hist)[e])
      decreases |left|
    {
      Popped(left);
      left := Heap.Pop(ExpLess, left);
    }
    if |left| > 0 {
      Popped(left);
    }
    forall e | e in left
      ensures e.exp >= now
    {
      assert e in multiset(left);
    }
    forall e
      ensures multiset(left)[e] == if e.exp < now then 0 else multiset(hist)[e]
    {
      assert e in multiset(left) ==> e in left;
    }
  }

  lemma Popped(s: seq<PastDial>)
    requires Heap.IsHeap(ExpLess, s) && |s| > 0
    ensures Heap.IsHeap(ExpLess, Heap.Pop(ExpLess, s)) && multiset(Heap.Pop(ExpLess, s)) == multiset(s) - multiset{s[0]}
    ensures |Heap.Pop(ExpLess, s)| == |s| - 1 && forall x :: x in s ==> x.exp >= s[0].exp
  {
    Heap.PopCorrect(ExpLess, s);
    assert |multiset(Heap.Pop(ExpLess, s))| == |Heap.Pop(ExpLess, s)| && |multiset(s)| == |s| && s[0] in multiset(s);
    forall x | x in s
      ensures x.exp >= s[0].exp
    {
      assert !ExpLess(x, s[0]);
    }
  }

  lemma ContainsUnexpired(before: seq<PastDial>, after: seq<PastDial>, now: int, id: Id)
    requires Unexpired(before, after, now)
    ensures Contains(after, id) <==> exists e :: e in before && e.id == id && e.exp >= now
  {
    if Contains(after, id) {
      var i :| 0 <= i < |after| && after[i].id == id;
      assert after[i] in multiset(after) && after[i] in multiset(before) && after[i] in before;
    }
    if exists e :: e in before && e.id == id && e.exp >= now {
      var e :| e in before && e.id == id && e.exp >= now;
      assert e in multiset(before) && e in multiset(after) && e in after;
    }
  }

  // ---------- tasks in flight ----------

  predicate Clash(a: Task, b: Task) {
    (a.Dial? && b.Dial? && a.node.id == b.node.id) || (a == b && !a.Dial?)
  }

  /** The dials in flight are those of the table, one for each node; at most one lookup is in flight, and
      just when one is said to be running; at most one timer is. */
  ghost predicate InFlight(tasks: seq<Task>, dialing: map<Id, Flag>, lookupRunning: bool) {
    && (forall i, j :: 0 <= i < j < |tasks| ==> !Clash(tasks[i], tasks[j]))
    && (forall i :: 0 <= i < |tasks| && tasks[i].Dial? ==>
        tasks[i].node.id in dialing && dialing[tasks[i].node.id] == tasks[i].flag)
    && (forall id :: id in dialing ==> Dialed(tasks, id))
    && (lookupRunning <==> Discover in tasks)
  }

  ghost predicate Dialed(tasks: seq<Task>, id: Id) {
    exists i :: 0 <= i < |tasks| && tasks[i].Dial? && tasks[i].node.id == id
  }

  lemma DialedMore(tasks: seq<Task>, t: Task, id: Id)
    ensures Dialed(tasks + [t], id) <==> Dialed(tasks, id) || (t.Dial? && t.node.id == id)
  {
    var more := tasks + [t];
    assert more[|tasks|] == t;
    if Dialed(tasks, id) {
      var i :| 0 <= i < |tasks| && tasks[i].Dial? && tasks[i].node.id == id;
      assert more[i] == tasks[i];
    }
  }

  lemma InFlightDial(tasks: seq<Task>, dialing: map<Id, Flag>, lookupRunning: bool, flag: Flag, node: Node)
    requires InFlight(tasks, dialing, lookupRunning) && node.id !in dialing
    ensures InFlight(tasks + [Dial(flag, node)], dialing[node.id := flag], lookupRunning)
  {
    hide Dialed;
    var more := tasks + [Dial(flag, node)];
    forall i | 0 <= i < |tasks|
      ensures more[i] == tasks[i] && !Clash(tasks[i], Dial(flag, node))
    {
    }
    forall id | id in dialing[node.id := flag]
      ensures Dialed(more, id)
    {
      DialedMore(tasks, Dial(flag, node), id);
    }
    assert Discover in more <==> Discover in tasks;
  }

  lemma InFlightDiscover(tasks: seq<Task>, dialing: map<Id, Flag>)
    requires InFlight(tasks, dialing, false)
    ensures InFlight(tasks + [Discover], dialing, true)
  {
    hide Dialed;
    var more := tasks + [Discover];
    forall i | 0 <= i < |tasks|
      ensures more[i] == tasks[i] && !Clash(tasks[i], Discover)
    {
      assert tasks[i] in tasks;
    }
    forall id | id in dialing
      ensures Dialed(more, id)
    {
      DialedMore(tasks, Discover, id);
    }
    assert more[|tasks|] == Discover;
  }

  lemma InFlightTimer(dialing: map<Id, Flag>, lookupRunning: bool)
    requires InFlight([], dialing, lookupRunning)
    ensures InFlight([WaitExpire], dialing, lookupRunning)
  {
    forall id | id in dialing
      ensures Dialed([WaitExpire], id)
    {
      assert Dialed([], id);
    }
  }

  /** A task that is done leaves the others in flight. */
  lemma InFlightDone(tasks: seq<Task>, k: nat, dialing: map<Id, Flag>, lookupRunning: bool)
    requires InFlight(tasks, dialing, lookupRunning) && k < |tasks|
    ensures var left := if tasks[k].Dial? then dialing - {tasks[k].node.id} else dialing;
            InFlight(tasks[..k] + tasks[k + 1..], left, lookupRunning && tasks[k] != Discover)
  {
    hide Dialed;
    var rest := tasks[..k] + tasks[k + 1..];
    var left := if tasks[k].Dial? then dialing - {tasks[k].node.id} else dialing;
    forall i | 0 <= i < |rest|
      ensures rest[i] == tasks[if i < k then i else i + 1] && !Clash(rest[i], tasks[k])
    {
    }
    forall id | id in left
      ensures Dialed(rest, id)
    {
      StillDialed(tasks, k, dialing, id);
    }
    if Discover in tasks && tasks[k] != Discover {
      var i :| 0 <= i < |tasks| && tasks[i] == Discover;
      assert rest[if i < k then i else i - 1] == Discover;
    }
  }

  lemma StillDialed(tasks: seq<Task>, k: nat, dialing: map<Id, Flag>, id: Id)
    requires k < |tasks| && Dialed(tasks, id) && !(tasks[k].Dial? && tasks[k].node.id == id)
    ensures Dialed(tasks[..k] + tasks[k + 1..], id)
  {
    var i :| 0 <= i < |tasks| && tasks[i].Dial? && tasks[i].node.id == id;
    assert (tasks[..k] + tasks[k + 1..])[if i < k then i else i - 1] == tasks[i];
  }

  // ---------- who may be dialed ----------

  /** Nodes being dialed dynamically. */
  ghost function DynDialing(dialing: map<Id, Flag>): set<Id> {
    set id | id in dialing && dialing[id] == Dyn
  }

  ghost function DynPeers(peers: Peers): set<Id> {
    set id | id in peers && peers[id].dyn
  }

  lemma DynDialingAdd(dialing: map<Id, Flag>, id: Id, flag: Flag)
    requires id !in dialing
    ensures DynDialing(dialing[id := flag]) == DynDialing(dialing) + (if flag == Dyn then {id} else {})
    ensures |DynDialing(dialing[id := flag])| == |DynDialing(dialing)| + if flag == Dyn then 1 else 0
  {
    assert DynDialing(dialing[id := flag]) == DynDialing(dialing) + (if flag == Dyn then {id} else {});
  }

  lemma CountStep(marked: set<Id>, todo: set<Id>, id: Id)
    requires id in todo
    ensures |marked - (todo - {id})| == |marked - todo| + if id in marked then 1 else 0
  {
    assert marked - (todo - {id}) == (marked - todo) + if id in marked then {id} else {};
  }

  /** Counts the peers that were dialed dynamically. */
  method CountDynPeers(peers: Peers) returns (n: nat)
    ensures n == |DynPeers(peers)|
  {
    n := 0;
    var todo := peers.Keys;
    while todo != {}
      invariant todo <= peers.Keys && n == |DynPeers(peers) - todo|
      decreases |todo|
    {
      var id :| id in todo;
      CountStep(DynPeers(peers), todo, id);
      if peers[id].dyn { n := n + 1; }
      todo := todo - {id};
    }
    assert DynPeers(peers) - todo == DynPeers(peers);
  }

  /** Counts the dynamic dials in flight. */
  method CountDynDialing(dialing: map<Id, Flag>) returns (n: nat)
    ensures n == |DynDialing(dialing)|
  {
    n := 0;
    var todo := dialing.Keys;
    while todo != {}
      invariant todo <= dialing.Keys && n == |DynDialing(dialing) - todo|
      decreases |todo|
    {
      var id :| id in todo;
      CountStep(DynDialing(dialing), todo, id);
      if dialing[id] == Dyn { n := n + 1; }
      todo := todo - {id};
    }
    assert DynDialing(dialing) - todo == DynDialing(dialing);
  }

  /** A node that may be dialed: not connected, not this node, within the restriction and not dialed lately. */
  ghost predicate Eligible(n: Node, peers: Peers, self: Option<Id>, allowed: Node -> bool, hist: seq<PastDial>) {
    n.id !in peers && self != Some(n.id) && allowed(n) && !Contains(hist, n.id)
  }

  ghost predicate AllEligible(tasks: seq<Task>, peers: Peers, self: Option<Id>, allowed: Node -> bool,
      hist: seq<PastDial>) {
    forall i :: 0 <= i < |tasks| && tasks[i].Dial? ==> Eligible(tasks[i].node, peers, self, allowed, hist)
  }

  // ---------- the dial state ----------

  class DialState {
    const maxDyn: int
    const self: Option<Id>
    const allowed: Node -> bool
    var lookupRunning: bool
    var dialing: map<Id, Flag>
    var lookupBuf: seq<Node>
    var fixed: map<Id, Node>
    var hist: seq<PastDial>
    var bootnodes: seq<Node>
    var start: Option<int>

    ghost predicate Valid()
      reads this
    {
      Heap.IsHeap(ExpLess, hist) && forall id :: id in fixed ==> fixed[id].id == id
    }

    constructor (fixed: seq<Node>, bootnodes: seq<Node>, self: Option<Id>, allowed: Node -> bool, maxDyn: int)
      ensures Valid() && InFlight([], dialing, lookupRunning) && dialing == map[] && hist == []
      ensures this.maxDyn == maxDyn && this.self == self && this.allowed == allowed
      ensures forall n :: n in fixed ==> n.id in this.fixed
    {
      this.maxDyn, this.self, this.allowed := maxDyn, self, allowed;
      lookupRunning, dialing, lookupBuf, hist, start := false, map[], [], [], None;
      this.bootnodes, this.fixed := bootnodes, map[];
      new;
      for i := 0 to |fixed|
        invariant Valid() && hist == [] && dialing == map[] && !lookupRunning
        invariant forall k :: 0 <= k < i ==> fixed[k].id in this.fixed
      {
        AddStatic(fixed[i]);
      }
    }

    method AddStatic(n: Node)
      requires Valid()
      modifies this`fixed
      ensures Valid() && fixed == old(fixed)[n.id := n]
    {
      fixed := fixed[n.id := n];
    }

    method RemoveStatic(n: Node)
      requires Valid()
      modifies this`fixed
      ensures Valid() && fixed == old(fixed) - {n.id}
    {
      fixed := fixed - {n.id};
    }

    function CheckDial(n: Node, peers: Peers): (r: Option<DialError>)
      reads this
      ensures r.None? <==> n.id !in dialing && Eligible(n, peers, self, allowed, hist)
      ensures r == Some(IsSelf) ==> self == Some(n.id)
      ensures r == Some(NotWhitelisted) ==> !allowed(n)
      ensures r.Some? && n.id !in dialing && n.id !in peers ==>
                (r == Some(RecentlyDialed) <==> self != Some(n.id) && allowed(n))
    {
      if n.id in dialing then Some(AlreadyDialing)
      else if n.id in peers then Some(AlreadyConnected)
      else if self == Some(n.id) then Some(IsSelf)
      else if !allowed(n) then Some(NotWhitelisted)
      else if Contains(hist, n.id) then Some(RecentlyDialed)
      else None
    }

    /** The new tasks go with those in flight and dial only nodes that may be dialed. */
    ghost predicate Plan(base: seq<Task>, tasks: seq<Task>, peers: Peers)
      reads this
    {
      InFlight(base + tasks, dialing, lookupRunning) && AllEligible(tasks, peers, self, allowed, hist)
    }

    /** Dials still wanted: the limit less the dynamic peers and the dynamic dials in flight. */
    ghost function Wanted(peers: Peers): int
      reads this
    {
      maxDyn - |DynPeers(peers)| - |DynDialing(dialing)|
    }

    method AddDial(flag: Flag, n: Node, peers: Peers, tasks: seq<Task>, ghost base: seq<Task>)
        returns (ok: bool, more: seq<Task>)
      requires Plan(base, tasks, peers)
      modifies this`dialing
      ensures Plan(base, more, peers) && (ok <==> old(CheckDial(n, peers)).None?)
      ensures dialing == if ok then old(dialing)[n.id := flag] else old(dialing)
      ensures more == if ok then tasks + [Dial(flag, n)] else tasks
      ensures Wanted(peers) == old(Wanted(peers)) - if ok && flag == Dyn then 1 else 0
      ensures flag == Static ==> DynDialing(dialing) == old(DynDialing(dialing))
    {
      hide InFlight, Contains;
      if CheckDial(n, peers).Some? { return false, tasks; }
      InFlightDial(base + tasks, dialing, lookupRunning, flag, n);
      assert base + tasks + [Dial(flag, n)] == base + (tasks + [Dial(flag, n)]);
      DynDialingAdd(dialing, n.id, flag);
      dialing := dialing[n.id := flag];
      return true, tasks + [Dial(flag, n)];
    }

    /** A node is being dialed, connected, or was dialed lately and may be dialed again. */
    ghost predicate StaticSeen(id: Id, peers: Peers)
      requires id in fixed
      reads this
    {
      id in dialing || id in peers || (Contains(hist, id) && self != Some(id) && allowed(fixed[id]))
    }

    ghost predicate StaticSeenTo(ids: set<Id>, peers: Peers)
      reads this
    {
      forall id :: id in ids && id in fixed ==> StaticSeen(id, peers)
    }

    /** Dials the static nodes that may be dialed, and forgets those that never may. */
    method DialStatic(peers: Peers, ghost base: seq<Task>) returns (tasks: seq<Task>)
      requires Valid() && Plan(base, [], peers)
      modifies this`dialing, this`fixed
      ensures Valid() && Plan(base, tasks, peers) && StaticSeenTo(fixed.Keys, peers)
      ensures DynDialing(dialing) == old(DynDialing(dialing)) && old(dialing).Keys <= dialing.Keys
      ensures forall id :: id in fixed ==> id in old(fixed) && fixed[id] == old(fixed)[id]
      ensures forall id :: id in old(fixed) && id !in fixed ==> self == Some(id) || !allowed(old(fixed)[id])
    {
      hide InFlight, Contains, AllEligible, Heap.IsHeap, DynDialing;
      tasks := [];
      var todo := fixed.Keys;
      while todo != {}
        invariant Valid() && Plan(base, tasks, peers) && todo <= old(fixed).Keys
        invariant forall id :: id in todo ==> id in fixed
        invariant forall id :: id in fixed && id !in todo ==> StaticSeen(id, peers)
        invariant DynDialing(dialing) == old(DynDialing(dialing)) && old(dialing).Keys <= dialing.Keys
        invariant forall id :: id in fixed ==> id in old(fixed) && fixed[id] == old(fixed)[id]
        invariant forall id :: id in old(fixed) && id !in fixed ==> self == Some(id) || !allowed(old(fixed)[id])
        decreases |todo|
      {
        var id :| id in todo;
        todo := todo - {id};
        var n := fixed[id];
        var err := CheckDial(n, peers);
        if err == Some(NotWhitelisted) || err == Some(IsSelf) {
          fixed := fixed - {n.id};
        } else if err.None? {
          var ok, more := AddDial(Static, n, peers, tasks, base);
          tasks := more;
        }
      }
    }

    /** With no peers for a while, tries the next bootnode. */
    method DialBoot(need: int, now: int, peers: Peers, tasks: seq<Task>, ghost base: seq<Task>) returns (left: int,
        more: seq<Task>)
      requires start.Some? && Plan(base, tasks, peers) && need == Wanted(peers)
      modifies this`dialing, this`bootnodes
      ensures Plan(base, more, peers) && left == Wanted(peers) && (left >= 0 || dialing == old(dialing))
      ensures old(dialing).Keys <= dialing.Keys
      ensures if peers == map[] && old(bootnodes) != [] && need > 0 && now - start.value > 20
              then bootnodes == old(bootnodes)[1..] + [old(bootnodes)[0]] && SeenTo([old(bootnodes)[0]], peers)
              else bootnodes == old(bootnodes) && more == tasks && dialing == old(dialing)
    {
      hide InFlight, Contains, AllEligible, DynDialing, DynPeers;
      left, more := need, tasks;
      if |peers| == 0 && |bootnodes| > 0 && need > 0 && now - start.value > FALLBACK_INTERVAL {
        var bootnode := bootnodes[0];
        assert bootnodes == [bootnode] + bootnodes[1..];
        bootnodes := bootnodes[1..] + [bootnode];
        var ok;
        ok, more := AddDial(Dyn, bootnode, peers, tasks, base);
        if ok { left := left - 1; }
      }
    }

    /** Uses random nodes of the table for half of the dials wanted. */
    method DialRandom(need: int, random: seq<Node>, peers: Peers, tasks: seq<Task>,
        ghost base: seq<Task>) returns (left: int, more: seq<Task>)
      requires Plan(base, tasks, peers) && need == Wanted(peers)
      modifies this`dialing
      ensures Plan(base, more, peers) && left == Wanted(peers) && (left >= 0 || dialing == old(dialing))
      ensures old(dialing).Keys <= dialing.Keys
      ensures need > 0 ==> left >= need - need / 2
      ensures forall i :: 0 <= i < need / 2 && i < |random| ==> SeenTo([random[i]], peers)
    {
      hide InFlight, Contains, AllEligible, DynDialing, DynPeers;
      left, more := need, tasks;
      var candidates := need / 2;
      if candidates > 0 {
        var i := 0;
        while i < candidates && i < |random|
          invariant Plan(base, more, peers) && left == Wanted(peers) && 0 <= i <= candidates && left >= need - i
          invariant old(dialing).Keys <= dialing.Keys
          invariant i <= |random| && forall k :: 0 <= k < i ==> SeenTo([random[k]], peers)
        {
          var ok;
          ok, more := AddDial(Dyn, random[i], peers, more, base);
          if ok { left := left - 1; }
          i := i + 1;
        }
      }
    }

    /** Nodes that are dialed, connected or must not be dialed. */
    ghost predicate SeenTo(nodes: seq<Node>, peers: Peers)
      reads this
    {
      forall i :: 0 <= i < |nodes| ==> nodes[i].id in dialing || !Eligible(nodes[i], peers, self, allowed, hist)
    }

    /** Dials nodes that lookups found, and takes those tried out of the buffer. */
    method DialFound(need: int, peers: Peers, tasks: seq<Task>, ghost base: seq<Task>) returns (left: int,
        more: seq<Task>, ghost tried: seq<Node>)
      requires Plan(base, tasks, peers) && need == Wanted(peers)
      modifies this`dialing, this`lookupBuf
      ensures Plan(base, more, peers) && left == Wanted(peers) && (left >= 0 || dialing == old(dialing))
      ensures old(dialing).Keys <= dialing.Keys
      ensures tried + lookupBuf == old(lookupBuf) && SeenTo(tried, peers) && (lookupBuf == [] || left <= 0)
    {
      hide InFlight, Contains, AllEligible, DynDialing, DynPeers, Eligible;
      left, more := need, tasks;
      var i := 0;
      while i < |lookupBuf| && left > 0
        invariant Plan(base, more, peers) && left == Wanted(peers) && (left >= 0 || dialing == old(dialing))
        invariant 0 <= i <= |lookupBuf| && SeenTo(lookupBuf[..i], peers) && lookupBuf == old(lookupBuf)
        invariant old(dialing).Keys <= dialing.Keys
      {
        var ok;
        ok, more := AddDial(Dyn, lookupBuf[i], peers, more, base);
        assert lookupBuf[i].id in dialing || !Eligible(lookupBuf[i], peers, self, allowed, hist);
        assert lookupBuf[..i + 1] == lookupBuf[..i] + [lookupBuf[i]];
        if ok { left := left - 1; }
        i := i + 1;
      }
      tried := lookupBuf[..i];
      lookupBuf := lookupBuf[i..];
    }

    /** Adds a lookup when candidates are short, and a timer when nothing else would happen. */
    method AddIdle(need: int, nRunning: nat, tasks: seq<Task>, peers: Peers, ghost base: seq<Task>)
        returns (more: seq<Task>)
      requires Plan(base, tasks, peers) && nRunning == |base|
      modifies this`lookupRunning
      ensures Plan(base, more, peers)
      ensures more == tasks + (if |lookupBuf| < need && !old(lookupRunning) then [Discover] else [])
                      + (if nRunning == 0 && tasks == [] && (|lookupBuf| >= need || old(lookupRunning)) && hist != []
                         then [WaitExpire] else [])
      ensures |lookupBuf| < need ==> lookupRunning
    {
      more := tasks;
      if |lookupBuf| < need && !lookupRunning {
        InFlightDiscover(base + tasks, dialing);
        assert base + tasks + [Discover] == base + (tasks + [Discover]);
        lookupRunning := true;
        more := tasks + [Discover];
      }
      if nRunning == 0 && |more| == 0 && |hist| > 0 {
        assert base + more == [];
        InFlightTimer(dialing, lookupRunning);
        assert base + [WaitExpire] == [WaitExpire];
        more := [WaitExpire];
      }
    }

    /** Computes the tasks to start now.  Together with those in flight they dial no node twice; they dial
        no connected node, nor one whose last dial ended within the last thirty seconds; static nodes are
        all seen to; and if they dial dynamically, dynamic peers and dials stay within the limit. */
    method NewTasks(nRunning: nat, peers: Peers, now: int, random: seq<Node>, ghost base: seq<Task>)
        returns (tasks: seq<Task>)
      requires Valid() && InFlight(base, dialing, lookupRunning) && nRunning == |base|
      modifies this
      ensures Valid() && Plan(base, tasks, peers) && Unexpired(old(hist), hist, now)
      ensures DynDialing(dialing) == old(DynDialing(dialing)) || |DynPeers(peers)| + |DynDialing(dialing)| <= maxDyn
      ensures StaticSeenTo(fixed.Keys, peers) && (nRunning == 0 && tasks == [] ==> hist == [])
      ensures |lookupBuf| < Wanted(peers) ==> lookupRunning
      ensures lookupBuf == [] || Wanted(peers) <= 0
      ensures start == if old(start).None? then Some(now) else old(start)
      ensures bootnodes != old(bootnodes) ==> peers == map[] && now - start.value > 20
      ensures old(dialing).Keys <= dialing.Keys
    {
      hide InFlight, Contains, AllEligible, Heap.IsHeap, DynDialing, DynPeers, Unexpired, Eligible, SeenTo;
      if start.None? { start := Some(now); }
      var dynPeers := CountDynPeers(peers);
      var dynDials := CountDynDialing(dialing);
      var need := maxDyn - dynPeers - dynDials;
      hist := Expire(hist, now);
      NothingPlanned(this, base, peers);
      tasks := DialStatic(peers, base);
      ghost var dials := dialing;
      need, tasks := DialBoot(need, now, peers, tasks, base);
      need, tasks := DialRandom(need, random, peers, tasks, base);
      ghost var tried;
      need, tasks, tried := DialFound(need, peers, tasks, base);
      tasks := AddIdle(need, nRunning, tasks, peers, base);
    }

    /** A dial that is done is remembered for thirty seconds; found nodes go to the buffer. */
    method TaskDone(t: Task, now: int, results: seq<Node>, ghost tasks: seq<Task>, ghost k: nat)
      requires Valid() && InFlight(tasks, dialing, lookupRunning) && k < |tasks| && tasks[k] == t
      modifies this`hist, this`dialing, this`lookupRunning, this`lookupBuf
      ensures Valid() && InFlight(tasks[..k] + tasks[k + 1..], dialing, lookupRunning)
      ensures DynDialing(dialing) <= old(DynDialing(dialing))
      ensures t.Dial? ==> multiset(hist) == multiset(old(hist)) + multiset{PastDial(t.node.id, now + 30)}
      ensures t.Dial? ==> dialing == old(dialing) - {t.node.id}
      ensures !t.Dial? ==> hist == old(hist) && dialing == old(dialing)
      ensures lookupBuf == if t == Discover then old(lookupBuf) + results else old(lookupBuf)
    {
      hide InFlight, Heap.IsHeap;
      InFlightDone(tasks, k, dialing, lookupRunning);
      match t
      case Dial(_, node) =>
        Heap.PushCorrect(ExpLess, hist, PastDial(node.id, now + HISTORY_EXPIRATION));
        hist := Heap.Push(ExpLess, hist, PastDial(node.id, now + HISTORY_EXPIRATION));
        dialing := dialing - {node.id};
      case Discover =>
        lookupRunning := false;
        lookupBuf := lookupBuf + results;
      case WaitExpire =>
    }
  }

  lemma NothingPlanned(d: DialState, base: seq<Task>, peers: Peers)
    requires InFlight(base, d.dialing, d.lookupRunning)
    ensures d.Plan(base, [], peers)
  {
    assert base + [] == base;
  }

  /** A node that was dialed until some time is dialed again only after the history forgot it. */
  lemma RedialSpacing(before: seq<PastDial>, after: seq<PastDial>, now: int, tasks: seq<Task>, peers: Peers,
      self: Option<Id>, allowed: Node -> bool, i: nat, e: PastDial)
    requires Unexpired(before, after, now) && AllEligible(tasks, peers, self, allowed, after)
    requires i < |tasks| && tasks[i].Dial? && e in before && e.id == tasks[i].node.id
    ensures e.exp < now
  {
    assert Eligible(tasks[i].node, peers, self, allowed, after);
    ContainsUnexpired(before, after, now, e.id);
  }
}
