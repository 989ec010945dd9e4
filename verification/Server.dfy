/** The main loop of the peer-to-peer server: scheduling of tasks, and the peers it admits and drops. */
module Server {
  import opened Types
  import opened Dialer

  const MAX_ACTIVE_TASKS := 16
  const DEFAULT_DIAL_RATIO := 3

  datatype Refusal = UselessPeer | TooManyPeers | AlreadyPeer | SelfPeer

  /** The limits of a server. */
  datatype Config = Config(maxPeers: nat, dialRatio: nat, noDial: bool, hasProtocols: bool, self: Id, trusted: set<Id>)

  function MaxDialed(c: Config): (n: nat)
    ensures n <= c.maxPeers
  {
    if c.noDial then 0
    else
      var r := if c.dialRatio == 0 then DEFAULT_DIAL_RATIO else c.dialRatio;
      Quotient(c.maxPeers, r);
      c.maxPeers / r
  }

  lemma Quotient(a: nat, r: nat)
    requires r > 0
    ensures 0 <= a / r <= a
  {
    var q, m := a / r, a % r;
    assert a == r * q + m && 0 <= m < r;
    if q < 0 {
      Scaled(r, q, -1);
    } else {
      Scaled(q, 1, r);
    }
  }

  lemma Scaled(x: nat, a: int, b: int)
    requires a <= b
    ensures x * a <= x * b
  {
  }

  function MaxInbound(c: Config): nat { c.maxPeers - MaxDialed(c) }

  /** One in so many of the peers may be dialed, one in three unless configured, and none when dialing is off; the rest
      is for those that come in. */
  lemma DialedShare(c: Config)
    ensures MaxDialed(c) + MaxInbound(c) == c.maxPeers
    ensures var r := if c.dialRatio == 0 then 3 else c.dialRatio;
            if c.noDial then MaxDialed(c) == 0 else r * MaxDialed(c) <= c.maxPeers < r * (MaxDialed(c) + 1)
  {
    if !c.noDial {
      var r := if c.dialRatio == 0 then 3 else c.dialRatio;
      assert c.maxPeers == r * (c.maxPeers / r) + c.maxPeers % r;
    }
  }

  // ---------- sets of peers ----------

  ghost function Inbound(peers: Peers): set<Id> { set id | id in peers && peers[id].inbound }

  ghost function UntrustedInbound(peers: Peers): set<Id> {
    set id | id in peers && peers[id].inbound && !peers[id].trusted
  }

  /** Peers that are neither trusted nor static. */
  ghost function Ordinary(peers: Peers): set<Id> { set id | id in peers && !peers[id].trusted && !peers[id].fixed }

  lemma SubsetSize(a: set<Id>, b: set<Id>)
    requires a <= b
    ensures |a| <= |b|
  {
    assert b == a + (b - a);
  }

  // ---------- the checks ----------

  function EncHandshakeChecks(config: Config, peers: Peers, inboundCount: int, c: Conn): Option<Refusal> {
    if !c.trusted && !c.fixed && |peers| >= config.maxPeers then Some(TooManyPeers)
    else if !c.trusted && c.inbound && inboundCount >= MaxInbound(config) then Some(TooManyPeers)
    else if c.id in peers then Some(AlreadyPeer)
    else if c.id == config.self then Some(SelfPeer)
    else None
  }

  function ProtoHandshakeChecks(config: Config, peers: Peers, inboundCount: int, c: Conn): Option<Refusal> {
    if config.hasProtocols && c.matching == 0 then Some(UselessPeer)
        else EncHandshakeChecks(config, peers, inboundCount, c)
  }

  /** What a connection must be to be admitted, and why it is refused when it is not. */
  lemma ChecksAdmit(config: Config, peers: Peers, inboundCount: int, c: Conn)
    ensures var r := ProtoHandshakeChecks(config, peers, inboundCount, c);
            && (r.None? <==> (config.hasProtocols ==> c.matching > 0) && Fits(config, peers, inboundCount, c)
                             && c.id !in peers && c.id != config.self)
            && (r == Some(UselessPeer) <==> config.hasProtocols && c.matching == 0)
            && (r == Some(TooManyPeers) ==> !Fits(config, peers, inboundCount, c))
            && (r == Some(AlreadyPeer) ==> c.id in peers) && (r == Some(SelfPeer) ==> c.id == config.self)
  {
    DialedShare(config);
    hide MaxDialed, MaxInbound;
  }

  /** Trusted connections always fit, static ones unless they come in, and others while there is room. */
  ghost predicate Fits(config: Config, peers: Peers, inboundCount: int, c: Conn) {
    c.trusted || ((c.fixed || |peers| < config.maxPeers)
                  && (!c.inbound || inboundCount < config.maxPeers - MaxDialed(config)))
  }

  // ---------- limits on the peers ----------

  /** The count of inbound peers is right, and the limits hold for untrusted inbound and for ordinary peers. */
  ghost predicate Limited(config: Config, peers: Peers, inboundCount: int) {
    && inboundCount == |Inbound(peers)|
    && |UntrustedInbound(peers)| <= MaxInbound(config) && |Ordinary(peers)| <= config.maxPeers
    && config.self !in peers
    && forall id :: id in peers ==> peers[id].id == id && (peers[id].trusted <==> id in config.trusted)
  }

  lemma InboundCounted(config: Config, peers: Peers, inboundCount: int)
    requires Limited(config, peers, inboundCount)
    ensures inboundCount == |Inbound(peers)|
  {
  }

  lemma InboundAdmitted(peers: Peers, c: Conn)
    requires c.id !in peers
    ensures |Inbound(peers[c.id := c])| == |Inbound(peers)| + if c.inbound then 1 else 0
  {
    assert Inbound(peers[c.id := c]) == Inbound(peers) + if c.inbound then {c.id} else {};
  }

  lemma UntrustedAdmitted(peers: Peers, c: Conn)
    requires c.id !in peers
    ensures |UntrustedInbound(peers[c.id := c])| == |UntrustedInbound(peers)| + if c.inbound && !c.trusted then 1 else 0
    ensures |UntrustedInbound(peers)| <= |Inbound(peers)|
  {
    SubsetSize(UntrustedInbound(peers), Inbound(peers));
    assert UntrustedInbound(peers[c.id := c]) ==
           UntrustedInbound(peers) + if c.inbound && !c.trusted then {c.id} else {};
  }

  lemma OrdinaryAdmitted(peers: Peers, c: Conn)
    requires c.id !in peers
    ensures |Ordinary(peers[c.id := c])| == |Ordinary(peers)| + if !c.trusted && !c.fixed then 1 else 0
    ensures |Ordinary(peers)| <= |peers|
  {
    SubsetSize(Ordinary(peers), peers.Keys);
    assert Ordinary(peers[c.id := c]) == Ordinary(peers) + if !c.trusted && !c.fixed then {c.id} else {};
  }

  /** A connection that passes the checks keeps the limits. */
  lemma AdmittedLimited(config: Config, peers: Peers, inboundCount: int, c: Conn)
    requires Limited(config, peers, inboundCount) && ProtoHandshakeChecks(config, peers, inboundCount, c).None?
    requires c.trusted <==> c.id in config.trusted
    ensures Limited(config, peers[c.id := c], if c.inbound then inboundCount + 1 else inboundCount)
  {
    hide MaxInbound, Inbound, UntrustedInbound, Ordinary;
    InboundAdmitted(peers, c);
    UntrustedAdmitted(peers, c);
    OrdinaryAdmitted(peers, c);
  }

  lemma DroppedLimited(config: Config, peers: Peers, inboundCount: int, id: Id)
    requires Limited(config, peers, inboundCount) && id in peers
    ensures Limited(config, peers - {id}, if peers[id].inbound then inboundCount - 1 else inboundCount)
  {
    hide MaxInbound;
    var less := peers - {id};
    assert Inbound(less) == Inbound(peers) - {id};
    SubsetSize(UntrustedInbound(less), UntrustedInbound(peers));
    SubsetSize(Ordinary(less), Ordinary(peers));
  }

  /** Nodes connected or being connected dynamically. */
  ghost function Dynamic(peers: Peers, dialing: map<Id, Flag>): set<Id> { DynPeers(peers) + DynDialing(dialing) }

  /** A dynamic dial that succeeds was counted already. */
  lemma DynamicAdmitted(peers: Peers, dialing: map<Id, Flag>, c: Conn)
    requires c.id !in peers && (c.dyn ==> c.id in DynDialing(dialing))
    ensures Dynamic(peers[c.id := c], dialing) == Dynamic(peers, dialing)
  {
  }

  lemma UnionSize(a: set<Id>, b: set<Id>)
    ensures |a + b| <= |a| + |b|
  {
    assert a + b == a + (b - a);
    SubsetSize(b - a, b);
  }

  // ---------- the loop ----------

  datatype Event =
    | AddStatic(node: Node) | RemoveStatic(node: Node) | Finished(task: Task, now: int, results: seq<Node>)
    | Handshaken(conn: Conn) | Added(conn: Conn) | Dropped(id: Id)

  /** A connection carries the trusted flag just when its node is trusted. */
  predicate Flagged(config: Config, c: Conn) { c.trusted <==> c.id in config.trusted }

  /** A connection comes either from outside or from a dial that still runs. */
  predicate Arrives(running: seq<Task>, c: Conn) {
    if c.inbound then !c.dyn && !c.fixed
    else
      c.dyn != c.fixed
      && exists i :: 0 <= i < |running| && running[i].Dial? && running[i].node.id == c.id
          && running[i].flag == if c.dyn then Dyn else Static
  }

  /** What the loop may receive with these tasks running and these peers. */
  predicate Possible(e: Event, config: Config, running: seq<Task>, peers: Peers) {
    match e
    case AddStatic(_) => true
    case RemoveStatic(_) => true
    case Finished(t, _, _) => t in running
    case Handshaken(_) => true
    case Added(c) => Arrives(running, c) && Flagged(config, c)
    case Dropped(id) => id in peers
  }

  class Server {
    const config: Config
    const dial: DialState
    var peers: Peers
    var inboundCount: int
    var running: seq<Task>
    var queued: seq<Task>

    /** Every task in flight is one of the dialer's, at most sixteen run, the peers are within the limits,
        and so are the nodes connected or being connected dynamically. */
    ghost predicate Valid()
      reads this, dial
    {
      && dial.Valid() && dial.maxDyn == MaxDialed(config)
      && InFlight(running + queued, dial.dialing, dial.lookupRunning) && |running| <= 16
      && Limited(config, peers, inboundCount) && |Dynamic(peers, dial.dialing)| <= MaxDialed(config)
    }

    constructor (config: Config, fixed: seq<Node>, bootnodes: seq<Node>, table: bool, allowed: Node -> bool)
      ensures Valid() && fresh(dial) && this.config == config && peers == map[]
    {
      this.config := config;
      dial := new DialState(fixed, bootnodes, if table then Some(config.self) else None, allowed, MaxDialed(config));
      peers, inboundCount, running, queued := map[], 0, [], [];
      new;
      assert running + queued == [];
      assert Inbound(peers) == {} && UntrustedInbound(peers) == {} && Ordinary(peers) == {}
          && Dynamic(peers, dial.dialing) == {};
    }

    /** Starts tasks as long as fewer than sixteen run. */
    method StartTasks(ts: seq<Task>) returns (rest: seq<Task>)
      requires |running| <= 16
      modifies this`running
      ensures running + rest == old(running) + ts && old(running) <= running && |running| <= 16
      ensures |running| < 16 ==> rest == []
    {
      var i := 0;
      while |running| < MAX_ACTIVE_TASKS && i < |ts|
        invariant 0 <= i <= |ts| && |running| <= MAX_ACTIVE_TASKS && running == old(running) + ts[..i]
      {
        running := running + [ts[i]];
        i := i + 1;
      }
      rest := ts[i..];
    }

    /** Starts queued tasks first and then asks the dialer for more. */
    method ScheduleTasks(now: int, random: seq<Node>)
      requires Valid()
      modifies this`running, this`queued, dial
      ensures Valid()
      ensures |running| < 16 ==> queued == [] && dial.StaticSeenTo(dial.fixed.Keys, peers)
      ensures |running| < 16 ==> (|dial.lookupBuf| < dial.Wanted(peers) ==> dial.lookupRunning)
                                 && (dial.lookupBuf == [] || dial.Wanted(peers) <= 0)
      ensures Scheduled(old(View()), View())
    {
      hide InFlight, Limited, MaxDialed, DynPeers, DynDialing;
      var rest := StartTasks(queued);
      queued := rest;
      if |running| < MAX_ACTIVE_TASKS {
        ghost var base := running + queued;
        assert base == running;
        ghost var before := dial.dialing;
        var tasks := dial.NewTasks(|running| + |queued|, peers, now, random, base);
        WithinDynamicLimit(peers, before, dial.dialing, MaxDialed(config));
        rest := StartTasks(tasks);
        queued := queued + rest;
        assert running + queued == base + tasks;
      }
    }

    /** Takes a task out of the running ones. */
    method DelTask(t: Task) returns (ghost k: nat)
      requires t in running
      modifies this`running
      ensures k < |old(running)| && old(running)[k] == t && running == old(running)[..k] + old(running)[k + 1..]
    {
      var i := 0;
      while running[i] != t
        invariant 0 <= i < |running| && t !in running[..i]
        decreases |running| - i
      {
        i := i + 1;
      }
      k := i;
      running := running[..i] + running[i + 1..];
    }

    /** A finished dial, lookup or timer: the dialer is told and it leaves the running ones. */
    method FinishTask(t: Task, now: int, results: seq<Node>)
      requires Valid() && t in running
      modifies this`running, dial`hist, dial`dialing, dial`lookupRunning, dial`lookupBuf
      ensures Valid() && t !in running && queued == old(queued)
      ensures multiset(running) == multiset(old(running)) - multiset{t} && |running| == |old(running)| - 1
      ensures dial.dialing == if t.Dial? then old(dial.dialing) - {t.node.id} else old(dial.dialing)
      ensures multiset(dial.hist) ==
              multiset(old(dial.hist)) + if t.Dial? then multiset{PastDial(t.node.id, now + 30)} else multiset{}
      ensures dial.lookupBuf == if t == Discover then old(dial.lookupBuf) + results else old(dial.lookupBuf)
    {
      hide InFlight, Limited, MaxDialed, DynPeers, DynDialing;
      ghost var k := IndexOf(running, t);
      ghost var tasks := running + queued;
      ghost var before := dial.dialing;
      dial.TaskDone(t, now, results, tasks, k);
      SubsetSize(Dynamic(peers, dial.dialing), Dynamic(peers, before));
      ghost var at := DelTask(t);
      TaskOnce(tasks, before, old(dial.lookupRunning), at, k);
      assert tasks[..k] + tasks[k + 1..] == running + queued;
      if t in running {
        ghost var j := IndexOf(running, t);
        TaskOnce(tasks, before, old(dial.lookupRunning), if j < k then j else j + 1, k);
      }
      OneOut(old(running), at);
    }

    /** Flags a connection whose encryption handshake is done as trusted if its node is, and checks it.  A
        trusted node is never refused for the limits; a refusal here would be repeated at the end of the
        protocol handshake; and what passes here is admitted then, if it shares a protocol and nothing
        changed meanwhile. */
    method PostHandshake(c: Conn) returns (flagged: Conn, r: Option<Refusal>)
      ensures (!c.trusted ==> Flagged(config, flagged)) && flagged == c.(trusted := flagged.trusted)
      ensures Arrives(running, c) ==> Arrives(running, flagged)
      ensures c.id in config.trusted ==> r != Some(TooManyPeers)
      ensures r.Some? ==> ProtoHandshakeChecks(config, peers, inboundCount, flagged).Some?
      ensures r.None? && (config.hasProtocols ==> c.matching > 0) ==>
                ProtoHandshakeChecks(config, peers, inboundCount, flagged).None?
    {
      flagged := if c.id in config.trusted then c.(trusted := true) else c;
      r := EncHandshakeChecks(config, peers, inboundCount, flagged);
    }

    /** Admits a connection that passed the protocol handshake, if the checks allow. */
    method AddPeer(c: Conn) returns (r: Option<Refusal>)
      requires Valid() && Arrives(running, c) && Flagged(config, c)
      modifies this`peers, this`inboundCount
      ensures Valid() && r == old(ProtoHandshakeChecks(config, peers, inboundCount, c))
      ensures r.None? <==> (config.hasProtocols ==> c.matching > 0) && old(Fits(config, peers, inboundCount, c))
                           && c.id !in old(peers) && c.id != config.self
      ensures c.id in config.trusted ==> r != Some(TooManyPeers)
      ensures peers == if r.None? then old(peers)[c.id := c] else old(peers)
    {
      hide Limited, MaxDialed, InFlight, DynDialing, Dynamic, MaxInbound;
      ChecksAdmit(config, peers, inboundCount, c);
      r := ProtoHandshakeChecks(config, peers, inboundCount, c);
      if r.None? {
        AdmittedLimited(config, peers, inboundCount, c);
        if c.dyn {
          DialedDyn(running, queued, dial.dialing, dial.lookupRunning, c.id);
        }
        DynamicAdmitted(peers, dial.dialing, c);
        peers := peers[c.id := c];
        if c.inbound { inboundCount := inboundCount + 1; }
      }
    }

    /** A peer disconnected. */
    method DelPeer(id: Id)
      requires Valid() && id in peers
      modifies this`peers, this`inboundCount
      ensures Valid() && peers == old(peers) - {id}
    {
      hide Limited, MaxDialed, InFlight;
      DroppedLimited(config, peers, inboundCount, id);
      SubsetSize(Dynamic(peers - {id}, dial.dialing), Dynamic(peers, dial.dialing));
      if peers[id].inbound { inboundCount := inboundCount - 1; }
      peers := peers - {id};
    }

    /** What a run of the loop can be seen by. */
    ghost function View(): View
      reads this, dial
    {
      Seen(peers, running, queued, dial.dialing, dial.fixed, dial.hist, dial.lookupBuf)
    }

    method Handle(e: Event)
      requires Valid() && Possible(e, config, running, peers)
      modifies this, dial
      ensures Valid() && Handled(e, config, old(View()), View())
    {
      hide InFlight, Limited, MaxDialed, MaxInbound, Dynamic, Fits, Inbound, ProtoHandshakeChecks;
      InboundCounted(config, peers, inboundCount);
      match e
      case AddStatic(n) => dial.AddStatic(n);
      case RemoveStatic(n) => dial.RemoveStatic(n);
      case Finished(t, now, results) => FinishTask(t, now, results);
      case Handshaken(c) => var flagged, r := PostHandshake(c);
      case Added(c) => var r := AddPeer(c);
      case Dropped(id) => DelPeer(id);
    }

    /** Every run of the loop, whatever it receives and whatever nodes the table offers, keeps the limits, and goes on
        from what it has scheduled by what it receives. */
    method Run(events: seq<Event>, times: seq<int>, random: seq<seq<Node>>) returns (ghost log: seq<Moment>)
      requires Valid() && |times| == |random| == |events|
      modifies this, dial
      ensures Valid() && |log| == |events| && Follows(log, old(View()), View())
      ensures forall i :: 0 <= i < |events| ==> Received(events[i], config, log[i])
    {
      hide Valid, Limited, InFlight, MaxDialed, Handled, Follows, Scheduled;
      log := [];
      FollowsNothing(View());
      for i := 0 to |events|
        invariant Valid() && |log| == i && Follows(log, old(View()), View())
        invariant forall k :: 0 <= k < i ==> Received(events[k], config, log[k])
      {
        ghost var before := View();
        ScheduleTasks(times[i], random[i]);
        ghost var scheduled := View();
        if Possible(events[i], config, running, peers) {
          Handle(events[i]);
        }
        FollowsMore(log, old(View()), before, Moment(scheduled, View()));
        log := log + [Moment(scheduled, View())];
      }
    }
  }

  /** What a server shows of its state. */
  datatype View = Seen(peers: Peers, running: seq<Task>, queued: seq<Task>, dialing: map<Id, Flag>,
      fixed: map<Id, Node>, hist: seq<PastDial>, found: seq<Node>)

  /** One turn of the loop: after scheduling, and after what it then received. */
  datatype Moment = Moment(scheduled: View, after: View)

  /** Scheduling starts tasks in order, drops none, and leaves the peers alone; with fewer than sixteen running none
      waits. */
  ghost predicate Scheduled(v: View, w: View) {
    && w.peers == v.peers && v.running <= w.running && v.running + v.queued <= w.running + w.queued
    && |w.running| <= 16 && (|w.running| < 16 ==> w.queued == [])
  }

  /** What comes in is dealt with if it can be, and otherwise nothing changes. */
  ghost predicate Received(e: Event, config: Config, m: Moment) {
    if Possible(e, config, m.scheduled.running, m.scheduled.peers) then Handled(e, config, m.scheduled, m.after)
    else m.after == m.scheduled
  }

  /** The turns follow one another. */
  ghost predicate Follows(log: seq<Moment>, first: View, last: View) {
    if log == [] then first == last
    else
      && Scheduled(first, log[0].scheduled) && log[|log| - 1].after == last
      && forall i, j :: 0 <= i && i + 1 == j < |log| ==> Scheduled(log[i].after, log[j].scheduled)
  }

  lemma FollowsNothing(v: View)
    ensures Follows([], v, v)
  {
  }

  lemma FollowsMore(log: seq<Moment>, first: View, last: View, m: Moment)
    requires Follows(log, first, last) && Scheduled(last, m.scheduled)
    ensures Follows(log + [m], first, m.after)
  {
    hide Scheduled;
    var more := log + [m];
    assert more[|log|] == m;
    forall i, j | 0 <= i && i + 1 == j < |more|
      ensures Scheduled(more[i].after, more[j].scheduled)
    {
      assert more[i] == log[i];
      if j < |log| { assert more[j] == log[j]; }
    }
  }

  /** What each event changes, and that it changes nothing else. */
  ghost predicate Handled(e: Event, config: Config, v: View, w: View) {
    match e
    case AddStatic(n) => w == v.(fixed := v.fixed[n.id := n])
    case RemoveStatic(n) => w == v.(fixed := v.fixed - {n.id})
    case Finished(t, now, results) =>
      && w == v.(running := w.running, dialing := w.dialing, hist := w.hist, found := w.found)
      && multiset(w.running) == multiset(v.running) - multiset{t}
      && w.found == (if t == Discover then v.found + results else v.found)
      && w.dialing == (if t.Dial? then v.dialing - {t.node.id} else v.dialing)
      && multiset(w.hist) == multiset(v.hist) + if t.Dial? then multiset{PastDial(t.node.id, now + 30)} else multiset{}
    case Handshaken(_) => w == v
    case Added(c) =>
      var fits := (config.hasProtocols ==> c.matching > 0) && Fits(config, v.peers, |Inbound(v.peers)|, c)
                  && c.id !in v.peers && c.id != config.self;
      w == if fits then v.(peers := v.peers[c.id := c]) else v
    case Dropped(id) => w == v.(peers := v.peers - {id})
  }

  ghost function IndexOf(s: seq<Task>, t: Task): (k: nat)
    requires t in s
    ensures k < |s| && s[k] == t
  {
    var k: nat :| k < |s| && s[k] == t;
    k
  }

  lemma OneOut(s: seq<Task>, k: nat)
    requires k < |s|
    ensures multiset(s[..k] + s[k + 1..]) == multiset(s) - multiset{s[k]}
  {
    assert s == s[..k] + [s[k]] + s[k + 1..];
  }

  lemma TaskOnce(tasks: seq<Task>, dialing: map<Id, Flag>, lookupRunning: bool, i: nat, j: nat)
    requires InFlight(tasks, dialing, lookupRunning) && i < |tasks| && j < |tasks| && tasks[i] == tasks[j]
    ensures i == j
  {
    assert Clash(tasks[i], tasks[j]) && Clash(tasks[j], tasks[i]);
  }

  lemma DialedDyn(running: seq<Task>, queued: seq<Task>, dialing: map<Id, Flag>, lookupRunning: bool, id: Id)
    requires InFlight(running + queued, dialing, lookupRunning)
    requires exists i :: 0 <= i < |running| && running[i].Dial? && running[i].node.id == id && running[i].flag == Dyn
    ensures id in DynDialing(dialing)
  {
    var i :| 0 <= i < |running| && running[i].Dial? && running[i].node.id == id && running[i].flag == Dyn;
    assert (running + queued)[i] == running[i];
  }

  lemma WithinDynamicLimit(peers: Peers, before: map<Id, Flag>, after: map<Id, Flag>, limit: int)
    requires |Dynamic(peers, before)| <= limit
    requires DynDialing(after) == DynDialing(before) || |DynPeers(peers)| + |DynDialing(after)| <= limit
    ensures |Dynamic(peers, after)| <= limit
  {
    hide DynPeers, DynDialing;
    UnionSize(DynPeers(peers), DynDialing(after));
  }

  /** What the invariant promises: no more dynamically dialed peers than the limit, no more inbound peers
      outside the list of trusted nodes than theirs, and no node dialed twice. */
  lemma DynamicPeersLimited(s: Server)
    requires s.Valid()
    ensures var r := if s.config.dialRatio == 0 then 3 else s.config.dialRatio;
            if s.config.noDial then DynPeers(s.peers) == {} else r * |DynPeers(s.peers)| <= s.config.maxPeers
    ensures |DynPeers(s.peers)| <= MaxDialed(s.config)
    ensures |set id | id in s.peers && s.peers[id].inbound && id !in s.config.trusted| <= MaxInbound(s.config)
    ensures s.inboundCount == |Inbound(s.peers)| && |s.running| <= 16 && s.config.self !in s.peers
    ensures forall i, j :: 0 <= i < j < |s.running| && s.running[i].Dial? && s.running[j].Dial? ==>
              s.running[i].node.id != s.running[j].node.id
  {
    DialedShare(s.config);
    hide MaxDialed;
    assert (set id | id in s.peers && s.peers[id].inbound && id !in s.config.trusted) == UntrustedInbound(s.peers);
    SubsetSize(DynPeers(s.peers), Dynamic(s.peers, s.dial.dialing));
    Scaled(if s.config.dialRatio == 0 then 3 else s.config.dialRatio, |DynPeers(s.peers)|, MaxDialed(s.config));
    forall i, j | 0 <= i < j < |s.running| && s.running[i].Dial? && s.running[j].Dial?
      ensures s.running[i].node.id != s.running[j].node.id
    {
      assert !Clash((s.running + s.queued)[i], (s.running + s.queued)[j]);
    }
  }
}
