/** Concurrent verification of a batch of headers: workers take indexes from the coordinator and report
    them back in any order, and the coordinator emits the results in the order of the headers.  Every
    interleaving is a sequence of the actions below. */
module HeaderVerifier {
  import opened Types
  import opened HeaderRules

  // ---------- what is verified ----------

  datatype Verdict = Accepted | UnknownAncestor | Rejected(error: Error)

  /** The result for one header, given the stored headers, the batch and the clock read meanwhile. */
  function VerifyOne(db: map<Key, Header>, headers: seq<Header>, seals: seq<bool>, latest: nat -> int,
      sealed: Header -> bool, i: nat): Verdict
    requires i < |headers| == |seals|
  {
    var h := headers[i];
    var parent := if i == 0 then (if Key(h.number - 1, h.parent) in db then Some(db[Key(h.number - 1, h.parent)])
        else None)
                  else if headers[i - 1].hash == h.parent then Some(headers[i - 1]) else None;
    if parent.None? then UnknownAncestor
    else if Key(h.number, h.hash) in db then Accepted
    else
      var e := VerifyHeader(h, parent.value, false, seals[i], latest(i), sealed(h));
      if e.Some? then Rejected(e.value) else Accepted
  }

  /** The header a batch gives as the parent of one of its headers: a stored one for the first, else the one before. */
  ghost predicate ParentIn(db: map<Key, Header>, headers: seq<Header>, i: nat, p: Header)
    requires i < |headers|
  {
    var h := headers[i];
    if i == 0 then Key(h.number - 1, h.parent) in db && p == db[Key(h.number - 1, h.parent)]
    else p == headers[i - 1] && p.hash == h.parent
  }

  ghost predicate Attached(db: map<Key, Header>, headers: seq<Header>, i: nat)
    requires i < |headers|
  {
    exists p :: ParentIn(db, headers, i, p)
  }

  /** A header is accepted exactly when it has a parent in the batch and is known already or valid, with its seal if
      that was asked for. */
  lemma AcceptedIff(db: map<Key, Header>, headers: seq<Header>, seals: seq<bool>, latest: nat -> int,
      sealed: Header -> bool, i: nat)
    requires i < |headers| == |seals|
    ensures VerifyOne(db, headers, seals, latest, sealed, i) == Accepted <==>
            exists p :: ParentIn(db, headers, i, p)
              && (Key(headers[i].number, headers[i].hash) in db
                  || VerifyHeader(headers[i], p, false, seals[i], latest(i), sealed(headers[i])).None?)
  {
    hide VerifyHeader;
    var h := headers[i];
    if i > 0 {
      assert ParentIn(db, headers, i, headers[i - 1]) <==> headers[i - 1].hash == h.parent;
    } else if Key(h.number - 1, h.parent) in db {
      assert ParentIn(db, headers, i, db[Key(h.number - 1, h.parent)]);
    }
  }

  // ---------- the machine ----------

  datatype Worker = Idle | Verifying(index: nat) | Reporting(index: nat) | Finished

  predicate Busy(w: Worker) { w.Verifying? || w.Reporting? }

  datatype Status = Selecting | Emitting | Completed | Aborted

  /** Of a batch, its size, the number of workers and the result that each index would have on its own. */
  datatype Batch = Batch(n: nat, workers: nat, verdict: nat -> Verdict)

  /** The coordinator's next index to hand out, how far it has emitted and what it has checked off; the
      reports not received yet, in any order; the results; the workers.  As history, how often each index
      was verified and which worker it was handed to. */
  datatype State = State(next: nat, out: nat, checked: seq<bool>, done: multiset<nat>, errors: seq<Option<Verdict>>,
                         workers: seq<Worker>, emitted: seq<Verdict>, status: Status, runs: seq<nat>, owner: seq<nat>)

  datatype Action =
    | Hand(w: nat) | Verify(w: nat) | Report(w: nat) | Leave(w: nat)
    | Receive(index: nat) | Emit | Resume | Abort

  ghost predicate WellSized(b: Batch) { 0 < b.workers <= b.n }

  function Initial(b: Batch): State {
    State(0, 0, seq(b.n, _ => false), multiset{}, seq(b.n, _ => None), seq(b.workers, _ => Idle), [], Selecting,
        seq(b.n, _ => 0), seq(b.n, _ => 0))
  }

  predicate Ended(s: State) { s.status == Completed || s.status == Aborted }

  ghost predicate Shaped(b: Batch, s: State) {
    && |s.checked| == |s.errors| == |s.runs| == |s.owner| == b.n && |s.workers| == b.workers && s.next <= b.n
    && |s.emitted| <= b.n && (!Ended(s) ==> s.out < b.n)
  }

  /** What may happen next.  The channel of indexes has no buffer, that of reports has one slot for each
      worker and that of results one for each header. */
  ghost predicate Enabled(b: Batch, s: State, a: Action)
    requires Shaped(b, s)
  {
    match a
    case Hand(w) => s.status == Selecting && s.next < b.n && w < b.workers && s.workers[w] == Idle
    case Verify(w) => w < b.workers && s.workers[w].Verifying? && s.workers[w].index < b.n
    case Report(w) => w < b.workers && s.workers[w].Reporting? && |s.done| < b.workers
    case Leave(w) => Ended(s) && w < b.workers && s.workers[w] == Idle
    case Receive(i) => s.status == Selecting && i in s.done && i < b.n
    case Emit => s.status == Emitting && s.checked[s.out] && s.errors[s.out].Some? && |s.emitted| < b.n
    case Resume => s.status == Emitting && !s.checked[s.out]
    case Abort => s.status == Selecting
  }

  ghost function Apply(b: Batch, s: State, a: Action): State
    requires Shaped(b, s) && Enabled(b, s, a)
  {
    match a
    case Hand(w) => s.(next := s.next + 1, workers := s.workers[w := Verifying(s.next)], owner := s.owner[s.next := w])
    case Verify(w) =>
      var i := s.workers[w].index;
      s.(workers := s.workers[w := Reporting(i)], errors := s.errors[i := Some(b.verdict(i))],
          runs := s.runs[i := s.runs[i] + 1])
    case Report(w) => s.(workers := s.workers[w := Idle], done := s.done + multiset{s.workers[w].index})
    case Leave(w) => s.(workers := s.workers[w := Finished])
    case Receive(i) => s.(done := s.done - multiset{i}, checked := s.checked[i := true], status := Emitting)
    case Emit =>
      var emitted := s.emitted + [s.errors[s.out].value];
      if s.out == b.n - 1 then s.(emitted := emitted, status := Completed) else s.(emitted := emitted, out := s.out + 1)
    case Resume => s.(status := Selecting)
    case Abort => s.(status := Aborted)
  }

  // ---------- what every state satisfies ----------

  /** A worker is busy only with an index handed to it, which is reported and checked off nowhere yet,
      and has its result exactly when the worker is about to report it. */
  ghost predicate WorkerOk(b: Batch, s: State, w: nat)
    requires Shaped(b, s) && w < b.workers
  {
    && (Busy(s.workers[w]) ==>
          var i := s.workers[w].index;
          i < s.next && s.owner[i] == w && !s.checked[i] && s.done[i] == 0
              && (s.errors[i].None? <==> s.workers[w].Verifying?))
    && (s.workers[w] == Finished ==> Ended(s))
  }

  /** An index is reported at most once and checked off after that; it was verified once if it has a
      result and never otherwise; its result is the right one; and once handed out it is never lost. */
  ghost predicate IndexOk(b: Batch, s: State, i: nat)
    requires Shaped(b, s) && i < b.n
  {
    && s.done[i] <= 1 && (s.done[i] == 1 ==> i < s.next && !s.checked[i] && s.errors[i].Some?)
    && (s.checked[i] ==> i < s.next && s.errors[i].Some?) && (i >= s.next ==> s.errors[i].None?)
    && s.runs[i] == (if s.errors[i].Some? then 1 else 0) && (s.errors[i].Some? ==> s.errors[i].value == b.verdict(i))
    && (i < s.next && !s.checked[i] && s.done[i] == 0 ==>
        s.owner[i] < b.workers && Busy(s.workers[s.owner[i]]) && s.workers[s.owner[i]].index == i)
  }

  /** The results emitted are the first ones of the batch, in order, and while the coordinator waits the
      next one is not there yet. */
  ghost predicate InOrder(b: Batch, s: State)
    requires Shaped(b, s)
  {
    && (forall i :: 0 <= i < |s.emitted| ==> s.checked[i] && s.emitted[i] == b.verdict(i))
    && (if s.status == Completed then |s.emitted| == b.n else s.out == |s.emitted| < b.n)
    && (s.status == Selecting ==> !s.checked[s.out])
  }

  ghost predicate Invariant(b: Batch, s: State) {
    && Shaped(b, s) && InOrder(b, s) && |s.done| <= b.workers && (forall i :: i in s.done ==> i < b.n)
    && (forall w: nat :: w < b.workers ==> WorkerOk(b, s, w))
    && (forall i: nat :: i < b.n ==> IndexOk(b, s, i))
  }

  lemma InitialInvariant(b: Batch)
    requires WellSized(b)
    ensures Invariant(b, Initial(b))
  {
  }

  // ---------- every action keeps it ----------

  lemma WorkersStep(b: Batch, s: State, a: Action, w: nat)
    requires Invariant(b, s) && Enabled(b, s, a) && w < b.workers
    ensures WorkerOk(b, Apply(b, s, a), w)
  {
    assert WorkerOk(b, s, w);
    if a.Hand? || a.Verify? || a.Report? {
      assert WorkerOk(b, s, a.w);
    }
    if a.Hand? {
      assert IndexOk(b, s, s.next);
    }
  }

  lemma IndexesStep(b: Batch, s: State, a: Action, i: nat)
    requires Invariant(b, s) && Enabled(b, s, a) && i < b.n
    ensures IndexOk(b, Apply(b, s, a), i)
  {
    assert IndexOk(b, s, i);
    if a.Verify? || a.Report? || a.Leave? || a.Hand? {
      assert WorkerOk(b, s, a.w);
    }
  }

  lemma OrderStep(b: Batch, s: State, a: Action)
    requires Invariant(b, s) && Enabled(b, s, a)
    ensures Shaped(b, Apply(b, s, a)) && InOrder(b, Apply(b, s, a))
  {
    if a.Emit? {
      assert IndexOk(b, s, s.out);
    }
  }

  /** Whatever happens next, the invariant holds again. */
  lemma InvariantStep(b: Batch, s: State, a: Action)
    requires Invariant(b, s) && Enabled(b, s, a)
    ensures Invariant(b, Apply(b, s, a))
  {
    hide WorkerOk, IndexOk, InOrder;
    OrderStep(b, s, a);
    forall w: nat | w < b.workers
      ensures WorkerOk(b, Apply(b, s, a), w)
    {
      WorkersStep(b, s, a, w);
    }
    forall i: nat | i < b.n
      ensures IndexOk(b, Apply(b, s, a), i)
    {
      IndexesStep(b, s, a, i);
    }
    if a.Report? {
      WorkerIndex(b, s, a.w);
    }
  }

  lemma WorkerIndex(b: Batch, s: State, w: nat)
    requires Invariant(b, s) && w < b.workers && Busy(s.workers[w])
    ensures s.workers[w].index < b.n
  {
    assert WorkerOk(b, s, w);
  }

  // ---------- runs ----------

  /** A run: the states passed through, from the initial one on, and the actions between them. */
  ghost predicate IsRun(b: Batch, states: seq<State>, actions: seq<Action>) {
    && |states| == |actions| + 1 && states[0] == Initial(b)
    && (forall k :: 0 <= k < |states| ==> Shaped(b, states[k]))
    && (forall k :: 0 <= k < |actions| ==>
        Enabled(b, states[k], actions[k]) && states[k + 1] == Apply(b, states[k], actions[k]))
  }

  /** The invariant holds throughout every run. */
  lemma {:induction false} RunInvariant(b: Batch, states: seq<State>, actions: seq<Action>, k: nat)
    requires WellSized(b) && IsRun(b, states, actions) && k < |states|
    ensures Invariant(b, states[k])
  {
    if k == 0 {
      InitialInvariant(b);
    } else {
      RunInvariant(b, states, actions, k - 1);
      InvariantStep(b, states[k - 1], actions[k - 1]);
    }
  }

  /** The results of verifying the headers one after the other. */
  ghost function Results(b: Batch): (r: seq<Verdict>)
    ensures |r| == b.n && forall i :: 0 <= i < b.n ==> r[i] == b.verdict(i)
  {
    seq(b.n, i requires 0 <= i => b.verdict(i))
  }

  /** In every interleaving, each index is verified at most once, what has been emitted are the first
      results of the sequential verification, and a coordinator that ended without abort has emitted all. */
  lemma EmitsSequentialResults(b: Batch, states: seq<State>, actions: seq<Action>, k: nat)
    requires WellSized(b) && IsRun(b, states, actions) && k < |states|
    ensures var s := states[k];
            && |s.runs| == b.n && (forall i :: 0 <= i < b.n ==> s.runs[i] <= 1)
            && |s.emitted| <= b.n && s.emitted == Results(b)[..|s.emitted|]
            && (s.status == Completed ==> s.emitted == Results(b))
  {
    RunInvariant(b, states, actions, k);
    forall i: nat | i < b.n
      ensures states[k].runs[i] <= 1
    {
      assert IndexOk(b, states[k], i);
    }
  }

  /** The coordinator never waits for room among the results: when the next one is there, it can be
      emitted at once, even if nobody reads. */
  lemma NeverBlocksOnOutput(b: Batch, s: State)
    requires Invariant(b, s) && s.status == Emitting
    ensures Enabled(b, s, Emit) || Enabled(b, s, Resume)
    ensures s.checked[s.out] ==> |s.emitted| < b.n
  {
    assert IndexOk(b, s, s.out);
  }

  /** Until the coordinator ends, something other than an abort can always happen. */
  lemma Progress(b: Batch, s: State) returns (a: Action)
    requires WellSized(b) && Invariant(b, s) && !Ended(s)
    ensures Enabled(b, s, a) && a != Abort
  {
    if s.status == Emitting {
      NeverBlocksOnOutput(b, s);
      a := if s.checked[s.out] then Emit else Resume;
    } else if |s.done| > 0 {
      var i :| i in s.done;
      a := Receive(i);
    } else if w: nat :| w < b.workers && Busy(s.workers[w]) {
      WorkerIndex(b, s, w);
      a := if s.workers[w].Verifying? then Verify(w) else Report(w);
    } else {
      assert WorkerOk(b, s, 0);
      assert IndexOk(b, s, s.out);
      a := Hand(0);
    }
  }

  function Weight(w: Worker): nat {
    match w
    case Idle => 1
    case Verifying(_) => 6
    case Reporting(_) => 5
    case Finished => 0
  }

  ghost function Weights(ws: seq<Worker>): nat {
    if ws == [] then 0 else Weight(ws[0]) + Weights(ws[1..])
  }

  lemma {:induction false} WeightsUpdate(ws: seq<Worker>, w: nat, x: Worker)
    requires w < |ws|
    ensures Weights(ws[w := x]) == Weights(ws) - Weight(ws[w]) + Weight(x)
  {
    if w == 0 {
      assert ws[w := x][1..] == ws[1..];
    } else {
      assert ws[w := x][1..] == ws[1..][w - 1 := x];
      WeightsUpdate(ws[1..], w - 1, x);
    }
  }

  /** What is left to do. */
  ghost function Left(b: Batch, s: State): nat
    requires Shaped(b, s)
  {
    6 * (b.n - s.next) + Weights(s.workers) + 3 * |s.done| + (b.n - |s.emitted|)
    + if s.status == Selecting then 1 else if s.status == Emitting then 2 else 0
  }

  /** Every action leaves less to do, so no run goes on for ever. */
  lemma LessLeft(b: Batch, s: State, a: Action)
    requires Invariant(b, s) && Enabled(b, s, a)
    ensures Shaped(b, Apply(b, s, a)) && Left(b, Apply(b, s, a)) < Left(b, s)
  {
    OrderStep(b, s, a);
    if a.Hand? || a.Verify? || a.Report? || a.Leave? {
      WeightsUpdate(s.workers, a.w, Apply(b, s, a).workers[a.w]);
    }
  }

  /** No run is longer than what was to do at first. */
  lemma {:induction false} RunsAreBounded(b: Batch, states: seq<State>, actions: seq<Action>, k: nat)
    requires WellSized(b) && IsRun(b, states, actions) && k < |states|
    ensures k + Left(b, states[k]) <= Left(b, Initial(b))
  {
    if k > 0 {
      RunsAreBounded(b, states, actions, k - 1);
      RunInvariant(b, states, actions, k - 1);
      LessLeft(b, states[k - 1], actions[k - 1]);
    }
  }

  ghost predicate AllGone(s: State) {
    forall w :: 0 <= w < |s.workers| ==> s.workers[w] == Finished
  }

  /** A run that cannot go on and was not aborted has emitted every result, and all its workers are gone. */
  lemma RunsComplete(b: Batch, states: seq<State>, actions: seq<Action>)
    requires WellSized(b) && IsRun(b, states, actions)
    requires var s := states[|states| - 1]; s.status != Aborted && forall a :: Enabled(b, s, a) ==> a == Abort
    ensures var s := states[|states| - 1]; s.status == Completed && s.emitted == Results(b)
    ensures AllGone(states[|states| - 1])
  {
    var s := states[|states| - 1];
    RunInvariant(b, states, actions, |states| - 1);
    EmitsSequentialResults(b, states, actions, |states| - 1);
    if !Ended(s) {
      var a := Progress(b, s);
    }
    forall w: nat | w < b.workers
      ensures s.workers[w] == Finished
    {
      assert !Enabled(b, s, Leave(w));
      assert WorkerOk(b, s, w);
    }
  }

  // ---------- after an abort ----------

  /** Some run leads to s. */
  ghost predicate Reachable(b: Batch, s: State) {
    exists states, actions :: IsRun(b, states, actions) && s == states[|actions|]
  }

  lemma ReachableInvariant(b: Batch, s: State)
    requires WellSized(b) && Reachable(b, s)
    ensures Invariant(b, s)
  {
    var states, actions :| IsRun(b, states, actions) && s == states[|actions|];
    RunInvariant(b, states, actions, |actions|);
  }

  lemma ReachableStart(b: Batch)
    requires WellSized(b)
    ensures Reachable(b, Initial(b)) && Shaped(b, Initial(b))
  {
    assert IsRun(b, [Initial(b)], []);
  }

  lemma ReachableStep(b: Batch, s: State, a: Action)
    requires WellSized(b) && Reachable(b, s) && Shaped(b, s) && Enabled(b, s, a)
    ensures Reachable(b, Apply(b, s, a)) && Shaped(b, Apply(b, s, a))
  {
    hide Enabled, Apply;
    ReachableInvariant(b, s);
    OrderStep(b, s, a);
    var states, actions :| IsRun(b, states, actions) && s == states[|actions|];
    assert IsRun(b, states + [Apply(b, s, a)], actions + [a]);
  }

  /** Nothing more can happen. */
  ghost predicate Stuck(b: Batch, s: State) {
    Shaped(b, s) && forall a :: !Enabled(b, s, a)
  }

  /** The verification was aborted, nothing more can happen, and a worker has not gone. */
  ghost predicate Strands(b: Batch, s: State) {
    s.status == Aborted && Stuck(b, s) && exists w :: 0 <= w < |s.workers| && s.workers[w] != Finished
  }

  /** A worker left behind has something to report into a full channel. */
  lemma LeftBehind(b: Batch, s: State, w: nat)
    requires Invariant(b, s) && s.status == Aborted && w < b.workers && Stuck(b, s)
    ensures s.workers[w] != Finished <==> s.workers[w].Reporting? && |s.done| == b.workers
  {
    assert WorkerOk(b, s, w);
    assert !Enabled(b, s, Leave(w)) && !Enabled(b, s, Verify(w)) && !Enabled(b, s, Report(w));
  }

  /** Distinct numbers below n are at most n. */
  lemma {:induction false} DistinctBelow(m: multiset<nat>, n: nat)
    requires (forall i :: i in m ==> i < n) && forall i :: m[i] <= 1
    ensures |m| <= n
  {
    if n == 0 {
      assert m == multiset{};
    } else {
      var rest := m[n - 1 := 0];
      assert m == rest + if n - 1 in m then multiset{n - 1} else multiset{};
      DistinctBelow(rest, n - 1);
    }
  }

  /** With a worker for each header the channel of reports is never full while a report is missing. */
  lemma NobodyStranded(b: Batch, s: State)
    requires WellSized(b) && Invariant(b, s) && b.workers == b.n
    ensures !Strands(b, s)
  {
    if s.status == Aborted && Stuck(b, s) {
      forall w: nat | w < b.workers
        ensures s.workers[w] == Finished
      {
        LeftBehind(b, s, w);
        if s.workers[w].Reporting? {
          RoomToReport(b, s, w);
        }
      }
    }
  }

  lemma RoomToReport(b: Batch, s: State, w: nat)
    requires Invariant(b, s) && w < b.workers && s.workers[w].Reporting?
    ensures |s.done| < b.n
  {
    assert WorkerOk(b, s, w);
    var i := s.workers[w].index;
    forall j: nat
      ensures (s.done + multiset{i})[j] <= 1
    {
      assert j < b.n ==> IndexOk(b, s, j);
    }
    DistinctBelow(s.done + multiset{i}, b.n);
  }

  /** A state between two select rounds in which k indexes were handed out, all of them are reported, and
      nobody has received a report. */
  ghost predicate Unreceived(b: Batch, s: State, k: nat) {
    && Reachable(b, s) && Shaped(b, s) && s.status == Selecting && s.next == k && |s.done| == k
    && forall w :: 0 <= w < |s.workers| ==> s.workers[w] == Idle
  }

  lemma {:induction false} FillReports(b: Batch, k: nat) returns (s: State)
    requires 0 < b.workers < b.n && k <= b.workers
    ensures Unreceived(b, s, k)
  {
    if k == 0 {
      ReachableStart(b);
      s := Initial(b);
    } else {
      var s0 := FillReports(b, k - 1);
      ReachableStep(b, s0, Hand(0));
      var s1 := Apply(b, s0, Hand(0));
      ReachableStep(b, s1, Verify(0));
      var s2 := Apply(b, s1, Verify(0));
      ReachableStep(b, s2, Report(0));
      s := Apply(b, s2, Report(0));
    }
  }

  /** Worker 0 has one more report than the channel holds, the verification was aborted, and the workers
      from 1 up to k are gone. */
  ghost predicate Stranding(b: Batch, s: State, k: nat) {
    && Reachable(b, s) && Shaped(b, s) && s.status == Aborted && |s.done| == b.workers > 0 && s.workers[0].Reporting?
    && forall w :: 1 <= w < |s.workers| ==> s.workers[w] == if w <= k then Finished else Idle
  }

  lemma AbortFull(b: Batch) returns (s: State)
    requires 0 < b.workers < b.n
    ensures Stranding(b, s, 0)
  {
    var s0 := FillReports(b, b.workers);
    ReachableStep(b, s0, Hand(0));
    var s1 := Apply(b, s0, Hand(0));
    ReachableStep(b, s1, Verify(0));
    var s2 := Apply(b, s1, Verify(0));
    ReachableStep(b, s2, Abort);
    s := Apply(b, s2, Abort);
  }

  lemma {:induction false} OthersLeave(b: Batch, k: nat) returns (s: State)
    requires 0 < b.workers < b.n && k < b.workers
    ensures Stranding(b, s, k)
  {
    if k == 0 {
      s := AbortFull(b);
    } else {
      var s0 := OthersLeave(b, k - 1);
      ReachableStep(b, s0, Leave(k));
      s := Apply(b, s0, Leave(k));
    }
  }

  /** An aborted verification can leave a worker behind exactly when there are fewer workers than headers. */
  lemma StrandsIff(b: Batch)
    requires WellSized(b)
    ensures (exists s :: Reachable(b, s) && Strands(b, s)) <==> b.workers < b.n
  {
    if b.workers < b.n {
      var s := OthersLeave(b, b.workers - 1);
      assert forall w: nat :: w < b.workers ==> s.workers[w] == if w == 0 then s.workers[0] else Finished;
      assert forall a :: !Enabled(b, s, a);
      assert Strands(b, s);
    } else {
      forall s | Reachable(b, s)
        ensures !Strands(b, s)
      {
        ReachableInvariant(b, s);
        NobodyStranded(b, s);
      }
    }
  }

  // ---------- a batch of headers ----------

  /** The batch for some headers: as many workers as processors, but no more than headers. */
  ghost function BatchOf(db: map<Key, Header>, headers: seq<Header>, seals: seq<bool>, latest: nat -> int,
      sealed: Header -> bool, processors: nat): Batch
    requires |headers| == |seals|
  {
    Batch(|headers|, if |headers| < processors then |headers| else processors,
          (i: nat) => if i < |headers| then VerifyOne(db, headers, seals, latest, sealed, i) else Accepted)
  }

  /** When a run over some headers completes with every result an acceptance, the headers form a chain that hangs on
      a stored header; each new one is numbered next and, if its seal was asked for, sealed and adding difficulty. */
  lemma AcceptedRunLinked(db: map<Key, Header>, headers: seq<Header>, seals: seq<bool>, latest: nat -> int,
      sealed: Header -> bool, processors: nat,
                          states: seq<State>, actions: seq<Action>)
    requires 0 < |headers| == |seals| && processors > 0
    requires IsRun(BatchOf(db, headers, seals, latest, sealed, processors), states, actions)
    requires var s := states[|states| - 1]; s.status == Completed && forall v :: v in s.emitted ==> v == Accepted
    ensures Key(headers[0].number - 1, headers[0].parent) in db
    ensures forall i, j :: 0 <= i < |headers| && j == i + 1 < |headers| ==> headers[j].parent == headers[i].hash
    ensures forall i: nat :: i < |headers| ==> NewIsValid(db, headers, seals, sealed, i)
  {
    var b := BatchOf(db, headers, seals, latest, sealed, processors);
    var s := states[|states| - 1];
    EmitsSequentialResults(b, states, actions, |states| - 1);
    forall i: nat | i < |headers|
      ensures VerifyOne(db, headers, seals, latest, sealed, i) == Accepted
    {
      assert s.emitted[i] in s.emitted && s.emitted[i] == b.verdict(i);
    }
    hide VerifyOne;
    forall i: nat | i < |headers|
      ensures Attached(db, headers, i) && NewIsValid(db, headers, seals, sealed, i)
    {
      AcceptedIff(db, headers, seals, latest, sealed, i);
      AcceptedValid(db, headers, seals, latest, sealed, i);
    }
    assert Attached(db, headers, 0);
    forall i, j | 0 <= i < |headers| && j == i + 1 < |headers|
      ensures headers[j].parent == headers[i].hash
    {
      assert Attached(db, headers, j);
    }
  }

  /** A header that was not stored before is the next after its parent, and sealed and adding difficulty if asked. */
  ghost predicate NewIsValid(db: map<Key, Header>, headers: seq<Header>, seals: seq<bool>, sealed: Header -> bool,
      i: nat)
    requires i < |headers| == |seals|
  {
    var h := headers[i];
    Key(h.number, h.hash) !in db ==>
      && (seals[i] ==> sealed(h) && h.difficulty > 0)
      && exists p :: ParentIn(db, headers, i, p) && h.number == p.number + 1 && h.time >= p.time
  }

  lemma AcceptedValid(db: map<Key, Header>, headers: seq<Header>, seals: seq<bool>, latest: nat -> int,
      sealed: Header -> bool, i: nat)
    requires i < |headers| == |seals| && VerifyOne(db, headers, seals, latest, sealed, i) == Accepted
    ensures NewIsValid(db, headers, seals, sealed, i)
  {
    AcceptedIff(db, headers, seals, latest, sealed, i);
    hide VerifyOne;
    var p :| ParentIn(db, headers, i, p)
      && (Key(headers[i].number, headers[i].hash) in db
          || VerifyHeader(headers[i], p, false, seals[i], latest(i), sealed(headers[i])).None?);
    hide CalcDifficulty, VerifyGas;
  }

  /** Verifying a batch of headers can leave a worker behind on abort exactly when there are fewer
      processors than headers. */
  lemma AbortStrandsIff(db: map<Key, Header>, headers: seq<Header>, seals: seq<bool>, latest: nat -> int,
      sealed: Header -> bool, processors: nat)
    requires 0 < |headers| == |seals| && processors > 0
    ensures var b := BatchOf(db, headers, seals, latest, sealed, processors);
            (exists s :: Reachable(b, s) && Strands(b, s)) <==> processors < |headers|
  {
    StrandsIff(BatchOf(db, headers, seals, latest, sealed, processors));
  }
}
