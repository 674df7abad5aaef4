/**
 The node pollers' shared cache (crates/dig-app-core/src/hosted_stores.rs, network.rs and probe.rs). A
 snapshot is answered from the cache under one lock while worker threads fill it, each with one read of
 one endpoint. Every critical section is one step; any interleaving of steps is a run.
 */
module Poller {
  import opened Wrappers
  import opened Clock

  datatype Link = NoNode | Connected(endpoint: string)

  datatype Cached<R> = Cached(endpoint: string, reading: R, taken: nat)

  datatype Answer<R> = Absent | Pending | Held(reading: R)

  /** What the lock guards: the last reading taken and the endpoints claimed by a read. */
  datatype PollState<R> = PollState(cached: Option<Cached<R>>, inFlight: set<string>)

  function ReadingFor<R>(p: PollState<R>, endpoint: string): Option<Cached<R>> {
    if p.cached.Some? && p.cached.value.endpoint == endpoint then p.cached else None
  }

  function AnswerFor<R>(p: PollState<R>, endpoint: string): Answer<R> {
    match ReadingFor(p, endpoint)
    case Some(c) => Held(c.reading)
    case None => Pending
  }

  predicate Fresh<R>(p: PollState<R>, refresh: nat, endpoint: string, now: nat) {
    var held := ReadingFor(p, endpoint);
    held.Some? && Since(held.value.taken, now) < refresh
  }

  /** Whether observing `endpoint` starts a read: nothing fresh is held, no read is under way, and a thread is had. */
  predicate Starts<R>(p: PollState<R>, refresh: nat, endpoint: string, now: nat, spawns: bool) {
    !Fresh(p, refresh, endpoint, now) && endpoint !in p.inFlight && spawns
  }

  /** What an observation leaves behind the lock. */
  function Observed<R>(p: PollState<R>, refresh: nat, link: Link, now: nat, spawns: bool): PollState<R> {
    match link
    case NoNode => p.(cached := None)
    case Connected(e) => if Starts(p, refresh, e, now, spawns) then p.(inFlight := p.inFlight + {e}) else p
  }

  // ---------------------------------------------------------------- the critical sections

  class NodePoller<R> {
    var cached: Option<Cached<R>>
    var inFlight: set<string>
    const refresh: nat

    function State(): PollState<R>
      reads this
    {
      PollState(cached, inFlight)
    }

    constructor (refresh: nat)
      ensures this.refresh == refresh && State() == PollState(None, {})
    {
      this.refresh := refresh;
      cached := None;
      inFlight := {};
    }

    /** Claims `endpoint` unless it is claimed. A refused spawn gives the claim back at once. */
    method StartRead(endpoint: string, spawns: bool) returns (started: bool)
      modifies this`inFlight
      ensures started <==> endpoint !in old(inFlight) && spawns
      ensures inFlight == if started then old(inFlight) + {endpoint} else old(inFlight)
    {
      if endpoint in inFlight {
        return false;
      }
      inFlight := inFlight + {endpoint};
      started := spawns;
      if !started {
        inFlight := inFlight - {endpoint};
      }
    }

    method Observe(link: Link, now: nat, spawns: bool) returns (answer: Answer<R>, started: bool)
      modifies this
      ensures State() == Observed(old(State()), refresh, link, now, spawns)
      ensures answer == if link.NoNode? then Absent else AnswerFor(old(State()), link.endpoint)
      ensures started <==> link.Connected? && Starts(old(State()), refresh, link.endpoint, now, spawns)
    {
      match link {
        case NoNode =>
          cached := None;
          return Absent, false;
        case Connected(endpoint) =>
          var held := ReadingFor(State(), endpoint);
          if held.Some? {
            if Since(held.value.taken, now) < refresh {
              return Held(held.value.reading), false;
            }
          }
          started := StartRead(endpoint, spawns);
          held := ReadingFor(State(), endpoint);
          answer := if held.Some? then Held(held.value.reading) else Pending;
      }
    }

    /** The worker's own section: its reading replaces whatever is held. */
    method Record(endpoint: string, reading: R, now: nat)
      modifies this
      ensures State() == old(State()).(cached := Some(Cached(endpoint, reading, now)))
    {
      cached := Some(Cached(endpoint, reading, now));
    }

    /** The claim's release, on return and on unwind alike. */
    method Release(endpoint: string)
      modifies this
      ensures State() == old(State()).(inFlight := old(inFlight) - {endpoint})
    {
      inFlight := inFlight - {endpoint};
    }
  }

  // ---------------------------------------------------------------- runs

  /** A worker is known by the position of the observation that started it. */
  datatype Step<R> =
    | Observe(link: Link, now: nat, spawns: bool)
    | Record(worker: nat, reading: R, taken: nat)
    | Release(worker: nat)

  datatype Worker = Worker(endpoint: string, recorded: bool)

  datatype System<R> = System(poll: PollState<R>, workers: map<nat, Worker>)

  /** A worker records at most once, while it lives, and dies once, whether or not it recorded. */
  predicate Enabled<R>(s: System<R>, step: Step<R>) {
    match step
    case Observe(_, _, _) => true
    case Record(w, _, _) => w in s.workers && !s.workers[w].recorded
    case Release(w) => w in s.workers
  }

  /** The system after `step`, taken at position `at` of the run. */
  function Next<R>(s: System<R>, refresh: nat, step: Step<R>, at: nat): System<R>
    requires Enabled(s, step)
  {
    match step
    case Observe(link, now, spawns) =>
      System(Observed(s.poll, refresh, link, now, spawns),
             if link.Connected? && Starts(s.poll, refresh, link.endpoint, now, spawns)
             then s.workers[at := Worker(link.endpoint, false)] else s.workers)
    case Record(w, reading, taken) =>
      var e := s.workers[w].endpoint;
      System(s.poll.(cached := Some(Cached(e, reading, taken))), s.workers[w := Worker(e, true)])
    case Release(w) =>
      System(s.poll.(inFlight := s.poll.inFlight - {s.workers[w].endpoint}), s.workers - {w})
  }

  function Before<R>(steps: seq<Step<R>>): seq<Step<R>>
    requires steps != []
  {
    steps[..|steps| - 1]
  }

  function Last<R>(steps: seq<Step<R>>): Step<R>
    requires steps != []
  {
    steps[|steps| - 1]
  }

  /** The system `steps` lead to from an empty poller, or nothing when some step could not happen. */
  function Run<R>(refresh: nat, steps: seq<Step<R>>): Option<System<R>> {
    if steps == [] then Some(System(PollState(None, {}), map[])) else
    var s :- Run(refresh, Before(steps));
    if Enabled(s, Last(steps)) then Some(Next(s, refresh, Last(steps), |steps| - 1)) else None
  }

  // ---------------------------------------------------------------- what a run's steps say

  /** The endpoint of the worker started at position `w`. */
  function EndpointOf<R>(steps: seq<Step<R>>, w: nat): string {
    if w < |steps| && steps[w].Observe? && steps[w].link.Connected? then steps[w].link.endpoint else ""
  }

  predicate IsDisconnect<R>(step: Step<R>) {
    step.Observe? && step.link.NoNode?
  }

  /** The last reading recorded since the last observed disconnect. */
  function Latest<R>(steps: seq<Step<R>>): Option<nat> {
    if steps == [] || IsDisconnect(Last(steps)) then None
    else if Last(steps).Record? then Some(|steps| - 1)
    else Latest(Before(steps))
  }

  /** `Latest` is what it says: a recording with no later recording and no later disconnect. */
  lemma {:induction false} LatestExact<R>(steps: seq<Step<R>>, k: nat)
    ensures Latest(steps) == Some(k)
       <==> && k < |steps| && steps[k].Record?
            && forall i :: k < i < |steps| ==> !steps[i].Record? && !IsDisconnect(steps[i])
  {
    if steps != [] && !Last(steps).Record? && !IsDisconnect(Last(steps)) {
      LatestExact(Before(steps), k);
      if k < |steps| - 1 {
        assert steps[k] == Before(steps)[k];
        assert forall i :: k < i < |steps| - 1 ==> steps[i] == Before(steps)[i];
      }
    } else if steps != [] && k < |steps| - 1 {
      assert steps[|steps| - 1] == Last(steps);
    }
  }

  /** The claims are exactly the endpoints of the live workers, and no endpoint has two. */
  ghost predicate OneWorkerPerClaim<R>(s: System<R>) {
    && (forall w :: w in s.workers ==> s.workers[w].endpoint in s.poll.inFlight)
    && (forall e :: e in s.poll.inFlight ==> exists w :: w in s.workers && s.workers[w].endpoint == e)
    && (forall v, w :: v in s.workers && w in s.workers && s.workers[v].endpoint == s.workers[w].endpoint ==> v == w)
  }

  lemma ObservationKeepsClaims<R>(s: System<R>, refresh: nat, step: Step<R>, at: nat)
    requires OneWorkerPerClaim(s) && step.Observe? && at !in s.workers
    ensures OneWorkerPerClaim(Next(s, refresh, step, at))
  {
    hide Fresh, ReadingFor;
    var t := Next(s, refresh, step, at);
    forall e | e in t.poll.inFlight ensures exists w :: w in t.workers && t.workers[w].endpoint == e {
      if e in s.poll.inFlight {
        var w :| w in s.workers && s.workers[w].endpoint == e;
        assert w in t.workers && t.workers[w].endpoint == e;
      } else {
        assert at in t.workers && t.workers[at].endpoint == e;
      }
    }
  }

  lemma RecordingKeepsClaims<R>(s: System<R>, refresh: nat, step: Step<R>, at: nat)
    requires OneWorkerPerClaim(s) && step.Record? && Enabled(s, step)
    ensures OneWorkerPerClaim(Next(s, refresh, step, at))
  {
    var t := Next(s, refresh, step, at);
    forall e | e in t.poll.inFlight ensures exists w :: w in t.workers && t.workers[w].endpoint == e {
      var w :| w in s.workers && s.workers[w].endpoint == e;
      assert w in t.workers && t.workers[w].endpoint == e;
    }
  }

  lemma ReleaseKeepsClaims<R>(s: System<R>, refresh: nat, step: Step<R>, at: nat)
    requires OneWorkerPerClaim(s) && step.Release? && Enabled(s, step)
    ensures OneWorkerPerClaim(Next(s, refresh, step, at))
  {
    var t := Next(s, refresh, step, at);
    forall e | e in t.poll.inFlight ensures exists w :: w in t.workers && t.workers[w].endpoint == e {
      var w :| w in s.workers && s.workers[w].endpoint == e;
      assert w in t.workers && t.workers[w].endpoint == e;
    }
  }

  lemma StepKeepsClaims<R>(s: System<R>, refresh: nat, step: Step<R>, at: nat)
    requires OneWorkerPerClaim(s) && Enabled(s, step) && at !in s.workers
    ensures OneWorkerPerClaim(Next(s, refresh, step, at))
  {
    hide OneWorkerPerClaim, Next;
    match step
    case Observe(_, _, _) => ObservationKeepsClaims(s, refresh, step, at);
    case Record(_, _, _) => RecordingKeepsClaims(s, refresh, step, at);
    case Release(_) => ReleaseKeepsClaims(s, refresh, step, at);
  }

  /** Worker `w` was started by the observation at position `w`, of endpoint `e`. */
  predicate StartedFor<R>(steps: seq<Step<R>>, w: nat, e: string) {
    w < |steps| && steps[w].Observe? && steps[w].link == Connected(e) && steps[w].spawns
  }

  /** Live workers and recordings come from the observations that started them. */
  ghost predicate Provenance<R>(steps: seq<Step<R>>, s: System<R>) {
    && (forall w :: w in s.workers ==> StartedFor(steps, w, s.workers[w].endpoint))
    && (forall k :: 0 <= k < |steps| && steps[k].Record? ==>
          steps[k].worker < k && StartedFor(steps, steps[k].worker, EndpointOf(steps, steps[k].worker)))
  }

  lemma StepKeepsProvenance<R>(refresh: nat, steps: seq<Step<R>>, s: System<R>)
    requires steps != [] && Provenance(Before(steps), s) && Enabled(s, Last(steps))
    ensures Provenance(steps, Next(s, refresh, Last(steps), |steps| - 1))
  {
    var before := Before(steps);
    forall w: nat, e | StartedFor(before, w, e) ensures StartedFor(steps, w, e) && EndpointOf(steps, w) == e {
      assert steps[w] == before[w];
    }
    forall k | 0 <= k < |steps| && steps[k].Record?
      ensures steps[k].worker < k && StartedFor(steps, steps[k].worker, EndpointOf(steps, steps[k].worker))
    {
      if k < |before| {
        assert before[k] == steps[k];
      }
    }
  }

  /** After any run the cache is what the steps say was last recorded, tagged with its worker's endpoint. */
  ghost predicate CacheIsLatest<R>(steps: seq<Step<R>>, s: System<R>) {
    match Latest(steps)
    case None => s.poll.cached == None
    case Some(k) =>
      k < |steps| && steps[k].Record? &&
      s.poll.cached == Some(Cached(EndpointOf(steps, steps[k].worker), steps[k].reading, steps[k].taken))
  }

  lemma StepKeepsCache<R>(refresh: nat, steps: seq<Step<R>>, s: System<R>)
    requires steps != [] && Provenance(Before(steps), s) && CacheIsLatest(Before(steps), s) && Enabled(s, Last(steps))
    ensures CacheIsLatest(steps, Next(s, refresh, Last(steps), |steps| - 1))
  {
    var before := Before(steps);
    forall w: nat, e | StartedFor(before, w, e) ensures EndpointOf(steps, w) == e == EndpointOf(before, w) {
      assert steps[w] == before[w];
    }
    if Latest(before).Some? {
      var k := Latest(before).value;
      assert steps[k] == before[k];
    }
  }

  /** What every step of every run keeps. */
  lemma {:induction false} RunKeeps<R>(refresh: nat, steps: seq<Step<R>>, s: System<R>)
    requires Run(refresh, steps) == Some(s)
    ensures OneWorkerPerClaim(s) && Provenance(steps, s) && CacheIsLatest(steps, s)
  {
    if steps != [] {
      var before := Before(steps);
      var t := Run(refresh, before).value;
      RunKeeps(refresh, before, t);
      assert forall w :: w in t.workers ==> w < |before|;
      StepKeepsClaims(t, refresh, Last(steps), |before|);
      StepKeepsProvenance(refresh, steps, t);
      StepKeepsCache(refresh, steps, t);
    }
  }

  // ---------------------------------------------------------------- what every observation answers

  /** Recording `k` is of `e`, holds `r`, and neither a recording nor a disconnect has come after it. */
  ghost predicate Shows<R>(steps: seq<Step<R>>, k: nat, e: string, r: R) {
    && k < |steps| && steps[k].Record? && steps[k].reading == r
    && steps[k].worker < k && StartedFor(steps, steps[k].worker, e)
    && forall i :: k < i < |steps| ==> !steps[i].Record? && !IsDisconnect(steps[i])
  }

  /**
   After any interleaving, observing `e` shows `r` exactly when the newest recording since the last
   observed disconnect holds `r` and was made by a worker that an observation of `e` itself started. So
   no reading of another endpoint is ever shown, and none from before a disconnect.
   */
  lemma AnswersExactly<R>(refresh: nat, steps: seq<Step<R>>, s: System<R>, e: string, r: R)
    requires Run(refresh, steps) == Some(s)
    ensures AnswerFor(s.poll, e) == Held(r) <==> exists k :: Shows(steps, k, e, r)
    ensures AnswerFor(s.poll, e) == Pending || exists k, held :: AnswerFor(s.poll, e) == Held(held) && Shows(steps, k, e, held)
  {
    RunKeeps(refresh, steps, s);
    if Latest(steps).Some? {
      var k := Latest(steps).value;
      LatestExact(steps, k);
      if EndpointOf(steps, steps[k].worker) == e {
        assert Shows(steps, k, e, steps[k].reading);
      }
    }
    forall k | Shows(steps, k, e, r) ensures AnswerFor(s.poll, e) == Held(r) {
      LatestExact(steps, k);
    }
  }

  lemma RunOfPrefix<R>(refresh: nat, steps: seq<Step<R>>, step: Step<R>)
    ensures Run(refresh, steps + [step]).Some? ==> Run(refresh, steps).Some?
    ensures Run(refresh, steps).Some? ==>
              Run(refresh, steps + [step]) ==
                if Enabled(Run(refresh, steps).value, step)
                then Some(Next(Run(refresh, steps).value, refresh, step, |steps|)) else None
  {
    assert Before(steps + [step]) == steps;
  }

  /** A step that cannot take away what is held for `e`. */
  predicate Spares<R>(s: System<R>, e: string, step: Step<R>) {
    !IsDisconnect(step) && (step.Record? && step.worker in s.workers ==> s.workers[step.worker].endpoint == e)
  }

  /** A held answer is lost by a disconnect, by another endpoint's recording, and by no other step. */
  lemma HeldUntilReplaced<R>(s: System<R>, refresh: nat, e: string, step: Step<R>, at: nat)
    requires Enabled(s, step) && AnswerFor(s.poll, e).Held?
    ensures AnswerFor(Next(s, refresh, step, at).poll, e).Held? <==> Spares(s, e, step)
  {
  }

  /** Every step of `more`, taken after `steps`, spares what is held for `e`. */
  ghost predicate AllSpare<R>(refresh: nat, steps: seq<Step<R>>, more: seq<Step<R>>, e: string) {
    forall n :: 0 <= n < |more| && Run(refresh, steps + more[..n]).Some? ==>
      Spares(Run(refresh, steps + more[..n]).value, e, more[n])
  }

  /**
   No blink: while the link stays on `e` and no worker of another endpoint records, an answer once held
   for `e` is never Pending again, however many refreshes run or fail.
   */
  lemma {:induction false} NoBlink<R>(refresh: nat, steps: seq<Step<R>>, more: seq<Step<R>>, s: System<R>, t: System<R>, e: string)
    requires Run(refresh, steps) == Some(s) && Run(refresh, steps + more) == Some(t)
    requires AnswerFor(s.poll, e).Held? && AllSpare(refresh, steps, more, e)
    ensures AnswerFor(t.poll, e).Held?
    decreases |more|
  {
    hide Run, Spares, AnswerFor, Enabled, Next;
    if more == [] {
      assert steps + more == steps;
    } else {
      var n := |more| - 1;
      var front := more[..n];
      assert steps + more == (steps + front) + [more[n]];
      RunOfPrefix(refresh, steps + front, more[n]);
      var u := Run(refresh, steps + front).value;
      assert forall m :: 0 <= m < |front| ==> front[..m] == more[..m] && front[m] == more[m];
      NoBlink(refresh, steps, front, s, u, e);
      HeldUntilReplaced(u, refresh, e, more[n], |steps + front|);
    }
  }

  // ---------------------------------------------------------------- throttling

  /** The observation at position `j` of the run started a read of `e`. */
  ghost predicate Started<R>(refresh: nat, steps: seq<Step<R>>, j: nat, e: string) {
    && j < |steps| && StartedFor(steps, j, e) && Run(refresh, steps[..j]).Some?
    && Starts(Run(refresh, steps[..j]).value.poll, refresh, e, steps[j].now, true)
  }

  lemma {:induction false} WorkerLives<R>(refresh: nat, steps: seq<Step<R>>, i: nat, n: nat, e: string)
    requires Started(refresh, steps, i, e) && i < n <= |steps| && Run(refresh, steps[..n]).Some?
    requires forall k :: i < k < n ==> steps[k] != Release(i)
    ensures var s := Run(refresh, steps[..n]).value; i in s.workers && s.workers[i].endpoint == e
    decreases n
  {
    assert Before(steps[..n]) == steps[..n - 1];
    assert Last(steps[..n]) == steps[n - 1];
    if n - 1 > i {
      WorkerLives(refresh, steps, i, n - 1, e);
    }
  }

  /** Two reads of one endpoint never overlap: the first one's worker is gone before the second starts. */
  lemma ReadsDoNotOverlap<R>(refresh: nat, steps: seq<Step<R>>, i: nat, j: nat, e: string)
    requires Started(refresh, steps, i, e) && Started(refresh, steps, j, e) && i < j
    ensures exists k :: i < k < j && steps[k] == Release(i)
  {
    if forall k :: i < k < j ==> steps[k] != Release(i) {
      WorkerLives(refresh, steps, i, j, e);
      RunKeeps(refresh, steps[..j], Run(refresh, steps[..j]).value);
    }
  }

  /** A read starts only when no reading shown for its endpoint is younger than the refresh interval. */
  lemma ReadsAreSpaced<R>(refresh: nat, steps: seq<Step<R>>, j: nat, e: string, k: nat, r: R)
    requires Started(refresh, steps, j, e) && Shows(steps[..j], k, e, r)
    ensures refresh == 0 || steps[j].now >= steps[k].taken + refresh
  {
    var s := Run(refresh, steps[..j]).value;
    RunKeeps(refresh, steps[..j], s);
    LatestExact(steps[..j], k);
    assert steps[..j][k] == steps[k];
  }

  /** The worker started at position `w`, for `e`, has not been released by position `n`. */
  ghost predicate Live<R>(refresh: nat, steps: seq<Step<R>>, n: nat, w: nat, e: string) {
    w < n <= |steps| && Started(refresh, steps, w, e) && forall k :: w < k < n ==> steps[k] != Release(w)
  }

  /** The reading of worker `w` has been recorded by position `n`. */
  ghost predicate HasRecorded<R>(steps: seq<Step<R>>, n: nat, w: nat) {
    exists k :: w < k < n <= |steps| && steps[k].Record? && steps[k].worker == w
  }

  lemma LiveNext<R>(refresh: nat, steps: seq<Step<R>>, n: nat, w: nat, e: string)
    requires n < |steps|
    ensures Live(refresh, steps, n + 1, w, e)
       <==> if w == n then Started(refresh, steps, n, e) else Live(refresh, steps, n, w, e) && steps[n] != Release(w)
  {
    hide Started;
  }

  lemma RecordedNext<R>(steps: seq<Step<R>>, n: nat, w: nat)
    requires w < n < |steps|
    ensures HasRecorded(steps, n + 1, w) <==> HasRecorded(steps, n, w) || (steps[n].Record? && steps[n].worker == w)
  {
    if k :| w < k < n + 1 <= |steps| && steps[k].Record? && steps[k].worker == w && !(steps[n].Record? && steps[n].worker == w) {
      assert k < n;
    }
  }

  lemma RunNext<R>(refresh: nat, steps: seq<Step<R>>, n: nat)
    requires n < |steps| && Run(refresh, steps[..n + 1]).Some?
    ensures Run(refresh, steps[..n]).Some? && Enabled(Run(refresh, steps[..n]).value, steps[n])
    ensures Run(refresh, steps[..n + 1]).value == Next(Run(refresh, steps[..n]).value, refresh, steps[n], n)
  {
    assert steps[..n + 1] == steps[..n] + [steps[n]];
    RunOfPrefix(refresh, steps[..n], steps[n]);
  }

  /** The workers alive after a run, told from its steps. */
  lemma {:induction false} LiveExactly<R>(refresh: nat, steps: seq<Step<R>>, n: nat, w: nat, e: string)
    requires n <= |steps| && Run(refresh, steps[..n]).Some?
    ensures var s := Run(refresh, steps[..n]).value;
            && (w in s.workers && s.workers[w].endpoint == e <==> Live(refresh, steps, n, w, e))
            && (w in s.workers ==> w < n && (s.workers[w].recorded <==> HasRecorded(steps, n, w)))
    decreases n
  {
    if n > 0 {
      hide Run, Live, HasRecorded, Started;
      RunNext(refresh, steps, n - 1);
      var t := Run(refresh, steps[..n - 1]).value;
      LiveExactly(refresh, steps, n - 1, w, e);
      LiveNext(refresh, steps, n - 1, w, e);
      if w == n - 1 {
        StartedNow(refresh, steps, w, e);
        NotRecordedYet(steps, n, w);
      } else {
        WorkerNext(t, refresh, steps[n - 1], n - 1, w);
        if w < n - 1 {
          RecordedNext(steps, n - 1, w);
        }
      }
    }
  }

  /** What a step does to a worker started before it. */
  lemma WorkerNext<R>(s: System<R>, refresh: nat, step: Step<R>, at: nat, w: nat)
    requires Enabled(s, step) && w != at
    ensures var t := Next(s, refresh, step, at);
            && (w in t.workers <==> w in s.workers && step != Release(w))
            && (w in t.workers ==> && t.workers[w].endpoint == s.workers[w].endpoint
                                   && (t.workers[w].recorded <==> s.workers[w].recorded || (step.Record? && step.worker == w)))
  {
    hide Starts, Observed;
  }

  lemma NotRecordedYet<R>(steps: seq<Step<R>>, n: nat, w: nat)
    requires n <= w + 1
    ensures !HasRecorded(steps, n, w)
  {
  }

  lemma StartedNow<R>(refresh: nat, steps: seq<Step<R>>, j: nat, e: string)
    requires j < |steps| && Run(refresh, steps[..j]).Some? && Enabled(Run(refresh, steps[..j]).value, steps[j])
    requires j !in Run(refresh, steps[..j]).value.workers
    ensures var s := Next(Run(refresh, steps[..j]).value, refresh, steps[j], j);
            && (j in s.workers && s.workers[j].endpoint == e <==> Started(refresh, steps, j, e))
            && (j in s.workers ==> !s.workers[j].recorded)
  {
    hide Run, Fresh;
  }

  /** Neither has a worker for `e` still to be released, nor is a reading shown for `e` that is young enough. */
  ghost predicate IsDue<R>(refresh: nat, steps: seq<Step<R>>, j: nat, e: string)
    requires j < |steps| && steps[j].Observe?
  {
    && (forall i :: 0 <= i < j && Started(refresh, steps, i, e) ==> exists k :: i < k < j && steps[k] == Release(i))
    && (forall k :: 0 <= k < j && steps[k].Record? && Shows(steps[..j], k, e, steps[k].reading) ==>
          refresh == 0 || steps[j].now >= steps[k].taken + refresh)
  }

  /**
   When a read starts, exactly: an observation of `e` that can have a thread starts one just when every
   earlier worker for `e` has been released and no reading shown for `e` is younger than the interval.
   */
  lemma StartedExactly<R>(refresh: nat, steps: seq<Step<R>>, j: nat, e: string)
    requires j < |steps| && Run(refresh, steps[..j]).Some?
    ensures Started(refresh, steps, j, e) <==> StartedFor(steps, j, e) && IsDue(refresh, steps, j, e)
  {
    hide Run, Started, Shows, OneWorkerPerClaim, Provenance, CacheIsLatest;
    if StartedFor(steps, j, e) {
      StartsExactly(refresh, steps, j, e);
      ClaimedExactly(refresh, steps, j, e);
      FreshExactly(refresh, steps, j, e);
    } else {
      NotStarted(refresh, steps, j, e);
    }
  }

  lemma NotStarted<R>(refresh: nat, steps: seq<Step<R>>, j: nat, e: string)
    requires !StartedFor(steps, j, e)
    ensures !Started(refresh, steps, j, e)
  {
  }

  lemma StartsExactly<R>(refresh: nat, steps: seq<Step<R>>, j: nat, e: string)
    requires StartedFor(steps, j, e) && Run(refresh, steps[..j]).Some?
    ensures var p := Run(refresh, steps[..j]).value.poll;
            Started(refresh, steps, j, e) <==> !Fresh(p, refresh, e, steps[j].now) && e !in p.inFlight
  {
    hide Run, Fresh;
  }

  /** `e` is claimed just when some worker started for it has not been released. */
  lemma ClaimedExactly<R>(refresh: nat, steps: seq<Step<R>>, n: nat, e: string)
    requires n <= |steps| && Run(refresh, steps[..n]).Some?
    ensures e in Run(refresh, steps[..n]).value.poll.inFlight
       <==> exists i :: 0 <= i < n && Started(refresh, steps, i, e) && forall k :: i < k < n ==> steps[k] != Release(i)
  {
    hide Run, Started;
    var s := Run(refresh, steps[..n]).value;
    RunKeeps(refresh, steps[..n], s);
    forall w: nat ensures w in s.workers && s.workers[w].endpoint == e <==> Live(refresh, steps, n, w, e) {
      LiveExactly(refresh, steps, n, w, e);
    }
    if e in s.poll.inFlight {
      var w :| w in s.workers && s.workers[w].endpoint == e;
      assert Live(refresh, steps, n, w, e);
    }
    if i :| 0 <= i < n && Started(refresh, steps, i, e) && forall k :: i < k < n ==> steps[k] != Release(i) {
      assert Live(refresh, steps, n, i, e);
    }
  }

  /** A reading keeps the next one away just when it is shown and younger than the interval. */
  lemma FreshExactly<R>(refresh: nat, steps: seq<Step<R>>, j: nat, e: string)
    requires j < |steps| && steps[j].Observe? && Run(refresh, steps[..j]).Some?
    ensures Fresh(Run(refresh, steps[..j]).value.poll, refresh, e, steps[j].now)
       <==> exists k :: && 0 <= k < j && steps[k].Record? && Shows(steps[..j], k, e, steps[k].reading)
                        && refresh > 0 && steps[j].now < steps[k].taken + refresh
  {
    hide Run, OneWorkerPerClaim;
    var before := steps[..j];
    var s := Run(refresh, before).value;
    RunKeeps(refresh, before, s);
    if Latest(before).Some? {
      var k := Latest(before).value;
      LatestExact(before, k);
      assert before[k] == steps[k];
      if EndpointOf(before, before[k].worker) == e {
        assert Shows(before, k, e, before[k].reading);
      }
    }
    forall k | 0 <= k < j && steps[k].Record? && Shows(before, k, e, steps[k].reading)
      ensures Latest(before) == Some(k) && steps[k] == before[k]
    {
      LatestExact(before, k);
    }
  }

  /** Which step can come next in a run: any observation, one recording of a live worker, one release of it. */
  lemma PossibleExactly<R>(refresh: nat, steps: seq<Step<R>>, n: nat)
    requires n < |steps| && Run(refresh, steps[..n]).Some?
    ensures Run(refresh, steps[..n + 1]).Some?
       <==> match steps[n]
            case Observe(_, _, _) => true
            case Record(w, _, _) => (exists e :: Live(refresh, steps, n, w, e)) && !HasRecorded(steps, n, w)
            case Release(w) => exists e :: Live(refresh, steps, n, w, e)
  {
    hide Run, Live, HasRecorded;
    assert steps[..n + 1] == steps[..n] + [steps[n]];
    RunOfPrefix(refresh, steps[..n], steps[n]);
    var s := Run(refresh, steps[..n]).value;
    forall w: nat, e ensures w in s.workers && s.workers[w].endpoint == e <==> Live(refresh, steps, n, w, e) {
      LiveExactly(refresh, steps, n, w, e);
    }
    forall w: nat | w in s.workers
      ensures Live(refresh, steps, n, w, s.workers[w].endpoint) && (s.workers[w].recorded <==> HasRecorded(steps, n, w))
    {
      LiveExactly(refresh, steps, n, w, s.workers[w].endpoint);
    }
  }

  // ---------------------------------------------------------------- late workers

  lemma {:induction false} RunOfPart<R>(refresh: nat, steps: seq<Step<R>>, n: nat)
    requires n <= |steps| && Run(refresh, steps).Some?
    ensures Run(refresh, steps[..n]).Some?
    ensures n < |steps| ==> Enabled(Run(refresh, steps[..n]).value, steps[n])
    decreases |steps|
  {
    if n == |steps| {
      assert steps[..n] == steps;
    } else {
      var front := Before(steps);
      assert steps == front + [Last(steps)];
      RunOfPrefix(refresh, front, Last(steps));
      if n == |front| {
        assert steps[..n] == front;
      } else {
        RunOfPart(refresh, front, n);
        assert steps[..n] == front[..n] && steps[n] == front[n];
      }
    }
  }

  /** A worker that has not recorded by the end had not recorded at any point since it was started. */
  lemma {:induction false} UnrecordedBefore<R>(refresh: nat, steps: seq<Step<R>>, more: seq<Step<R>>, s: System<R>, t: System<R>, w: nat)
    requires Run(refresh, steps) == Some(s) && Run(refresh, steps + more) == Some(t)
    requires w < |steps| && w in t.workers && !t.workers[w].recorded
    ensures w in s.workers && s.workers[w] == t.workers[w]
    decreases |more|
  {
    if more == [] {
      assert steps + more == steps;
    } else {
      var front := Before(more);
      assert steps + more == (steps + front) + [Last(more)];
      RunOfPrefix(refresh, steps + front, Last(more));
      UnrecordedBefore(refresh, steps, front, s, Run(refresh, steps + front).value, w);
    }
  }

  /** After `steps`, a disconnect and `more`, `e` is shown as `r` by a worker that `steps` started. */
  ghost predicate ShownLate<R>(refresh: nat, steps: seq<Step<R>>, more: seq<Step<R>>, e: string, r: R) {
    var all := steps + [Observe(NoNode, 0, false)] + more;
    && Run(refresh, all).Some?
    && exists k: nat :: Shows(all, k, e, r) && all[k].worker < |steps|
  }

  lemma RecordedLate<R>(refresh: nat, steps: seq<Step<R>>, s: System<R>, more: seq<Step<R>>, e: string, r: R)
    returns (w: nat)
    requires Run(refresh, steps) == Some(s) && ShownLate(refresh, steps, more, e, r)
    ensures w in s.workers && s.workers[w] == Worker(e, false)
  {
    var all := steps + [Observe(NoNode, 0, false)] + more;
    var k: nat :| Shows(all, k, e, r) && all[k].worker < |steps|;
    w := all[k].worker;
    assert IsDisconnect(all[|steps|]) && k > |steps|;
    RunOfPart(refresh, all, k);
    assert all[..k] == steps + all[|steps|..k];
    UnrecordedBefore(refresh, steps, all[|steps|..k], s, Run(refresh, all[..k]).value, w);
    RunKeeps(refresh, steps, s);
    assert steps[w] == all[w];
  }

  lemma RecordsLate<R>(refresh: nat, steps: seq<Step<R>>, s: System<R>, e: string, r: R, w: nat)
    requires Run(refresh, steps) == Some(s) && w in s.workers && s.workers[w] == Worker(e, false)
    ensures ShownLate(refresh, steps, [Record(w, r, 0)], e, r)
  {
    var off := steps + [Observe(NoNode, 0, false)];
    var all := off + [Record(w, r, 0)];
    RunKeeps(refresh, steps, s);
    RunOfPrefix(refresh, steps, Observe(NoNode, 0, false));
    RunOfPrefix(refresh, off, Record(w, r, 0));
    assert all[w] == steps[w];
    assert Shows(all, |off|, e, r);
  }

  /**
   What a disconnect does not prevent, exactly: some continuation shows for `e` a reading begun before the
   disconnect just when, at the disconnect, a worker for `e` is alive that has not recorded.
   */
  lemma LateReadingsExactly<R>(refresh: nat, steps: seq<Step<R>>, s: System<R>, e: string, r: R)
    requires Run(refresh, steps) == Some(s)
    ensures (exists more :: ShownLate(refresh, steps, more, e, r))
       <==> exists w :: w in s.workers && s.workers[w] == Worker(e, false)
  {
    if more :| ShownLate(refresh, steps, more, e, r) {
      var w := RecordedLate(refresh, steps, s, more, e, r);
    }
    if w :| w in s.workers && s.workers[w] == Worker(e, false) {
      RecordsLate(refresh, steps, s, e, r, w);
    }
  }

  /** The link stays on `e` throughout `more`. */
  ghost predicate StaysOn<R>(more: seq<Step<R>>, e: string) {
    forall i :: 0 <= i < |more| && more[i].Observe? ==> more[i].link == Connected(e)
  }

  /** `more`, during which the link stays on `e`, leaves nothing to show for `e`. */
  ghost predicate Blanks<R>(refresh: nat, steps: seq<Step<R>>, more: seq<Step<R>>, e: string) {
    && StaysOn(more, e) && Run(refresh, steps + more).Some?
    && AnswerFor(Run(refresh, steps + more).value.poll, e) == Pending
  }

  lemma OwnWorkerRecords<R>(refresh: nat, steps: seq<Step<R>>, s: System<R>, more: seq<Step<R>>, u: System<R>, e: string, w: nat)
    requires Run(refresh, steps) == Some(s) && Run(refresh, steps + more) == Some(u) && StaysOn(more, e)
    requires forall w :: w in s.workers && !s.workers[w].recorded ==> s.workers[w].endpoint == e
    requires w in u.workers && !u.workers[w].recorded
    ensures u.workers[w].endpoint == e
  {
    hide Run, OneWorkerPerClaim, CacheIsLatest;
    RunKeeps(refresh, steps + more, u);
    assert StartedFor(steps + more, w, u.workers[w].endpoint);
    if w < |steps| {
      UnrecordedBefore(refresh, steps, more, s, u, w);
    } else {
      assert (steps + more)[w] == more[w - |steps|];
    }
  }

  lemma OwnWorkersSpare<R>(refresh: nat, steps: seq<Step<R>>, s: System<R>, more: seq<Step<R>>, e: string)
    requires Run(refresh, steps) == Some(s) && Run(refresh, steps + more).Some? && StaysOn(more, e)
    requires forall w :: w in s.workers && !s.workers[w].recorded ==> s.workers[w].endpoint == e
    ensures AllSpare(refresh, steps, more, e)
  {
    hide Run;
    forall n | 0 <= n < |more| && Run(refresh, steps + more[..n]).Some?
      ensures Spares(Run(refresh, steps + more[..n]).value, e, more[n])
    {
      PartOf(steps, more, n);
      RunOfPart(refresh, steps + more, |steps| + n);
      var u := Run(refresh, steps + more[..n]).value;
      if more[n].Record? {
        OwnWorkerRecords(refresh, steps, s, more[..n], u, e, more[n].worker);
      }
    }
  }

  lemma PartOf<R>(steps: seq<Step<R>>, more: seq<Step<R>>, n: nat)
    requires n < |more|
    ensures (steps + more)[..|steps| + n] == steps + more[..n] && (steps + more)[|steps| + n] == more[n]
  {
  }

  /**
   When a held answer can be blanked although the link stays where it is, exactly: just when a worker for
   another endpoint is alive that has not recorded.
   */
  lemma BlankedExactly<R>(refresh: nat, steps: seq<Step<R>>, s: System<R>, e: string)
    requires Run(refresh, steps) == Some(s) && AnswerFor(s.poll, e).Held?
    ensures (exists more :: Blanks(refresh, steps, more, e))
       <==> exists w :: w in s.workers && !s.workers[w].recorded && s.workers[w].endpoint != e
  {
    if w :| w in s.workers && !s.workers[w].recorded && s.workers[w].endpoint != e {
      var late := Record(w, AnswerFor(s.poll, e).reading, 0);
      RunOfPrefix(refresh, steps, late);
      HeldUntilReplaced(s, refresh, e, late, |steps|);
      assert Blanks(refresh, steps, [late], e);
    } else {
      forall more | StaysOn(more, e) && Run(refresh, steps + more).Some? ensures !Blanks(refresh, steps, more, e) {
        OwnWorkersSpare(refresh, steps, s, more, e);
        NoBlink(refresh, steps, more, s, Run(refresh, steps + more).value, e);
      }
    }
  }

  // ---------------------------------------------------------------- two runs worth knowing

  /**
   A worker started before a disconnect may record after it, and that reading is then shown on
   reconnecting: readings are kept apart by when they were recorded, not by when they were begun.
   */
  lemma LateWorkerIsShown()
    ensures var steps := [Observe(Connected("a"), 0, true), Observe(NoNode, 1, true), Record(0, 7, 2)];
            Run(30, steps).Some? && AnswerFor(Run(30, steps).value.poll, "a") == Held(7)
  {
    var s1 := [Observe(Connected("a"), 0, true)];
    var s2 := s1 + [Observe(NoNode, 1, true)];
    RunOfPrefix<int>(30, [], s1[0]);
    assert [] + [s1[0]] == s1;
    RunOfPrefix(30, s1, Observe(NoNode, 1, true));
    RunOfPrefix(30, s2, Record(0, 7, 2));
    assert s2 + [Record(0, 7, 2)] == [Observe(Connected("a"), 0, true), Observe(NoNode, 1, true), Record(0, 7, 2)];
  }

  /** And another endpoint's late worker does blank a held answer, with no disconnect in between. */
  lemma LateWorkerBlanks()
    ensures var steps := [Observe(Connected("a"), 0, true), Observe(Connected("b"), 1, true), Record(1, 7, 2)];
            && Run(30, steps).Some? && AnswerFor(Run(30, steps).value.poll, "b") == Held(7)
            && Run(30, steps + [Record(0, 8, 3)]).Some?
            && AnswerFor(Run(30, steps + [Record(0, 8, 3)]).value.poll, "b") == Pending
  {
    var s1 := [Observe(Connected("a"), 0, true)];
    var s2 := s1 + [Observe(Connected("b"), 1, true)];
    var s3 := s2 + [Record(1, 7, 2)];
    RunOfPrefix<int>(30, [], s1[0]);
    assert [] + [s1[0]] == s1;
    RunOfPrefix(30, s1, Observe(Connected("b"), 1, true));
    RunOfPrefix(30, s2, Record(1, 7, 2));
    RunOfPrefix(30, s3, Record(0, 8, 3));
    assert s3 == [Observe(Connected("a"), 0, true), Observe(Connected("b"), 1, true), Record(1, 7, 2)];
  }
}
