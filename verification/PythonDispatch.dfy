/**
 * Dispatch of a chat request to the Python service: admission by the shared
 * breaker, a retry loop, and the subprocess fallback.
 *
 * A request is an automaton whose steps are the moments where other requests
 * may run in between: one lock acquisition, one connection attempt, one
 * exchange with the service.  The system interleaves any number of requests
 * in any order; connect, exchange and reply outcomes are arbitrary.
 */
module PythonDispatch {
  import opened Common
  import opened PythonCircuit

  // ---------- one request ----------

  datatype Phase =
    | Ready                                                  // about to ask the breaker for admission
    | Connecting(observed: CircuitState)                     // admitted
    | Writing(observed: CircuitState)                        // connected; the request is being written
    | FailureDue(observed: CircuitState, replaySafe: bool)   // the failure is not yet reported
    | SuccessDue(observed: CircuitState)                     // a JSON reply came; not yet reported
    | Replied(observed: CircuitState)                        // success reported; reply not yet inspected
    | RejectDue(observed: CircuitState)                      // reply unusable; not yet reported
    | Failed(replaySafe: bool)                               // the policy returned an error
    | Done

  datatype Exchange =
    | TransportFailure   // write, read or HTTP parsing failed, or the exchange timed out
    | BadStatus
    | InvalidJson
    | JsonReply

  datatype Event =
    | Admit(now: Instant)
    | Connect(ok: bool)
    | Exchanged(outcome: Exchange)
    | Deliver(now: Instant)      // deliver the report that is due
    | Inspect(usable: bool)
    | Conclude                   // choose between the fallback process and an error reply

  datatype Call = Call(phase: Phase, attemptsLeft: nat, connects: nat, writes: nat, fallbacks: nat)

  function Attempts(cfg: Config): nat {
    if cfg.retryAttempts == USIZE_MAX then USIZE_MAX else cfg.retryAttempts + 1
  }

  function NewCall(cfg: Config): Call {
    Call(Ready, Attempts(cfg), 0, 0, 0)
  }

  predicate Enabled(c: Call, e: Event) {
    match e
    case Admit(_) => c.phase.Ready? && c.attemptsLeft > 0
    case Connect(_) => c.phase.Connecting?
    case Exchanged(_) => c.phase.Writing?
    case Deliver(_) => c.phase.FailureDue? || c.phase.SuccessDue? || c.phase.RejectDue?
    case Inspect(_) => c.phase.Replied?
    case Conclude => c.phase.Failed?
  }

  // The request and the shared breaker after one step of the request.
  function Advance(cfg: Config, c: Call, b: Breaker, e: Event): (Call, Breaker)
    requires Enabled(c, e)
  {
    match e
    case Admit(now) =>
      var (b', observed) := AfterBeforeCall(b, cfg, now);
      if observed == Open
      then (c.(phase := Failed(true)), b')
      else (c.(phase := Connecting(observed), attemptsLeft := c.attemptsLeft - 1), b')
    case Connect(ok) =>
      var c' := c.(connects := c.connects + 1);
      if ok
      then (c'.(phase := Writing(c.phase.observed), writes := c.writes + 1), b)
      else (c'.(phase := FailureDue(c.phase.observed, true)), b)
    case Exchanged(outcome) =>
      if outcome == JsonReply
      then (c.(phase := SuccessDue(c.phase.observed)), b)
      else (c.(phase := FailureDue(c.phase.observed, false)), b)
    case Deliver(now) =>
      (match c.phase
       case SuccessDue(observed) => (c.(phase := Replied(observed)), AfterSuccess(b))
       case RejectDue(observed) => (c.(phase := Done), AfterFailureReport(b, cfg, observed, now))
       case FailureDue(observed, replaySafe) =>
         var next := if replaySafe && c.attemptsLeft > 0 then Ready else Failed(replaySafe);
         (c.(phase := next), AfterFailureReport(b, cfg, observed, now)))
    case Inspect(usable) =>
      (c.(phase := if usable then Done else RejectDue(c.phase.observed)), b)
    case Conclude =>
      var launch := cfg.fallbackToSubprocess && c.phase.replaySafe;
      (c.(phase := Done, fallbacks := c.fallbacks + if launch then 1 else 0), b)
  }

  // ---------- many requests around one breaker ----------

  datatype Report = Success | Failure

  // `reports` lists every delivered report, newest last; `prober` is the request
  // that last moved the breaker into HalfOpen.
  datatype System = System(breaker: Breaker, calls: map<nat, Call>, reports: seq<Report>, prober: Option<nat>)

  datatype Action =
    | Arrive(id: nat)
    | Act(id: nat, event: Event)

  const Initial: System := System(Fresh, map[], [], None)

  predicate Effective(s: System, a: Action) {
    match a
    case Arrive(id) => id !in s.calls
    case Act(id, e) => id in s.calls && Enabled(s.calls[id], e)
  }

  function DeliveredReports(c: Call, e: Event): seq<Report>
    requires Enabled(c, e)
  {
    if !e.Deliver? then [] else if c.phase.SuccessDue? then [Success] else [Failure]
  }

  // An action that is not possible in the current state changes nothing.
  function Step(cfg: Config, s: System, a: Action): System {
    if !Effective(s, a) then s
    else match a
      case Arrive(id) => s.(calls := s.calls[id := NewCall(cfg)])
      case Act(id, e) =>
        var (c, b) := Advance(cfg, s.calls[id], s.breaker, e);
        System(
          b,
          s.calls[id := c],
          s.reports + DeliveredReports(s.calls[id], e),
          if s.breaker.state != HalfOpen && b.state == HalfOpen then Some(id) else s.prober)
  }

  function Run(cfg: Config, actions: seq<Action>): System {
    if actions == [] then Initial
    else Step(cfg, Run(cfg, actions[..|actions|-1]), actions[|actions|-1])
  }

  // The number of failure reports since the last success report.
  function FailuresSince(reports: seq<Report>): nat {
    if reports == [] || reports[|reports|-1] == Success then 0
    else 1 + FailuresSince(reports[..|reports|-1])
  }

  // ---------- invariants ----------

  // Nothing has been written while the phase still allows a replay.
  ghost predicate CallInv(cfg: Config, c: Call) {
    && c.connects + c.attemptsLeft + (if c.phase.Connecting? then 1 else 0) <= Attempts(cfg)
    && c.writes + c.fallbacks <= 1
    && (!c.phase.Done? ==> c.fallbacks == 0)
    && (c.phase.Ready? || c.phase.Connecting? ==> c.writes == 0)
    && ((c.phase.FailureDue? || c.phase.Failed?) && c.phase.replaySafe ==> c.writes == 0)
    && (!c.phase.Ready? && !c.phase.Failed? && !c.phase.Done? ==> c.phase.observed != Open)
  }

  // Between its admission and its first report.
  predicate InFlight(c: Call, observed: CircuitState) {
    (c.phase.Connecting? || c.phase.Writing? || c.phase.FailureDue? || c.phase.SuccessDue?)
    && c.phase.observed == observed
  }

  ghost predicate BreakerInv(cfg: Config, s: System) {
    && s.breaker.halfOpenInFlight == (s.breaker.state == HalfOpen)
    && (s.breaker.state != Closed ==> s.breaker.openedAt.Some?)
    && (s.breaker.state == HalfOpen ==>
          s.prober.Some? && s.prober.value in s.calls && InFlight(s.calls[s.prober.value], HalfOpen))
    && (if cfg.enabled then HistoryInv(cfg, s.breaker, FailuresSince(s.reports)) else s.breaker == Fresh)
  }

  // The breaker after n failures since the last success.
  ghost predicate HistoryInv(cfg: Config, b: Breaker, n: nat) {
    && (b.state == Closed <==> n < cfg.Threshold())
    && (b.state == Closed ==> b.failureCount == n)
    && (b.state != Closed ==> b.failureCount >= cfg.Threshold())
  }

  lemma FailureKeepsHistory(cfg: Config, b: Breaker, n: nat, observed: CircuitState, now: Instant)
    requires cfg.enabled && HistoryInv(cfg, b, n) && observed != Open
    ensures HistoryInv(cfg, AfterFailureReport(b, cfg, observed, now), n + 1)
  {
  }

  ghost predicate Inv(cfg: Config, s: System) {
    (forall id :: id in s.calls ==> CallInv(cfg, s.calls[id])) && BreakerInv(cfg, s)
  }

  lemma AdvanceKeepsCallInv(cfg: Config, c: Call, b: Breaker, e: Event)
    requires CallInv(cfg, c) && Enabled(c, e)
    ensures CallInv(cfg, Advance(cfg, c, b, e).0)
  {
    if e.Admit? {
      var (_, observed) := AfterBeforeCall(b, cfg, e.now);
    }
  }

  lemma FailuresSinceAppend(reports: seq<Report>, r: Report)
    ensures FailuresSince(reports + [r]) == if r == Success then 0 else FailuresSince(reports) + 1
  {
    assert (reports + [r])[..|reports|] == reports;
  }

  // A step of a request keeps the history and the discipline of the flag.
  lemma AdvanceKeepsHistory(cfg: Config, c: Call, b: Breaker, e: Event, reports: seq<Report>)
    requires cfg.enabled && CallInv(cfg, c) && Enabled(c, e) && HistoryInv(cfg, b, FailuresSince(reports))
    ensures HistoryInv(cfg, Advance(cfg, c, b, e).1, FailuresSince(reports + DeliveredReports(c, e)))
  {
    if e.Deliver? {
      FailuresSinceAppend(reports, if c.phase.SuccessDue? then Success else Failure);
      if !c.phase.SuccessDue? {
        FailureKeepsHistory(cfg, b, FailuresSince(reports), c.phase.observed, e.now);
      }
    } else {
      assert reports + DeliveredReports(c, e) == reports;
    }
  }

  lemma AdvanceKeepsFlag(cfg: Config, c: Call, b: Breaker, e: Event)
    requires Enabled(c, e) && (cfg.enabled || b == Fresh)
    requires b.halfOpenInFlight == (b.state == HalfOpen) && (b.state != Closed ==> b.openedAt.Some?)
    ensures var (c', b') := Advance(cfg, c, b, e);
      && b'.halfOpenInFlight == (b'.state == HalfOpen)
      && (b'.state != Closed ==> b'.openedAt.Some?)
      && (b'.state == HalfOpen && b.state != HalfOpen ==> InFlight(c', HalfOpen))
      && (b'.state == HalfOpen && InFlight(c, HalfOpen) ==> InFlight(c', HalfOpen))
      && (!cfg.enabled && b == Fresh ==> b' == Fresh)
  {
  }

  lemma StepKeepsInv(cfg: Config, s: System, a: Action)
    requires Inv(cfg, s)
    ensures Inv(cfg, Step(cfg, s, a))
  {
    if Effective(s, a) && a.Act? {
      AdvanceKeepsCallInv(cfg, s.calls[a.id], s.breaker, a.event);
      AdvanceKeepsFlag(cfg, s.calls[a.id], s.breaker, a.event);
      if cfg.enabled {
        AdvanceKeepsHistory(cfg, s.calls[a.id], s.breaker, a.event, s.reports);
      }
    }
  }

  lemma {:induction false} RunKeepsInv(cfg: Config, actions: seq<Action>)
    ensures Inv(cfg, Run(cfg, actions))
  {
    if actions != [] {
      RunKeepsInv(cfg, actions[..|actions|-1]);
      StepKeepsInv(cfg, Run(cfg, actions[..|actions|-1]), actions[|actions|-1]);
    }
  }

  // ---------- theorems over whole runs ----------

  // A request is executed at most once, by the service or by a fallback process.
  lemma AtMostOnce(cfg: Config, actions: seq<Action>, id: nat)
    requires id in Run(cfg, actions).calls
    ensures var c := Run(cfg, actions).calls[id];
      c.writes + c.fallbacks <= 1 && c.connects <= cfg.retryAttempts + 1
  {
    RunKeepsInv(cfg, actions);
  }

  // The last n reports are failures.
  predicate EndsWithFailures(reports: seq<Report>, n: nat) {
    n <= |reports| && forall i :: |reports| - n <= i < |reports| ==> reports[i] == Failure
  }

  lemma {:induction false} FailuresSinceSpec(reports: seq<Report>, n: nat)
    ensures FailuresSince(reports) >= n <==> EndsWithFailures(reports, n)
  {
    if reports != [] && n > 0 {
      var init := reports[..|reports|-1];
      FailuresSinceSpec(init, n - 1);
      if EndsWithFailures(reports, n) {
        assert reports[|reports|-1] == Failure;
        assert forall i :: 0 <= i < |init| ==> init[i] == reports[i];
      }
    }
  }

  // The breaker is a function of the report history, and its counter agrees: it is
  // not Closed exactly when as many failures as the threshold came last, where a
  // configured threshold of 0 acts as 1.
  lemma ClosedIffFewFailures(cfg: Config, actions: seq<Action>)
    requires cfg.enabled
    ensures var s := Run(cfg, actions);
      && (s.breaker.state == Closed <==> s.breaker.failureCount < cfg.Threshold())
      && (s.breaker.state == Closed <==> FailuresSince(s.reports) < cfg.Threshold())
      && (s.breaker.state == Closed ==> s.breaker.failureCount == FailuresSince(s.reports))
      && (s.breaker.state != Closed <==> EndsWithFailures(s.reports, Max(1, cfg.failureThreshold)))
  {
    FailuresSinceSpec(Run(cfg, actions).reports, Max(1, cfg.failureThreshold));
    RunKeepsInv(cfg, actions);
  }

  // A disabled breaker never leaves its initial state, whatever is reported.
  lemma DisabledBreakerStaysClosed(cfg: Config, actions: seq<Action>)
    requires !cfg.enabled
    ensures Run(cfg, actions).breaker == Fresh
  {
    RunKeepsInv(cfg, actions);
  }

  // HalfOpen always has the request that entered it still in flight.
  lemma HalfOpenHasItsProbe(cfg: Config, actions: seq<Action>)
    ensures var s := Run(cfg, actions);
      && (s.breaker.halfOpenInFlight <==> s.breaker.state == HalfOpen)
      && (s.breaker.state == HalfOpen ==>
            s.prober.Some? && s.prober.value in s.calls && InFlight(s.calls[s.prober.value], HalfOpen))
  {
    RunKeepsInv(cfg, actions);
  }

  // ---------- the half-open episode ----------

  // The steps the probe still has to take before its report is due.
  function StepsToReport(c: Call): nat {
    match c.phase
    case Connecting(_) => 2
    case Writing(_) => 1
    case _ => 0
  }

  predicate Admitted(s: System, s': System, a: Action) {
    a.Act? && a.event.Admit? && Effective(s, a) && a.id in s'.calls && s'.calls[a.id].phase.Connecting?
  }

  // While the breaker stays HalfOpen nobody is admitted, the probe is untouched
  // by the others, and each of its own steps brings its report nearer.
  lemma HalfOpenStep(cfg: Config, s: System, a: Action)
    requires Inv(cfg, s) && s.breaker.state == HalfOpen
    requires Step(cfg, s, a).breaker.state == HalfOpen
    ensures var s' := Step(cfg, s, a);
      && s'.prober == s.prober
      && !Admitted(s, s', a)
      && s.prober.Some? && s.prober.value in s.calls && s.prober.value in s'.calls
      && StepsToReport(s'.calls[s.prober.value])
           + (if Effective(s, a) && a.id == s.prober.value then 1 else 0)
         <= StepsToReport(s.calls[s.prober.value])
  {
    var p := s.prober.value;
    assert InFlight(s.calls[p], HalfOpen);
  }

  lemma EnteringHalfOpen(cfg: Config, s: System, a: Action)
    requires Inv(cfg, s) && s.breaker.state != HalfOpen
    requires Step(cfg, s, a).breaker.state == HalfOpen
    ensures var s' := Step(cfg, s, a);
      && Admitted(s, s', a)
      && s'.prober == Some(a.id)
      && a.id in s'.calls
      && StepsToReport(s'.calls[a.id]) == 2
  {
  }

  // The state after the first k actions.
  function At(cfg: Config, actions: seq<Action>, k: nat): System
    requires k <= |actions|
  {
    Run(cfg, actions[..k])
  }

  lemma AtNext(cfg: Config, actions: seq<Action>, k: nat)
    requires k < |actions|
    ensures At(cfg, actions, k + 1) == Step(cfg, At(cfg, actions, k), actions[k])
  {
    assert actions[..k+1][..k] == actions[..k];
  }

  ghost predicate HalfOpenThroughout(cfg: Config, actions: seq<Action>, i: nat, j: nat)
    requires i <= j <= |actions|
  {
    forall k: nat :: i <= k <= j ==> At(cfg, actions, k).breaker.state == HalfOpen
  }

  // The steps taken by request p among the actions i..j.
  ghost function OwnSteps(cfg: Config, actions: seq<Action>, p: nat, i: nat, j: nat): set<nat>
    requires i <= j <= |actions|
  {
    set k: nat | i <= k < j && Effective(At(cfg, actions, k), actions[k]) && actions[k].id == p
  }

  lemma NoOwnSteps(cfg: Config, actions: seq<Action>, p: nat, i: nat)
    requires i <= |actions|
    ensures OwnSteps(cfg, actions, p, i, i) == {}
  {
  }

  lemma OwnStepsNext(cfg: Config, actions: seq<Action>, p: nat, i: nat, j: nat)
    requires i <= j < |actions|
    ensures |OwnSteps(cfg, actions, p, i, j + 1)| == |OwnSteps(cfg, actions, p, i, j)|
      + if Effective(At(cfg, actions, j), actions[j]) && actions[j].id == p then 1 else 0
  {
    hide Effective, At;
    var before, after := OwnSteps(cfg, actions, p, i, j), OwnSteps(cfg, actions, p, i, j + 1);
    if Effective(At(cfg, actions, j), actions[j]) && actions[j].id == p {
      assert after == before + {j};
    } else {
      assert after == before;
    }
  }

  // Action i moves the breaker into HalfOpen, which then lasts through action j:
  // the entry admits one request, it remains the probe, and it takes at most two
  // steps before its report is due.
  lemma {:induction false} OneProbePerEpisode(cfg: Config, actions: seq<Action>, i: nat, j: nat)
    requires i < j <= |actions|
    requires At(cfg, actions, i).breaker.state != HalfOpen
    requires HalfOpenThroughout(cfg, actions, i + 1, j)
    ensures Admitted(At(cfg, actions, i), At(cfg, actions, i + 1), actions[i])
    ensures At(cfg, actions, j).prober == Some(actions[i].id)
    ensures actions[i].id in At(cfg, actions, j).calls
    ensures StepsToReport(At(cfg, actions, j).calls[actions[i].id])
              + |OwnSteps(cfg, actions, actions[i].id, i + 1, j)| <= 2
  {
    hide Step, Effective, StepsToReport, Run, Inv, Admitted, OwnSteps;
    var s, a := At(cfg, actions, j - 1), actions[j - 1];
    RunKeepsInv(cfg, actions[..j-1]);
    AtNext(cfg, actions, j - 1);
    assert At(cfg, actions, j).breaker.state == HalfOpen;
    if j == i + 1 {
      EnteringHalfOpen(cfg, s, a);
      NoOwnSteps(cfg, actions, actions[i].id, j);
    } else {
      OneProbePerEpisode(cfg, actions, i, j - 1);
      OwnStepsNext(cfg, actions, actions[i].id, i + 1, j - 1);
      assert s.breaker.state == HalfOpen;
      HalfOpenStep(cfg, s, a);
    }
  }

  // Until HalfOpen is left no other request is admitted.
  lemma NoSecondProbe(cfg: Config, actions: seq<Action>, k: nat)
    requires k < |actions| && HalfOpenThroughout(cfg, actions, k, k + 1)
    ensures !Admitted(At(cfg, actions, k), At(cfg, actions, k + 1), actions[k])
  {
    RunKeepsInv(cfg, actions[..k]);
    AtNext(cfg, actions, k);
    assert At(cfg, actions, k).breaker.state == HalfOpen && At(cfg, actions, k + 1).breaker.state == HalfOpen;
    HalfOpenStep(cfg, At(cfg, actions, k), actions[k]);
  }

  // HalfOpen cannot last: the probe always has a step to take, and the step that
  // delivers its report leaves HalfOpen, whatever it reports.
  lemma ProbeReportLeavesHalfOpen(cfg: Config, actions: seq<Action>, e: Event)
    requires Run(cfg, actions).breaker.state == HalfOpen
    ensures var s := Run(cfg, actions);
      && s.prober.Some? && s.prober.value in s.calls
      && var c := s.calls[s.prober.value];
         && Enabled(c, Connect(true)) == (StepsToReport(c) == 2)
         && Enabled(c, Exchanged(JsonReply)) == (StepsToReport(c) == 1)
         && Enabled(c, Deliver(0)) == (StepsToReport(c) == 0)
         && (Enabled(c, e) ==>
               ((Step(cfg, s, Act(s.prober.value, e)).breaker.state != HalfOpen) <==> e.Deliver?))
  {
    RunKeepsInv(cfg, actions);
    var s := Run(cfg, actions);
    assert InFlight(s.calls[s.prober.value], HalfOpen);
  }

  // In every reachable state a request that asks is admitted exactly when the
  // breaker is Closed, or Open for at least the reset time; the latter also in
  // nanoseconds, up to where the 64-bit count of milliseconds wraps around.
  lemma AdmittedExactlyWhen(cfg: Config, actions: seq<Action>, id: nat, now: Instant)
    requires cfg.enabled
    requires id in Run(cfg, actions).calls && Enabled(Run(cfg, actions).calls[id], Admit(now))
    ensures var s := Run(cfg, actions);
      Admitted(s, Step(cfg, s, Act(id, Admit(now))), Act(id, Admit(now))) <==>
        || s.breaker.state == Closed
        || (s.breaker.state == Open && s.breaker.openedAt.Some?
            && ElapsedMs(now, s.breaker.openedAt.value) >= cfg.resetMs)
    ensures var s, admit := Run(cfg, actions), Act(id, Admit(now));
      s.breaker.state == Open ==>
        && s.breaker.openedAt.Some?
        && var since := s.breaker.openedAt.value;
           && (now < since + MILLIS_WRAP * 1_000_000 ==>
                 (Admitted(s, Step(cfg, s, admit), admit) <==>
                    now >= since + cfg.resetMs * 1_000_000 || cfg.resetMs == 0))
           && (now >= since ==>
                 (Admitted(s, Step(cfg, s, admit), admit) <==>
                    (now - since) / 1_000_000 % 0x1_0000_0000_0000_0000 >= cfg.resetMs))
  {
    RunKeepsInv(cfg, actions);
    var since := Run(cfg, actions).breaker.openedAt;
    if since.Some? && now < since.value + MILLIS_WRAP * 1_000_000 {
      ElapsedExactly(now, since.value, cfg.resetMs);
    }
  }

  // Whole milliseconds are counted in 64 bits.
  const MILLIS_WRAP: nat := 0x1_0000_0000_0000_0000

  lemma ElapsedExactly(now: Instant, since: Instant, ms: nat)
    requires now < since + MILLIS_WRAP * 1_000_000
    ensures ElapsedMs(now, since) >= ms <==> now >= since + ms * 1_000_000 || ms == 0
  {
    if now >= since {
      var d := now - since;
      assert d / 1_000_000 < MILLIS_WRAP;
      assert ElapsedMs(now, since) == d / 1_000_000;
      assert d == d / 1_000_000 * 1_000_000 + d % 1_000_000;
    }
  }

  // ---------- the cool-down ----------

  function TimeOf(a: Action): Option<Instant> {
    match a
    case Act(_, Admit(now)) => Some(now)
    case Act(_, Deliver(now)) => Some(now)
    case _ => None
  }

  // The clock that the critical sections read never goes back.
  ghost predicate ClockOrdered(actions: seq<Action>) {
    forall i, j :: 0 <= i < j < |actions| && TimeOf(actions[i]).Some? && TimeOf(actions[j]).Some? ==>
      TimeOf(actions[i]).value <= TimeOf(actions[j]).value
  }

  lemma OpenStep(cfg: Config, s: System, a: Action)
    requires Step(cfg, s, a).breaker.state == Open
    ensures s.breaker.state != Open ==>
      TimeOf(a).Some? && Step(cfg, s, a).breaker.openedAt == TimeOf(a)
    ensures s.breaker.state == Open ==>
      Step(cfg, s, a).breaker.openedAt == s.breaker.openedAt
      || (TimeOf(a).Some? && Step(cfg, s, a).breaker.openedAt == TimeOf(a))
  {
  }

  // Action i opens the breaker, which stays Open through action j.
  lemma {:induction false} OpenedNoEarlier(cfg: Config, actions: seq<Action>, i: nat, j: nat)
    requires i < j <= |actions| && ClockOrdered(actions)
    requires At(cfg, actions, i).breaker.state != Open
    requires forall k: nat :: i < k <= j ==> At(cfg, actions, k).breaker.state == Open
    ensures TimeOf(actions[i]).Some?
    ensures var since := At(cfg, actions, j).breaker.openedAt;
      since.Some? && since.value >= TimeOf(actions[i]).value
  {
    AtNext(cfg, actions, j - 1);
    OpenStep(cfg, At(cfg, actions, j - 1), actions[j - 1]);
    if j > i + 1 {
      OpenedNoEarlier(cfg, actions, i, j - 1);
    }
  }

  // Nobody is admitted until the reset time has passed since the breaker opened.
  lemma CoolDown(cfg: Config, actions: seq<Action>, i: nat, j: nat)
    requires i < j < |actions| && ClockOrdered(actions)
    requires At(cfg, actions, i).breaker.state != Open
    requires forall k: nat :: i < k <= j ==> At(cfg, actions, k).breaker.state == Open
    requires Admitted(At(cfg, actions, j), At(cfg, actions, j + 1), actions[j])
    ensures TimeOf(actions[i]).Some?
    ensures actions[j].event.now >= TimeOf(actions[i]).value
    ensures (actions[j].event.now - TimeOf(actions[i]).value) / NANOS_PER_MILLI >= cfg.resetMs
  {
    OpenedNoEarlier(cfg, actions, i, j);
    AtNext(cfg, actions, j);
    RunKeepsInv(cfg, actions[..j]);
    var since, now := At(cfg, actions, j).breaker.openedAt.value, actions[j].event.now;
    assert ElapsedMs(now, since) >= cfg.resetMs;
    ElapsedLater(now, since, TimeOf(actions[i]).value, cfg.resetMs);
  }

  lemma ElapsedLater(now: Instant, since: Instant, t: Instant, ms: nat)
    requires t <= since && t <= now && ElapsedMs(now, since) >= ms
    ensures (now - t) / NANOS_PER_MILLI >= ms
  {
    if since <= now {
      assert (now - since) / NANOS_PER_MILLI >= ElapsedMs(now, since);
      assert now - t >= now - since;
    }
  }
}
