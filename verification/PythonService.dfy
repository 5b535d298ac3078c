/**
 * The retry loop and the fallback decision as the service runs them, on the
 * shared mutable breaker.  What other requests do to the breaker between two
 * critical sections of this request, and what the service answers, is input.
 */
module PythonService {
  import opened Common
  import opened PythonCircuit
  import opened PythonDispatch

  // Everything one attempt meets: the breaker as other requests left it, the
  // clock, and the outcomes of connecting and of the exchange.
  datatype AttemptEnv = AttemptEnv(
    foundAtAdmission: Breaker,
    admitAt: Instant,
    connects: bool,
    exchange: Exchange,
    foundAtReport: Breaker,
    reportAt: Instant)

  datatype ReplyEnv = ReplyEnv(usable: bool, foundAtReport: Breaker, reportAt: Instant)

  datatype PolicyResult = Reply(observed: CircuitState) | PolicyError(replaySafe: bool)

  datatype Outcome = Answered | ErrorReply | FallbackLaunched

  // One request together with the breaker as it last left it.
  datatype Local = Local(call: Call, breaker: Breaker)

  // Offer the automaton a step; it takes the step only if its phase allows it.
  function Offer(cfg: Config, l: Local, found: Breaker, e: Event): Local {
    if Enabled(l.call, e)
    then var (c, b) := Advance(cfg, l.call, found, e); Local(c, b)
    else l
  }

  function OfferAttempt(cfg: Config, l: Local, env: AttemptEnv): Local {
    var l1 := Offer(cfg, l, env.foundAtAdmission, Admit(env.admitAt));
    var l2 := Offer(cfg, l1, l1.breaker, Connect(env.connects));
    var l3 := Offer(cfg, l2, l2.breaker, Exchanged(env.exchange));
    Offer(cfg, l3, env.foundAtReport, Deliver(env.reportAt))
  }

  function OfferAll(cfg: Config, l: Local, envs: seq<AttemptEnv>): Local
    decreases |envs|
  {
    if envs == [] then l else OfferAll(cfg, OfferAttempt(cfg, l, envs[0]), envs[1..])
  }

  function OfferReply(cfg: Config, l: Local, env: ReplyEnv): Local {
    var l1 := Offer(cfg, l, l.breaker, Inspect(env.usable));
    var l2 := Offer(cfg, l1, env.foundAtReport, Deliver(env.reportAt));
    Offer(cfg, l2, l2.breaker, Conclude)
  }

  // The automaton, driven by the environment of the whole request.
  function Whole(cfg: Config, b: Breaker, envs: seq<AttemptEnv>): Local {
    OfferAll(cfg, Local(NewCall(cfg), b), envs)
  }

  lemma {:induction false} OfferAllKeepsCallInv(cfg: Config, l: Local, envs: seq<AttemptEnv>)
    requires CallInv(cfg, l.call)
    ensures CallInv(cfg, OfferAll(cfg, l, envs).call)
    decreases |envs|
  {
    if envs != [] {
      OfferKeepsCallInv(cfg, l, envs[0].foundAtAdmission, Admit(envs[0].admitAt));
      var l1 := Offer(cfg, l, envs[0].foundAtAdmission, Admit(envs[0].admitAt));
      OfferKeepsCallInv(cfg, l1, l1.breaker, Connect(envs[0].connects));
      var l2 := Offer(cfg, l1, l1.breaker, Connect(envs[0].connects));
      OfferKeepsCallInv(cfg, l2, l2.breaker, Exchanged(envs[0].exchange));
      var l3 := Offer(cfg, l2, l2.breaker, Exchanged(envs[0].exchange));
      OfferKeepsCallInv(cfg, l3, envs[0].foundAtReport, Deliver(envs[0].reportAt));
      OfferAllKeepsCallInv(cfg, OfferAttempt(cfg, l, envs[0]), envs[1..]);
    }
  }

  lemma OfferKeepsCallInv(cfg: Config, l: Local, found: Breaker, e: Event)
    requires CallInv(cfg, l.call)
    ensures CallInv(cfg, Offer(cfg, l, found, e).call)
  {
    if Enabled(l.call, e) {
      AdvanceKeepsCallInv(cfg, l.call, found, e);
    }
  }

  // The four ways an admitted or refused attempt can go.
  lemma AttemptCases(cfg: Config, l: Local, env: AttemptEnv)
    requires l.call.phase.Ready? && l.call.attemptsLeft > 0
    ensures var (b, observed) := AfterBeforeCall(env.foundAtAdmission, cfg, env.admitAt);
      var c := l.call.(attemptsLeft := l.call.attemptsLeft - 1, connects := l.call.connects + 1);
      var failed := AfterFailureReport(env.foundAtReport, cfg, observed, env.reportAt);
      OfferAttempt(cfg, l, env) ==
        if observed == Open then Local(l.call.(phase := Failed(true)), b)
        else if !env.connects then
          Local(c.(phase := if c.attemptsLeft > 0 then Ready else Failed(true)), failed)
        else if env.exchange == JsonReply then
          Local(c.(phase := Replied(observed), writes := c.writes + 1), Fresh)
        else Local(c.(phase := Failed(false), writes := c.writes + 1), failed)
  {
  }

  // Once the policy has returned, no further attempt happens.
  lemma {:induction false} SettledStays(cfg: Config, l: Local, envs: seq<AttemptEnv>)
    requires l.call.phase.Replied? || l.call.phase.Failed?
    ensures OfferAll(cfg, l, envs) == l
    decreases |envs|
  {
    if envs != [] {
      assert OfferAttempt(cfg, l, envs[0]) == l;
      SettledStays(cfg, l, envs[1..]);
    }
  }

  lemma NextAttempt(cfg: Config, l: Local, envs: seq<AttemptEnv>, i: nat)
    requires i < |envs|
    ensures var next := OfferAttempt(cfg, l, envs[i]);
      OfferAll(cfg, l, envs[i..])
        == if next.call.phase.Replied? || next.call.phase.Failed? then next else OfferAll(cfg, next, envs[i+1..])
  {
    var next := OfferAttempt(cfg, l, envs[i]);
    assert envs[i..][1..] == envs[i+1..];
    if next.call.phase.Replied? || next.call.phase.Failed? {
      SettledStays(cfg, next, envs[i+1..]);
    }
  }

  // An attempt that was admitted and could not connect; only such an attempt is
  // followed by another one.
  predicate Refused(cfg: Config, env: AttemptEnv) {
    AfterBeforeCall(env.foundAtAdmission, cfg, env.admitAt).1 != Open && !env.connects
  }

  // The first k attempts are refused a connection and the next, if any, is not.
  ghost predicate DecidedAt(cfg: Config, envs: seq<AttemptEnv>, k: nat) {
    && k <= |envs|
    && (forall i :: 0 <= i < k ==> Refused(cfg, envs[i]))
    && (k < |envs| ==> !Refused(cfg, envs[k]))
  }

  // What the caller then gets, the number of connections and of written requests.
  function PolicyAt(cfg: Config, envs: seq<AttemptEnv>, k: nat): (PolicyResult, nat, nat)
    requires k <= |envs|
  {
    if k == |envs| then (PolicyError(true), k, 0)
    else
      var observed := AfterBeforeCall(envs[k].foundAtAdmission, cfg, envs[k].admitAt).1;
      if observed == Open then (PolicyError(true), k, 0)
      else (if envs[k].exchange == JsonReply then Reply(observed) else PolicyError(false), k + 1, 1)
  }

  lemma {:induction false} AfterRefusals(cfg: Config, l: Local, envs: seq<AttemptEnv>, k: nat)
    requires l.call.phase.Ready? && l.call.attemptsLeft == |envs| > 0 && DecidedAt(cfg, envs, k)
    ensures var (c, (r, connects, writes)) := (OfferAll(cfg, l, envs).call, PolicyAt(cfg, envs, k));
      && c.phase == (match r case Reply(observed) => Replied(observed) case PolicyError(safe) => Failed(safe))
      && c.connects == l.call.connects + connects
      && c.writes == l.call.writes + writes
    decreases |envs|
  {
    var next, rest := OfferAttempt(cfg, l, envs[0]), envs[1..];
    AttemptCases(cfg, l, envs[0]);
    if k == 0 || rest == [] {
      SettledStays(cfg, next, rest);
    } else {
      assert forall i :: 0 <= i < |rest| ==> rest[i] == envs[i+1];
      AfterRefusals(cfg, next, rest, k - 1);
    }
  }

  // The request is tried again, at most as often as configured (saturated in 64 bits),
  // exactly as long as it is admitted and refused a connection; the first other attempt
  // decides, or the last one.
  lemma RetriesUntilDecided(cfg: Config, b: Breaker, envs: seq<AttemptEnv>, k: nat)
    requires |envs| == Min(cfg.retryAttempts + 1, 0xFFFF_FFFF_FFFF_FFFF) && DecidedAt(cfg, envs, k)
    ensures var (c, (r, connects, writes)) := (Whole(cfg, b, envs).call, PolicyAt(cfg, envs, k));
      && c.phase == (match r case Reply(observed) => Replied(observed) case PolicyError(safe) => Failed(safe))
      && c.connects == connects && c.writes == writes
  {
    AfterRefusals(cfg, Local(NewCall(cfg), b), envs, k);
  }

  method ExecuteWithPolicy(cb: PythonCircuitBreaker, cfg: Config, envs: seq<AttemptEnv>)
    returns (r: PolicyResult, connects: nat, writes: nat)
    requires |envs| == Min(cfg.retryAttempts + 1, 0xFFFF_FFFF_FFFF_FFFF)
    modifies cb
    ensures var l := Whole(cfg, old(cb.View()), envs);
      && l.breaker == cb.View()
      && l.call.phase == (match r case Reply(observed) => Replied(observed) case PolicyError(safe) => Failed(safe))
      && l.call.connects == connects && l.call.writes == writes && l.call.fallbacks == 0
    ensures connects <= cfg.retryAttempts + 1 && writes <= 1
    ensures r == PolicyError(true) ==> writes == 0
    ensures forall k: nat :: DecidedAt(cfg, envs, k) ==> (r, connects, writes) == PolicyAt(cfg, envs, k)
  {
    hide OfferAttempt, AfterBeforeCall, AfterFailureReport;
    connects, writes := 0, 0;
    ghost var l := Local(NewCall(cfg), cb.View());
    OfferAllKeepsCallInv(cfg, l, envs);
    var i := 0;
    while i < |envs|
      invariant i == connects <= |envs| && writes == 0
      invariant l.call == Call(if i == |envs| then Failed(true) else Ready, |envs| - i, connects, writes, 0)
      invariant l.breaker == cb.View()
      invariant OfferAll(cfg, l, envs[i..]) == Whole(cfg, old(cb.View()), envs)
      invariant forall j :: 0 <= j < i ==> Refused(cfg, envs[j])
    {
      var env := envs[i];
      ghost var next := OfferAttempt(cfg, l, env);
      AttemptCases(cfg, l, env);
      NextAttempt(cfg, l, envs, i);
      i := i + 1;

      cb.Interfere(env.foundAtAdmission);
      var observed := cb.BeforeCall(cfg, env.admitAt);
      if observed == Open {
        return PolicyError(true), connects, writes;
      }

      connects := connects + 1;
      var replaySafe := !env.connects;
      if env.connects {
        writes := writes + 1;
        if env.exchange == JsonReply {
          cb.Interfere(env.foundAtReport);
          cb.RecordSuccess();
          return Reply(observed), connects, writes;
        }
      }
      cb.Interfere(env.foundAtReport);
      cb.ReportFailure(cfg, observed, env.reportAt);
      if !replaySafe {
        return PolicyError(false), connects, writes;
      }
      l := next;
    }
    r := PolicyError(true);
  }

  // What the request as a whole comes to.
  function OutcomeAt(cfg: Config, envs: seq<AttemptEnv>, k: nat, usable: bool): (Outcome, nat)
    requires k <= |envs|
  {
    var (r, _, writes) := PolicyAt(cfg, envs, k);
    match r
    case Reply(_) => (if usable then Answered else ErrorReply, writes)
    case PolicyError(safe) => (if safe && cfg.fallbackToSubprocess then FallbackLaunched else ErrorReply, writes)
  }

  // The whole request: whatever happened, it was started at most once.
  method CallPythonService(cb: PythonCircuitBreaker, cfg: Config, envs: seq<AttemptEnv>, reply: ReplyEnv)
    returns (outcome: Outcome, writes: nat)
    requires |envs| == Min(cfg.retryAttempts + 1, 0xFFFF_FFFF_FFFF_FFFF)
    modifies cb
    ensures var l := OfferReply(cfg, Whole(cfg, old(cb.View()), envs), reply);
      && l.breaker == cb.View()
      && l.call.phase == Done && l.call.writes == writes
      && l.call.fallbacks == (if outcome == FallbackLaunched then 1 else 0)
    ensures writes + (if outcome == FallbackLaunched then 1 else 0) <= 1
    ensures outcome == Answered ==> writes == 1
    ensures outcome == FallbackLaunched ==> cfg.fallbackToSubprocess && writes == 0
    ensures forall k: nat :: DecidedAt(cfg, envs, k) ==>
      (outcome, writes) == OutcomeAt(cfg, envs, k, reply.usable)
  {
    ghost var l := Whole(cfg, cb.View(), envs);
    OfferAllKeepsCallInv(cfg, Local(NewCall(cfg), cb.View()), envs);
    var r, _, w := ExecuteWithPolicy(cb, cfg, envs);
    writes := w;
    match r {
      case PolicyError(replaySafe) =>
        outcome := if cfg.fallbackToSubprocess && replaySafe then FallbackLaunched else ErrorReply;
      case Reply(observed) =>
        RepliedMeansWritten(cfg, Local(NewCall(cfg), old(cb.View())), envs);
        if reply.usable {
          outcome := Answered;
        } else {
          cb.Interfere(reply.foundAtReport);
          cb.ReportFailure(cfg, observed, reply.reportAt);
          outcome := ErrorReply;
        }
    }
  }

  // A reply can only come from a request that was written.
  lemma {:induction false} RepliedMeansWritten(cfg: Config, l: Local, envs: seq<AttemptEnv>)
    requires CallInv(cfg, l.call) && l.call.phase.Ready?
    ensures OfferAll(cfg, l, envs).call.phase.Replied? ==> OfferAll(cfg, l, envs).call.writes == 1
    decreases |envs|
  {
    if envs != [] {
      var next := OfferAttempt(cfg, l, envs[0]);
      OfferAllKeepsCallInv(cfg, l, [envs[0]]);
      assert OfferAll(cfg, next, [envs[0]][1..]) == next;
      if next.call.phase.Ready? {
        RepliedMeansWritten(cfg, next, envs[1..]);
      } else {
        SettledStays(cfg, next, envs[1..]);
      }
    }
  }
}
