/**
 * What overlapping requests can do to the shared breaker: replies that parse and
 * cannot be used, and probes that overlap.
 */
module PythonOverlap {
  import opened Common
  import opened PythonCircuit
  import opened PythonDispatch

  // ---------- continuing a run ----------

  function Follow(cfg: Config, s: System, actions: seq<Action>): System
    decreases |actions|
  {
    if actions == [] then s else Follow(cfg, Step(cfg, s, actions[0]), actions[1..])
  }

  lemma RunAppend(cfg: Config, actions: seq<Action>, a: Action)
    ensures Run(cfg, actions + [a]) == Step(cfg, Run(cfg, actions), a)
  {
    assert (actions + [a])[..|actions|] == actions;
  }

  lemma {:induction false} RunFollow(cfg: Config, actions: seq<Action>, more: seq<Action>)
    ensures Run(cfg, actions + more) == Follow(cfg, Run(cfg, actions), more)
    decreases |more|
  {
    if more == [] {
      assert actions + more == actions;
    } else {
      RunAppend(cfg, actions, more[0]);
      RunFollow(cfg, actions + [more[0]], more[1..]);
      assert actions + [more[0]] + more[1..] == actions + more;
    }
  }

  lemma {:induction false} FollowConcat(cfg: Config, s: System, a: seq<Action>, b: seq<Action>)
    ensures Follow(cfg, s, a + b) == Follow(cfg, Follow(cfg, s, a), b)
    decreases |a|
  {
    if a == [] {
      assert a + b == b;
    } else {
      assert (a + b)[0] == a[0] && (a + b)[1..] == a[1..] + b;
      FollowConcat(cfg, Step(cfg, s, a[0]), a[1..], b);
    }
  }

  // ---------- rejected replies ----------

  // Runs whose only failures are replies that cannot be used.
  ghost predicate OnlyRejects(actions: seq<Action>) {
    forall i :: 0 <= i < |actions| && actions[i].Act? ==>
      && (actions[i].event.Connect? ==> actions[i].event.ok)
      && (actions[i].event.Exchanged? ==> actions[i].event.outcome == JsonReply)
  }

  // Success is reported and the rejection, if any, is still to come.
  predicate Pending(c: Call) {
    c.phase.Replied? || c.phase.RejectDue?
  }

  function PendingIn(s: System): set<nat> {
    set id | id in s.calls && Pending(s.calls[id])
  }

  predicate DeliversSuccess(s: System, a: Action) {
    Effective(s, a) && a.Act? && a.event.Deliver? && s.calls[a.id].phase.SuccessDue?
  }

  predicate DeliversReject(s: System, a: Action) {
    Effective(s, a) && a.Act? && a.event.Deliver? && s.calls[a.id].phase.RejectDue?
  }

  // The requests that were pending when the last success was delivered.
  function PendingAtSuccess(cfg: Config, actions: seq<Action>): set<nat> {
    if actions == [] then {}
    else
      var s, a := Run(cfg, actions[..|actions|-1]), actions[|actions|-1];
      if DeliversSuccess(s, a) then PendingIn(Step(cfg, s, a))
      else PendingAtSuccess(cfg, actions[..|actions|-1])
  }

  // The requests whose rejection was delivered since then.
  function RejectedSince(cfg: Config, actions: seq<Action>): set<nat> {
    if actions == [] then {}
    else
      var s, a := Run(cfg, actions[..|actions|-1]), actions[|actions|-1];
      var before := RejectedSince(cfg, actions[..|actions|-1]);
      if DeliversSuccess(s, a) then {}
      else if DeliversReject(s, a) then before + {a.id}
      else before
  }

  ghost predicate RejectInv(s: System, pending: set<nat>, rejected: set<nat>) {
    && (forall id :: id in s.calls ==> !s.calls[id].phase.FailureDue?)
    && (forall id :: id in rejected ==> id in s.calls && s.calls[id].phase.Done?)
    && rejected <= pending
    && PendingIn(s) <= pending
    && |rejected| == FailuresSince(s.reports)
  }

  // A step changes nothing about the other requests.
  lemma OthersUntouched(cfg: Config, s: System, a: Action, id: nat)
    requires id != a.id
    ensures var s' := Step(cfg, s, a);
      (id in s'.calls <==> id in s.calls) && (id in s.calls ==> s'.calls[id] == s.calls[id])
  {
  }

  lemma SuccessStep(cfg: Config, s: System, a: Action, pending: set<nat>, rejected: set<nat>)
    requires RejectInv(s, pending, rejected) && DeliversSuccess(s, a)
    ensures RejectInv(Step(cfg, s, a), PendingIn(Step(cfg, s, a)), {})
  {
    var s' := Step(cfg, s, a);
    FailuresSinceAppend(s.reports, Success);
    assert s'.calls[a.id].phase.Replied?;
    forall id | id in s'.calls ensures !s'.calls[id].phase.FailureDue? {
      if id != a.id { OthersUntouched(cfg, s, a, id); }
    }
  }

  lemma PendingShrinks(cfg: Config, s: System, a: Action)
    requires !DeliversSuccess(s, a)
    ensures PendingIn(Step(cfg, s, a)) <= PendingIn(s)
  {
    var s' := Step(cfg, s, a);
    forall id | id in PendingIn(s') ensures id in PendingIn(s) {
      if id != a.id { OthersUntouched(cfg, s, a, id); }
    }
  }

  lemma RejectedStep(cfg: Config, s: System, a: Action, pending: set<nat>, rejected: set<nat>)
    requires RejectInv(s, pending, rejected) && DeliversReject(s, a)
    ensures RejectInv(Step(cfg, s, a), pending, rejected + {a.id})
  {
    var s' := Step(cfg, s, a);
    FailuresSinceAppend(s.reports, Failure);
    PendingShrinks(cfg, s, a);
    assert a.id in PendingIn(s) && a.id !in rejected;
    assert s'.calls[a.id].phase.Done?;
    forall id | id in s'.calls
      ensures !s'.calls[id].phase.FailureDue? && (id in rejected ==> s'.calls[id].phase.Done?)
    {
      if id != a.id { OthersUntouched(cfg, s, a, id); }
    }
  }

  lemma SilentStep(cfg: Config, s: System, a: Action, pending: set<nat>, rejected: set<nat>)
    requires RejectInv(s, pending, rejected) && OnlyRejects([a])
    requires !DeliversSuccess(s, a) && !DeliversReject(s, a)
    ensures RejectInv(Step(cfg, s, a), pending, rejected)
  {
    var s' := Step(cfg, s, a);
    assert [a][0] == a;
    PendingShrinks(cfg, s, a);
    assert s'.reports == s.reports;
    forall id | id in s'.calls
      ensures !s'.calls[id].phase.FailureDue? && (id in rejected ==> s'.calls[id].phase.Done?)
    {
      if id != a.id { OthersUntouched(cfg, s, a, id); }
    }
    forall id | id in rejected ensures id in s'.calls {
      if id != a.id { OthersUntouched(cfg, s, a, id); }
    }
  }

  lemma {:induction false} RejectsAreTracked(cfg: Config, actions: seq<Action>)
    requires OnlyRejects(actions)
    ensures RejectInv(Run(cfg, actions), PendingAtSuccess(cfg, actions), RejectedSince(cfg, actions))
  {
    if actions != [] {
      var init, a := actions[..|actions|-1], actions[|actions|-1];
      RejectsAreTracked(cfg, init);
      var s, pending, rejected := Run(cfg, init), PendingAtSuccess(cfg, init), RejectedSince(cfg, init);
      if DeliversSuccess(s, a) {
        SuccessStep(cfg, s, a, pending, rejected);
      } else if DeliversReject(s, a) {
        RejectedStep(cfg, s, a, pending, rejected);
      } else {
        SilentStep(cfg, s, a, pending, rejected);
      }
    }
  }

  // In every run whose only failures are rejected replies the breaker is not
  // Closed exactly when enough requests were rejected since the last success, and
  // these were all pending when that success was delivered.
  lemma RejectsOpen(cfg: Config, actions: seq<Action>)
    requires cfg.enabled && OnlyRejects(actions)
    ensures Run(cfg, actions).breaker.state != Closed <==> |RejectedSince(cfg, actions)| >= cfg.Threshold()
    ensures RejectedSince(cfg, actions) <= PendingAtSuccess(cfg, actions)
  {
    RejectsAreTracked(cfg, actions);
    ClosedIffFewFailures(cfg, actions);
  }

  // With fewer pending requests than the threshold rejected replies never open the
  // breaker; requests that do not overlap open it only at threshold 1.
  lemma FewPendingStayClosed(cfg: Config, actions: seq<Action>)
    requires cfg.enabled && OnlyRejects(actions)
    ensures |PendingAtSuccess(cfg, actions)| < cfg.Threshold() ==> Run(cfg, actions).breaker.state == Closed
    ensures |PendingAtSuccess(cfg, actions)| <= 1 ==>
      (Run(cfg, actions).breaker.state != Closed <==>
         cfg.Threshold() == 1 && RejectedSince(cfg, actions) != {})
  {
    RejectsOpen(cfg, actions);
    SubsetSize(RejectedSince(cfg, actions), PendingAtSuccess(cfg, actions));
    if RejectedSince(cfg, actions) != {} {
      var x :| x in RejectedSince(cfg, actions);
      SubsetSize({x}, RejectedSince(cfg, actions));
    }
  }

  // ---------- building blocks of runs ----------

  // A request goes as far as holding a JSON reply.
  function ReachReply(id: nat, now: Instant): seq<Action> {
    [Arrive(id), Act(id, Admit(now)), Act(id, Connect(true)), Act(id, Exchanged(JsonReply))]
  }

  // A request fails to connect and reports it.
  function FailOnce(id: nat, now: Instant): seq<Action> {
    [Arrive(id), Act(id, Admit(now)), Act(id, Connect(false)), Act(id, Deliver(now))]
  }

  // A request asks for admission at a given time.
  function Ask(id: nat, now: Instant): seq<Action> {
    [Arrive(id), Act(id, Admit(now))]
  }

  // The other requests are as they were.
  ghost predicate KeepsOthers(s: System, s': System, id: nat) {
    forall x :: x in s.calls && x != id ==> x in s'.calls && s'.calls[x] == s.calls[x]
  }

  lemma FollowTwo(cfg: Config, s: System, a: Action, b: Action)
    ensures Follow(cfg, s, [a, b]) == Step(cfg, Step(cfg, s, a), b)
  {
    assert [a, b][1..] == [b] && [b][1..] == [];
    assert Follow(cfg, Step(cfg, s, a), [b]) == Follow(cfg, Step(cfg, Step(cfg, s, a), b), []);
  }

  lemma FollowFour(cfg: Config, s: System, a: Action, b: Action, c: Action, d: Action)
    ensures Follow(cfg, s, [a, b, c, d]) == Step(cfg, Step(cfg, Step(cfg, Step(cfg, s, a), b), c), d)
  {
    assert [a, b, c, d] == [a, b] + [c, d];
    FollowConcat(cfg, s, [a, b], [c, d]);
    FollowTwo(cfg, s, a, b);
    FollowTwo(cfg, Step(cfg, Step(cfg, s, a), b), c, d);
  }

  lemma ReachReplyEffect(cfg: Config, s: System, id: nat, now: Instant)
    requires cfg.enabled && s.breaker.state == Closed && id !in s.calls
    ensures var s' := Follow(cfg, s, ReachReply(id, now));
      && s'.breaker == s.breaker && s'.reports == s.reports && KeepsOthers(s, s', id)
      && id in s'.calls && s'.calls[id].phase == SuccessDue(Closed) && s'.calls.Keys == s.calls.Keys + {id}
  {
    FollowFour(cfg, s, Arrive(id), Act(id, Admit(now)), Act(id, Connect(true)), Act(id, Exchanged(JsonReply)));
    var s1 := Step(cfg, s, Arrive(id));
    var s2 := Step(cfg, s1, Act(id, Admit(now)));
    assert s2.calls[id].phase == Connecting(Closed);
  }

  lemma FailOnceEffect(cfg: Config, s: System, id: nat, now: Instant)
    requires cfg.enabled && s.breaker.state == Closed && id !in s.calls
    ensures var s' := Follow(cfg, s, FailOnce(id, now));
      && s'.breaker == AfterFailure(s.breaker, cfg, now) && KeepsOthers(s, s', id) && id in s'.calls
      && s'.calls.Keys == s.calls.Keys + {id}
  {
    FollowFour(cfg, s, Arrive(id), Act(id, Admit(now)), Act(id, Connect(false)), Act(id, Deliver(now)));
    var s1 := Step(cfg, s, Arrive(id));
    var s2 := Step(cfg, s1, Act(id, Admit(now)));
    assert s2.calls[id].phase == Connecting(Closed);
    var s3 := Step(cfg, s2, Act(id, Connect(false)));
    assert s3.calls[id].phase == FailureDue(Closed, true) && s3.breaker == s.breaker;
  }

  // Late enough, an Open breaker admits the next request as its probe.
  lemma AskEffect(cfg: Config, s: System, id: nat, now: Instant)
    requires cfg.enabled && s.breaker.state == Open && id !in s.calls && ResetElapsed(s.breaker, cfg, now)
    ensures var s' := Follow(cfg, s, Ask(id, now));
      && s'.breaker.state == HalfOpen && s'.prober == Some(id) && KeepsOthers(s, s', id)
      && id in s'.calls && s'.calls[id].phase == Connecting(HalfOpen)
      && s'.calls.Keys == s.calls.Keys + {id}
  {
    FollowTwo(cfg, s, Arrive(id), Act(id, Admit(now)));
    assert Step(cfg, s, Arrive(id)).calls[id].phase.Ready?;
  }

  // Two requests whose rejections overlap: both report success, then both failure.
  function BothSucceed(): seq<Action> {
    [Act(0, Deliver(0)), Act(1, Deliver(0)), Act(0, Inspect(false)), Act(1, Inspect(false))]
  }

  function BothReject(): seq<Action> {
    [Act(0, Deliver(0)), Act(1, Deliver(0))]
  }

  function TwoRejects(): seq<Action> {
    ReachReply(0, 0) + ReachReply(1, 0) + BothSucceed() + BothReject()
  }

  ghost predicate BothIn(s: System, phase: Phase) {
    0 in s.calls && 1 in s.calls && s.calls[0].phase == phase && s.calls[1].phase == phase
  }

  lemma BothReachReply(cfg: Config)
    requires cfg.enabled
    ensures BothIn(Follow(cfg, Initial, ReachReply(0, 0) + ReachReply(1, 0)), SuccessDue(Closed))
  {
    FollowConcat(cfg, Initial, ReachReply(0, 0), ReachReply(1, 0));
    ReachReplyEffect(cfg, Initial, 0, 0);
    ReachReplyEffect(cfg, Follow(cfg, Initial, ReachReply(0, 0)), 1, 0);
  }

  lemma BothSucceedEffect(cfg: Config, s: System)
    requires BothIn(s, SuccessDue(Closed))
    ensures var s' := Follow(cfg, s, BothSucceed()); s'.breaker == Fresh && BothIn(s', RejectDue(Closed))
  {
    FollowFour(cfg, s, Act(0, Deliver(0)), Act(1, Deliver(0)), Act(0, Inspect(false)), Act(1, Inspect(false)));
    var s1 := Step(cfg, s, Act(0, Deliver(0)));
    var s2 := Step(cfg, s1, Act(1, Deliver(0)));
    assert s2.breaker == Fresh && BothIn(s2, Replied(Closed));
  }

  lemma BothRejectEffect(cfg: Config, s: System)
    requires cfg.enabled && cfg.Threshold() == 2 && s.breaker == Fresh && BothIn(s, RejectDue(Closed))
    ensures Follow(cfg, s, BothReject()).breaker.state == Open
  {
    FollowTwo(cfg, s, Act(0, Deliver(0)), Act(1, Deliver(0)));
    var s1 := Step(cfg, s, Act(0, Deliver(0)));
    assert s1.breaker.state == Closed && s1.breaker.failureCount == 1;
  }

  lemma OnlyRejectsConcat(a: seq<Action>, b: seq<Action>)
    requires OnlyRejects(a) && OnlyRejects(b)
    ensures OnlyRejects(a + b)
  {
  }

  lemma TwoRejectsOnlyReject()
    ensures OnlyRejects(TwoRejects())
  {
    OnlyRejectsConcat(ReachReply(0, 0), ReachReply(1, 0));
    OnlyRejectsConcat(ReachReply(0, 0) + ReachReply(1, 0), BothSucceed());
    OnlyRejectsConcat(ReachReply(0, 0) + ReachReply(1, 0) + BothSucceed(), BothReject());
  }

  // At threshold 2 the overlapping rejections of two requests open the breaker.
  lemma TwoRejectsOpen(cfg: Config)
    requires cfg.enabled && cfg.Threshold() == 2
    ensures OnlyRejects(TwoRejects()) && Run(cfg, TwoRejects()).breaker.state == Open
  {
    TwoRejectsOnlyReject();
    var both := ReachReply(0, 0) + ReachReply(1, 0);
    BothReachReply(cfg);
    BothSucceedEffect(cfg, Follow(cfg, Initial, both));
    FollowConcat(cfg, Initial, both, BothSucceed());
    BothRejectEffect(cfg, Follow(cfg, Initial, both + BothSucceed()));
    FollowConcat(cfg, Initial, both + BothSucceed(), BothReject());
    FromStart(cfg, TwoRejects());
  }

  lemma FromStart(cfg: Config, actions: seq<Action>)
    ensures Run(cfg, actions) == Follow(cfg, Initial, actions)
  {
    RunFollow(cfg, [], actions);
    assert [] + actions == actions;
  }

  // ---------- overlapping probes ----------

  // A request admitted as a probe and not yet reported.
  predicate ProbeInFlight(s: System, id: nat) {
    id in s.calls && InFlight(s.calls[id], HalfOpen)
  }

  ghost predicate Overlap(s: System) {
    exists p: nat, q: nat :: p != q && ProbeInFlight(s, p) && ProbeInFlight(s, q)
  }

  // A probe is in flight although the breaker has left HalfOpen.
  ghost predicate Exposed(s: System) {
    s.breaker.state != HalfOpen && exists p: nat :: ProbeInFlight(s, p)
  }

  // Action k takes the breaker out of HalfOpen and is not the current probe's.
  ghost predicate StrayLeave(cfg: Config, actions: seq<Action>, k: nat)
    requires k < |actions|
  {
    && At(cfg, actions, k).breaker.state == HalfOpen
    && At(cfg, actions, k + 1).breaker.state != HalfOpen
    && At(cfg, actions, k).prober != Some(actions[k].id)
  }

  // What can take a breaker out of HalfOpen: a success report of any request, or a
  // failure report of a request that was admitted as a probe, now or earlier.
  lemma WhatLeavesHalfOpen(cfg: Config, actions: seq<Action>, a: Action)
    requires Run(cfg, actions).breaker.state == HalfOpen
    ensures var s := Run(cfg, actions);
      Step(cfg, s, a).breaker.state != HalfOpen <==>
        && Effective(s, a) && a.Act? && a.event.Deliver?
        && (s.calls[a.id].phase.SuccessDue? || s.calls[a.id].phase.observed == HalfOpen)
  {
    RunKeepsInv(cfg, actions);
  }

  // All probes in flight are the current one.
  ghost predicate SingleProbe(s: System) {
    forall id: nat :: ProbeInFlight(s, id) ==> s.breaker.state == HalfOpen && s.prober == Some(id)
  }

  lemma SingleProbeStep(cfg: Config, s: System, a: Action)
    requires Inv(cfg, s) && SingleProbe(s)
    requires s.breaker.state == HalfOpen && Step(cfg, s, a).breaker.state != HalfOpen ==> s.prober == Some(a.id)
    ensures SingleProbe(Step(cfg, s, a))
  {
    var s' := Step(cfg, s, a);
    forall id: nat | ProbeInFlight(s', id) ensures s'.breaker.state == HalfOpen && s'.prober == Some(id) {
      if id != a.id {
        OthersUntouched(cfg, s, a, id);
        assert ProbeInFlight(s, id);
      } else if ProbeInFlight(s, id) {
        assert s.prober == Some(id);
      }
      if s.breaker.state == HalfOpen && s'.breaker.state == HalfOpen {
        HalfOpenStep(cfg, s, a);
      }
    }
  }

  lemma {:induction false} NoStrayLeaveSingleProbe(cfg: Config, actions: seq<Action>)
    requires forall k: nat :: k < |actions| ==> !StrayLeave(cfg, actions, k)
    ensures SingleProbe(Run(cfg, actions))
  {
    if actions != [] {
      var n := |actions| - 1;
      var init := actions[..n];
      forall k: nat | k < n ensures !StrayLeave(cfg, init, k) {
        assert init[..k] == actions[..k] && init[..k+1] == actions[..k+1];
        assert !StrayLeave(cfg, actions, k);
      }
      NoStrayLeaveSingleProbe(cfg, init);
      RunKeepsInv(cfg, init);
      AtNext(cfg, actions, n);
      assert !StrayLeave(cfg, actions, n);
      SingleProbeStep(cfg, Run(cfg, init), actions[n]);
    }
  }

  // The probe that a stray step leaves behind is exposed.
  lemma StrayLeaveExposes(cfg: Config, actions: seq<Action>, k: nat)
    requires k < |actions| && StrayLeave(cfg, actions, k)
    ensures Exposed(At(cfg, actions, k + 1))
  {
    RunKeepsInv(cfg, actions[..k]);
    AtNext(cfg, actions, k);
    var s := At(cfg, actions, k);
    OthersUntouched(cfg, s, actions[k], s.prober.value);
    assert ProbeInFlight(At(cfg, actions, k + 1), s.prober.value);
  }

  // A probe is exposed at some moment of a run exactly if some step that left
  // HalfOpen was not the current probe's, and without such a step probes never overlap.
  lemma ExposedExactlyWhen(cfg: Config, actions: seq<Action>)
    ensures (exists k: nat :: k <= |actions| && Exposed(At(cfg, actions, k)))
       <==> (exists k: nat :: k < |actions| && StrayLeave(cfg, actions, k))
    ensures Overlap(Run(cfg, actions)) ==> exists k: nat :: k < |actions| && StrayLeave(cfg, actions, k)
  {
    if k: nat :| k < |actions| && StrayLeave(cfg, actions, k) {
      StrayLeaveExposes(cfg, actions, k);
    } else {
      NoStrayLeaveSingleProbe(cfg, actions);
      forall k: nat | k <= |actions| ensures !Exposed(At(cfg, actions, k)) {
        forall j: nat | j < k ensures !StrayLeave(cfg, actions[..k], j) {
          assert actions[..k][..j] == actions[..j] && actions[..k][..j+1] == actions[..j+1];
          assert !StrayLeave(cfg, actions, j);
        }
        NoStrayLeaveSingleProbe(cfg, actions[..k]);
      }
    }
  }

  // When the reset time has passed for this breaker.
  function LateEnough(cfg: Config, b: Breaker): Instant {
    (if b.openedAt.Some? then b.openedAt.value else 0) + cfg.resetMs * NANOS_PER_MILLI
  }

  lemma LateEnoughIs(cfg: Config, b: Breaker)
    ensures ResetElapsed(b, cfg, LateEnough(cfg, b))
  {
    if b.openedAt.Some? {
      assert (LateEnough(cfg, b) - b.openedAt.value) / NANOS_PER_MILLI == cfg.resetMs;
    }
  }

  // New requests alone can open a Closed breaker.
  lemma {:induction false} OpenUp(cfg: Config, s: System, newId: nat, now: Instant) returns (more: seq<Action>, next: nat)
    requires cfg.enabled && s.breaker.state == Closed && s.breaker.failureCount < cfg.Threshold()
    requires forall id :: id in s.calls ==> id < newId
    ensures var s' := Follow(cfg, s, more);
      && s'.breaker.state == Open
      && (forall id :: id in s'.calls ==> id < next)
      && (forall x :: x in s.calls ==> x in s'.calls && s'.calls[x] == s.calls[x])
    decreases cfg.Threshold() - s.breaker.failureCount
  {
    var s1 := Follow(cfg, s, FailOnce(newId, now));
    FailOnceEffect(cfg, s, newId, now);
    if s1.breaker.state == Open {
      more, next := FailOnce(newId, now), newId + 1;
    } else {
      var rest;
      rest, next := OpenUp(cfg, s1, newId + 1, now);
      more := FailOnce(newId, now) + rest;
      FollowConcat(cfg, s, FailOnce(newId, now), rest);
    }
  }

  lemma {:induction false} UpperBound(ids: set<nat>) returns (n: nat)
    ensures forall id :: id in ids ==> id < n
  {
    if ids == {} {
      n := 0;
    } else {
      var x :| x in ids;
      var m := UpperBound(ids - {x});
      n := if m > x then m else x + 1;
      assert forall id :: id in ids ==> id == x || id in ids - {x};
    }
  }

  // Whenever a probe is exposed, new requests alone can bring about an overlap.
  lemma ExposedCanOverlap(cfg: Config, actions: seq<Action>, now: Instant) returns (more: seq<Action>)
    requires cfg.enabled && Exposed(Run(cfg, actions))
    ensures Overlap(Run(cfg, actions + more))
  {
    RunKeepsInv(cfg, actions);
    var s := Run(cfg, actions);
    var p: nat :| ProbeInFlight(s, p);
    var next := UpperBound(s.calls.Keys);
    var first: seq<Action> := [];
    if s.breaker.state == Closed {
      first, next := OpenUp(cfg, s, next, now);
    }
    var s1 := Follow(cfg, s, first);
    LateEnoughIs(cfg, s1.breaker);
    var second := Ask(next, LateEnough(cfg, s1.breaker));
    AskEffect(cfg, s1, next, LateEnough(cfg, s1.breaker));
    FollowConcat(cfg, s, first, second);
    more := first + second;
    RunFollow(cfg, actions, more);
    assert p in s1.calls && p != next;
    assert ProbeInFlight(Run(cfg, actions + more), p) && ProbeInFlight(Run(cfg, actions + more), next);
  }

  // ---------- two runs with overlapping probes at threshold 1 ----------

  function ResetNanos(cfg: Config): Instant {
    cfg.resetMs * NANOS_PER_MILLI
  }

  // With threshold 1 a request that cannot connect opens a closed breaker, and the
  // next request to ask after the reset time is its probe.
  lemma FailThenAsk(cfg: Config, s: System, first: nat, second: nat, now: Instant)
    requires cfg.enabled && cfg.Threshold() == 1 && s.breaker.state == Closed
    requires first !in s.calls && second !in s.calls && first != second
    ensures var s' := Follow(cfg, s, FailOnce(first, now) + Ask(second, now + ResetNanos(cfg)));
      && s'.breaker.state == HalfOpen && second in s'.calls && s'.calls[second].phase == Connecting(HalfOpen)
      && (forall x :: x in s.calls ==> x in s'.calls && s'.calls[x] == s.calls[x])
      && s'.calls.Keys == s.calls.Keys + {first, second}
  {
    var s1 := Follow(cfg, s, FailOnce(first, now));
    FailOnceEffect(cfg, s, first, now);
    LateEnoughIs(cfg, s1.breaker);
    AskEffect(cfg, s1, second, now + ResetNanos(cfg));
    FollowConcat(cfg, s, FailOnce(first, now), Ask(second, now + ResetNanos(cfg)));
  }

  lemma FollowOne(cfg: Config, s: System, a: Action)
    ensures Follow(cfg, s, [a]) == Step(cfg, s, a)
  {
    assert [a][1..] == [];
    assert Follow(cfg, Step(cfg, s, a), []) == Step(cfg, s, a);
  }

  // `actions` leads from the start of the system to `s`.
  ghost predicate Leads(cfg: Config, actions: seq<Action>, s: System) {
    Run(cfg, actions) == s
  }

  lemma LeadsOn(cfg: Config, actions: seq<Action>, s: System, more: seq<Action>)
    requires Leads(cfg, actions, s)
    ensures Leads(cfg, actions + more, Follow(cfg, s, more))
  {
    RunFollow(cfg, actions, more);
  }

  // (a) The late success of a request that was admitted Closed closes the breaker
  // under the probe.
  function StaleSuccess(cfg: Config): seq<Action> {
    var t := ResetNanos(cfg);
    ReachReply(0, 0) + (FailOnce(1, 0) + Ask(2, t)) + [Act(0, Deliver(t))] + (FailOnce(3, t) + Ask(4, t + t))
  }

  lemma SuccessCloses(cfg: Config, s: System, id: nat, now: Instant)
    requires id in s.calls && s.calls[id].phase.SuccessDue?
    ensures var s' := Follow(cfg, s, [Act(id, Deliver(now))]);
      s'.breaker == Fresh && s'.calls.Keys == s.calls.Keys && KeepsOthers(s, s', id)
  {
    FollowOne(cfg, s, Act(id, Deliver(now)));
  }

  // Request 0 holds a reply it got while the breaker was closed.
  lemma StaleFirst(cfg: Config) returns (s: System)
    requires cfg.enabled
    ensures Leads(cfg, ReachReply(0, 0), s)
    ensures s.breaker.state == Closed && s.calls.Keys == {0} && s.calls[0].phase == SuccessDue(Closed)
  {
    s := Follow(cfg, Initial, ReachReply(0, 0));
    ReachReplyEffect(cfg, Initial, 0, 0);
    FromStart(cfg, ReachReply(0, 0));
  }

  // Request 2 becomes the probe.
  lemma StaleSecond(cfg: Config, actions: seq<Action>, s: System, t: Instant) returns (s': System)
    requires cfg.enabled && cfg.Threshold() == 1 && t == ResetNanos(cfg) && Leads(cfg, actions, s)
    requires s.breaker.state == Closed && s.calls.Keys == {0} && s.calls[0].phase == SuccessDue(Closed)
    ensures Leads(cfg, actions + (FailOnce(1, 0) + Ask(2, t)), s')
    ensures s'.calls.Keys == {0, 1, 2} && s'.calls[0].phase == SuccessDue(Closed) && ProbeInFlight(s', 2)
  {
    s' := Follow(cfg, s, FailOnce(1, 0) + Ask(2, t));
    FailThenAsk(cfg, s, 1, 2, 0);
    LeadsOn(cfg, actions, s, FailOnce(1, 0) + Ask(2, t));
  }

  // Request 0 closes the breaker.
  lemma StaleThird(cfg: Config, actions: seq<Action>, s: System, t: Instant) returns (s': System)
    requires Leads(cfg, actions, s)
    requires s.calls.Keys == {0, 1, 2} && s.calls[0].phase == SuccessDue(Closed) && ProbeInFlight(s, 2)
    ensures Leads(cfg, actions + [Act(0, Deliver(t))], s')
    ensures s'.breaker == Fresh && s'.calls.Keys == {0, 1, 2} && ProbeInFlight(s', 2)
  {
    s' := Follow(cfg, s, [Act(0, Deliver(t))]);
    SuccessCloses(cfg, s, 0, t);
    LeadsOn(cfg, actions, s, [Act(0, Deliver(t))]);
  }

  // A further request becomes a probe beside request p.
  lemma SecondProbe(cfg: Config, actions: seq<Action>, s: System, p: nat, first: nat, second: nat, now: Instant)
    requires cfg.enabled && cfg.Threshold() == 1 && s.breaker.state == Closed && Leads(cfg, actions, s)
    requires first !in s.calls && second !in s.calls && first != second && ProbeInFlight(s, p)
    ensures Overlap(Run(cfg, actions + (FailOnce(first, now) + Ask(second, now + ResetNanos(cfg)))))
  {
    var s' := Follow(cfg, s, FailOnce(first, now) + Ask(second, now + ResetNanos(cfg)));
    FailThenAsk(cfg, s, first, second, now);
    LeadsOn(cfg, actions, s, FailOnce(first, now) + Ask(second, now + ResetNanos(cfg)));
    assert ProbeInFlight(s', p) && ProbeInFlight(s', second);
  }

  lemma StaleSuccessOverlaps(cfg: Config)
    requires cfg.enabled && cfg.Threshold() == 1
    ensures Overlap(Run(cfg, StaleSuccess(cfg)))
  {
    var t := ResetNanos(cfg);
    var a, b, c := ReachReply(0, 0), FailOnce(1, 0) + Ask(2, t), [Act(0, Deliver(t))];
    var s1 := StaleFirst(cfg);
    var s2 := StaleSecond(cfg, a, s1, t);
    var s3 := StaleThird(cfg, a + b, s2, t);
    SecondProbe(cfg, a + b + c, s3, 2, 3, 4, t);
  }

  // (b) A former probe whose reply was unusable delivers its failure during the next
  // stay in HalfOpen; no success is late.
  function Unusable(id: nat, now: Instant): seq<Action> {
    [Act(id, Connect(true)), Act(id, Exchanged(JsonReply)), Act(id, Deliver(now)), Act(id, Inspect(false))]
  }

  function LateReject(cfg: Config): seq<Action> {
    var t := ResetNanos(cfg);
    (FailOnce(0, 0) + Ask(1, t)) + Unusable(1, t) + (FailOnce(2, t) + Ask(3, t + t))
      + [Act(1, Deliver(t + t))] + Ask(4, t + t + t)
  }

  lemma UnusableEffect(cfg: Config, s: System, id: nat, now: Instant)
    requires id in s.calls && s.calls[id].phase == Connecting(HalfOpen)
    ensures var s' := Follow(cfg, s, Unusable(id, now));
      s'.breaker == Fresh && s'.calls.Keys == s.calls.Keys && s'.calls[id].phase == RejectDue(HalfOpen)
  {
    FollowFour(cfg, s, Act(id, Connect(true)), Act(id, Exchanged(JsonReply)), Act(id, Deliver(now)), Act(id, Inspect(false)));
    var s1 := Step(cfg, s, Act(id, Connect(true)));
    var s2 := Step(cfg, s1, Act(id, Exchanged(JsonReply)));
    assert s2.calls[id].phase == SuccessDue(HalfOpen);
  }

  // Request 1 becomes the probe.
  lemma LateFirst(cfg: Config, t: Instant) returns (s: System)
    requires cfg.enabled && cfg.Threshold() == 1 && t == ResetNanos(cfg)
    ensures Leads(cfg, FailOnce(0, 0) + Ask(1, t), s)
    ensures s.calls.Keys == {0, 1} && s.calls[1].phase == Connecting(HalfOpen)
  {
    s := Follow(cfg, Initial, FailOnce(0, 0) + Ask(1, t));
    FailThenAsk(cfg, Initial, 0, 1, 0);
    FromStart(cfg, FailOnce(0, 0) + Ask(1, t));
  }

  // Its reply is unusable, which it has still to report.
  lemma LateSecond(cfg: Config, actions: seq<Action>, s: System, t: Instant) returns (s': System)
    requires Leads(cfg, actions, s) && s.calls.Keys == {0, 1} && s.calls[1].phase == Connecting(HalfOpen)
    ensures Leads(cfg, actions + Unusable(1, t), s')
    ensures s'.breaker == Fresh && s'.calls.Keys == {0, 1} && s'.calls[1].phase == RejectDue(HalfOpen)
  {
    s' := Follow(cfg, s, Unusable(1, t));
    UnusableEffect(cfg, s, 1, t);
    LeadsOn(cfg, actions, s, Unusable(1, t));
  }

  // Request 3 becomes the next probe.
  lemma LateThird(cfg: Config, actions: seq<Action>, s: System, t: Instant) returns (s': System)
    requires cfg.enabled && cfg.Threshold() == 1 && t == ResetNanos(cfg) && Leads(cfg, actions, s)
    requires s.breaker == Fresh && s.calls.Keys == {0, 1} && s.calls[1].phase == RejectDue(HalfOpen)
    ensures Leads(cfg, actions + (FailOnce(2, t) + Ask(3, t + t)), s')
    ensures s'.breaker.state == HalfOpen && s'.calls.Keys == {0, 1, 2, 3}
    ensures s'.calls[1].phase == RejectDue(HalfOpen) && ProbeInFlight(s', 3)
  {
    s' := Follow(cfg, s, FailOnce(2, t) + Ask(3, t + t));
    FailThenAsk(cfg, s, 2, 3, t);
    LeadsOn(cfg, actions, s, FailOnce(2, t) + Ask(3, t + t));
  }

  // Request 1 reopens the breaker under it.
  lemma LateFourth(cfg: Config, actions: seq<Action>, s: System, now: Instant) returns (s': System)
    requires cfg.enabled && Leads(cfg, actions, s)
    requires s.breaker.state == HalfOpen && s.calls.Keys == {0, 1, 2, 3}
    requires s.calls[1].phase == RejectDue(HalfOpen) && ProbeInFlight(s, 3)
    ensures Leads(cfg, actions + [Act(1, Deliver(now))], s')
    ensures s'.breaker.state == Open && s'.breaker.openedAt == Some(now)
    ensures s'.calls.Keys == {0, 1, 2, 3} && ProbeInFlight(s', 3)
  {
    s' := Follow(cfg, s, [Act(1, Deliver(now))]);
    FollowOne(cfg, s, Act(1, Deliver(now)));
    LeadsOn(cfg, actions, s, [Act(1, Deliver(now))]);
  }

  // Request 4 becomes a probe beside request 3.
  lemma LateFifth(cfg: Config, actions: seq<Action>, s: System, now: Instant)
    requires cfg.enabled && Leads(cfg, actions, s)
    requires s.breaker.state == Open && s.breaker.openedAt == Some(now)
    requires s.calls.Keys == {0, 1, 2, 3} && ProbeInFlight(s, 3)
    ensures Overlap(Run(cfg, actions + Ask(4, now + ResetNanos(cfg))))
  {
    var s' := Follow(cfg, s, Ask(4, now + ResetNanos(cfg)));
    LateEnoughIs(cfg, s.breaker);
    AskEffect(cfg, s, 4, now + ResetNanos(cfg));
    LeadsOn(cfg, actions, s, Ask(4, now + ResetNanos(cfg)));
    assert ProbeInFlight(s', 3) && ProbeInFlight(s', 4);
  }

  lemma LateRejectOverlaps(cfg: Config)
    requires cfg.enabled && cfg.Threshold() == 1
    ensures Overlap(Run(cfg, LateReject(cfg)))
  {
    var t := ResetNanos(cfg);
    var a, b, c, d := FailOnce(0, 0) + Ask(1, t), Unusable(1, t), FailOnce(2, t) + Ask(3, t + t), [Act(1, Deliver(t + t))];
    var s1 := LateFirst(cfg, t);
    var s2 := LateSecond(cfg, a, s1, t);
    var s3 := LateThird(cfg, a + b, s2, t);
    var s4 := LateFourth(cfg, a + b + c, s3, t + t);
    LateFifth(cfg, a + b + c + d, s4, t + t);
  }
}
