/**
 * The persisted provider health circuit (backend/python/config/provider_health.py)
 * and the gate in front of a provider probe
 * (backend/python/config/provider_settings_controller.py).
 *
 * One cache file per user and provider; times are milliseconds.
 */
module ProviderHealth {
  import opened Common

  // Environment settings; the theorems need a positive threshold and open time.
  datatype Settings = Settings(threshold: nat, openMs: nat, ttlMs: nat)

  datatype CircuitState = Closed | Open | HalfOpen

  datatype Payload = Payload(
    reachable: bool,
    healthy: bool,
    lastCheckedAt: int,
    validUntil: int,
    latencyMs: int,
    circuitState: CircuitState,
    consecutiveFailures: nat,
    nextProbeAt: Option<int>)

  datatype Snapshot = Snapshot(
    reachable: Option<bool>,
    healthy: Option<bool>,
    healthValid: bool,
    lastCheckedAt: Option<int>,
    validUntil: Option<int>,
    latencyMs: Option<int>,
    circuitState: CircuitState,
    consecutiveFailures: nat,
    nextProbeAt: Option<int>)

  const Empty: Snapshot := Snapshot(None, None, false, None, None, None, Closed, 0, None)

  // read_provider_health: a missing or unreadable file reads as empty, and an
  // open circuit whose time has come reads as half open.
  function Read(file: Option<Payload>, now: int): Snapshot {
    match file
    case None => Empty
    case Some(p) =>
      Snapshot(
        Some(p.reachable),
        Some(p.healthy),
        now <= p.validUntil,
        Some(p.lastCheckedAt),
        Some(p.validUntil),
        Some(p.latencyMs),
        if p.circuitState == Open && p.nextProbeAt.Some? && now >= p.nextProbeAt.value then HalfOpen else p.circuitState,
        p.consecutiveFailures,
        p.nextProbeAt)
  }

  predicate ProbeAllowed(file: Option<Payload>, now: int) {
    Read(file, now).circuitState != Open
  }

  datatype Result = Result(reachable: bool, healthy: bool, latencyMs: int)

  function Recorded(cfg: Settings, file: Option<Payload>, r: Result, now: int): Payload {
    var failures := if r.healthy then 0 else Read(file, now).consecutiveFailures + 1;
    var open := !r.healthy && failures >= cfg.threshold;
    Payload(
      r.reachable, r.healthy, now, now + cfg.ttlMs,
      Min(Max(r.latencyMs, 0), 120_000),
      if open then Open else Closed,
      failures,
      if open then Some(now + cfg.openMs) else None)
  }

  // ---------- the cache file and its operations ----------

  datatype TestReport = Refused(snapshot: Snapshot) | Probed(success: bool, snapshot: Snapshot) | WriteError

  class HealthCache {
    var file: Option<Payload>

    constructor ()
      ensures file == None
    {
      file := None;
    }

    // The replacement of the file may fail; it then keeps its old content.
    method RecordProviderHealth(cfg: Settings, r: Result, now: int, writable: bool) returns (snapshot: Option<Snapshot>)
      modifies this
      ensures file == if writable then Some(Recorded(cfg, old(file), r, now)) else old(file)
      ensures snapshot == if writable then Some(Read(file, now)) else None
    {
      var previous := Read(file, now);
      var failures := if r.healthy then 0 else previous.consecutiveFailures + 1;
      var circuitState, nextProbeAt := Closed, None;
      if !r.healthy && failures >= cfg.threshold {
        circuitState, nextProbeAt := Open, Some(now + cfg.openMs);
      }
      if !writable {
        return None;
      }
      file := Some(Payload(r.reachable, r.healthy, now, now + cfg.ttlMs,
                           Min(Max(r.latencyMs, 0), 120_000), circuitState, failures, nextProbeAt));
      return Some(Read(file, now));
    }

    method InvalidateProviderHealth(removable: bool)
      modifies this
      ensures file == if removable then None else old(file)
    {
      if removable {
        file := None;
      }
    }

    // test_provider for a provider with an active test: gate, probe, record.
    // `outcome` is what the probe would find; it is used only if the gate opens.
    method TestProvider(cfg: Settings, gateAt: int, outcome: Result, recordAt: int, writable: bool)
      returns (report: TestReport)
      modifies this
      ensures report.Refused? <==> !ProbeAllowed(old(file), gateAt)
      ensures report.Probed? ==> report.success == outcome.healthy && report.snapshot == Read(file, recordAt)
      ensures report.Refused? ==> report.snapshot == Read(old(file), gateAt)
      ensures file == Tested(cfg, old(file), Attempt(gateAt, outcome, recordAt, writable))
    {
      if !ProbeAllowed(file, gateAt) {
        return Refused(Read(file, gateAt));
      }
      var snapshot := RecordProviderHealth(cfg, outcome, recordAt, writable);
      if snapshot.None? {
        return WriteError;
      }
      return Probed(outcome.healthy, snapshot.value);
    }
  }

  // ---------- the circuit as a function of history ----------

  datatype Event =
    | Record(result: Result, at: int)
    | Invalidate

  function FileAfter(cfg: Settings, history: seq<Event>): Option<Payload> {
    if history == [] then None
    else
      var before := FileAfter(cfg, history[..|history|-1]);
      match history[|history|-1]
      case Record(r, at) => Some(Recorded(cfg, before, r, at))
      case Invalidate => None
  }

  // The unhealthy outcomes at the end of the history, back to the last healthy
  // one or the last invalidation.
  function TrailingFailures(history: seq<Event>): nat {
    if history == [] then 0
    else
      var last := history[|history|-1];
      if last.Record? && !last.result.healthy then 1 + TrailingFailures(history[..|history|-1]) else 0
  }

  // A probe at any time t, even before the last record, is refused exactly when
  // the trailing failures reach the threshold and the open time has not passed.
  lemma {:induction false} CircuitIsHistory(cfg: Settings, history: seq<Event>, t: int)
    requires cfg.threshold >= 1 && cfg.openMs >= 1
    ensures Read(FileAfter(cfg, history), t).consecutiveFailures == TrailingFailures(history)
    ensures !ProbeAllowed(FileAfter(cfg, history), t) <==>
      TrailingFailures(history) >= cfg.threshold && t < history[|history|-1].at + cfg.openMs
    ensures Read(FileAfter(cfg, history), t).healthValid <==>
      history != [] && history[|history|-1].Record? && t <= history[|history|-1].at + cfg.ttlMs
  {
    if history != [] {
      CircuitIsHistory(cfg, history[..|history|-1], t);
      var last := history[|history|-1];
      if last.Record? {
        CircuitIsHistory(cfg, history[..|history|-1], last.at);
      }
    }
  }

  // The whole snapshot at any time, from the last event and the trailing failures.
  lemma SnapshotIsHistory(cfg: Settings, history: seq<Event>, t: int)
    requires cfg.threshold >= 1 && cfg.openMs >= 1
    ensures var snapshot := Read(FileAfter(cfg, history), t);
      if history == [] || history[|history|-1].Invalidate? then
        snapshot == Snapshot(None, None, false, None, None, None, Closed, 0, None)
      else
        var (r, at) := (history[|history|-1].result, history[|history|-1].at);
        var failures := TrailingFailures(history);
        var tripped := failures >= cfg.threshold;
        snapshot == Snapshot(
          Some(r.reachable), Some(r.healthy), t <= at + cfg.ttlMs, Some(at), Some(at + cfg.ttlMs),
          Some(if r.latencyMs < 0 then 0 else if r.latencyMs > 120_000 then 120_000 else r.latencyMs),
          if !tripped then Closed else if t < at + cfg.openMs then Open else HalfOpen,
          failures,
          if tripped then Some(at + cfg.openMs) else None)
  {
    CircuitIsHistory(cfg, history, t);
    if history != [] && history[|history|-1].Record? {
      CircuitIsHistory(cfg, history[..|history|-1], history[|history|-1].at);
    }
  }

  // The trailing failures are the longest run of unhealthy outcomes at the end.
  lemma {:induction false} TrailingFailuresSpec(history: seq<Event>, n: nat)
    ensures TrailingFailures(history) >= n <==>
      n <= |history| && forall i :: |history| - n <= i < |history| ==> history[i].Record? && !history[i].result.healthy
  {
    if history != [] && n > 0 {
      var init := history[..|history|-1];
      TrailingFailuresSpec(init, n - 1);
      assert forall i :: 0 <= i < |init| ==> init[i] == history[i];
    }
  }

  // ---------- the probe rate of a gated caller ----------

  datatype Attempt = Attempt(gateAt: int, outcome: Result, recordAt: int, writable: bool)

  function Tested(cfg: Settings, file: Option<Payload>, a: Attempt): Option<Payload> {
    if ProbeAllowed(file, a.gateAt) && a.writable
    then Some(Recorded(cfg, file, a.outcome, a.recordAt))
    else file
  }

  function FileAfterAttempts(cfg: Settings, run: seq<Attempt>): Option<Payload> {
    if run == [] then None
    else Tested(cfg, FileAfterAttempts(cfg, run[..|run|-1]), run[|run|-1])
  }

  // One caller with a clock that never goes back.
  predicate Sequential(run: seq<Attempt>) {
    && (forall i :: 0 <= i < |run| ==> run[i].gateAt <= run[i].recordAt)
    && (forall i, j :: 0 <= i < j < |run| ==> run[i].recordAt <= run[j].gateAt)
  }

  function Failures(cfg: Settings, run: seq<Attempt>): nat {
    Read(FileAfterAttempts(cfg, run), 0).consecutiveFailures
  }

  // When the current run of failures reached the threshold.
  function OpenedAt(cfg: Settings, run: seq<Attempt>): int
    requires Failures(cfg, run) >= cfg.threshold >= 1
  {
    if run == [] then 0
    else
      var init := run[..|run|-1];
      if Failures(cfg, init) >= cfg.threshold then OpenedAt(cfg, init) else run[|run|-1].recordAt
  }

  ghost predicate Spaced(cfg: Settings, run: seq<Attempt>)
    requires cfg.threshold >= 1
  {
    var file := FileAfterAttempts(cfg, run);
    Failures(cfg, run) >= cfg.threshold ==>
      && run != [] && file.Some?
      && file.value.circuitState == Open
      && file.value.nextProbeAt == Some(file.value.lastCheckedAt + cfg.openMs)
      && file.value.lastCheckedAt <= run[|run|-1].recordAt
      && file.value.lastCheckedAt - OpenedAt(cfg, run) >= (Failures(cfg, run) - cfg.threshold) * cfg.openMs
  }

  lemma {:induction false} FailuresAreSpaced(cfg: Settings, run: seq<Attempt>)
    requires cfg.threshold >= 1 && cfg.openMs >= 1 && Sequential(run)
    ensures Spaced(cfg, run)
  {
    if run != [] {
      FailuresAreSpaced(cfg, run[..|run|-1]);
      SpacedStep(cfg, run, run[..|run|-1]);
    }
  }

  lemma SpacedStep(cfg: Settings, run: seq<Attempt>, init: seq<Attempt>)
    requires cfg.threshold >= 1 && cfg.openMs >= 1 && run != [] && init == run[..|run|-1]
    requires Spaced(cfg, init)
    requires run[|run|-1].gateAt <= run[|run|-1].recordAt
    requires init != [] ==> init[|init|-1].recordAt <= run[|run|-1].gateAt
    ensures Spaced(cfg, run)
  {
    var a, f, f' := run[|run|-1], Failures(cfg, init), Failures(cfg, run);
    var file := FileAfterAttempts(cfg, init);
    if f >= cfg.threshold && f' >= cfg.threshold {
      if ProbeAllowed(file, a.gateAt) && a.writable {
        assert f' == f + 1;
        assert a.recordAt >= file.value.lastCheckedAt + cfg.openMs;
        OneMore(f - cfg.threshold, cfg.openMs);
      }
    } else if f' >= cfg.threshold {
      assert f' == cfg.threshold;
      assert OpenedAt(cfg, run) == a.recordAt;
    }
  }

  lemma OneMore(k: nat, d: nat)
    ensures (k + 1) * d == k * d + d
  {
  }

  lemma DivBound(k: nat, d: nat, e: nat)
    requires d > 0 && k * d <= e
    ensures k <= e / d
  {
    OneMore(e / d, d);
    if k > e / d {
      MulMono(e / d + 1, k, d);
    }
  }

  lemma MulMono(a: nat, b: nat, d: nat)
    requires a <= b
    ensures a * d <= b * d
  {
  }

  // Once a run of failures has reached the threshold, the circuit lets through at
  // most one more failing probe per open period.
  lemma ProbeRateBound(cfg: Settings, run: seq<Attempt>, e: nat)
    requires cfg.threshold >= 1 && cfg.openMs >= 1 && Sequential(run)
    requires Failures(cfg, run) >= cfg.threshold
    requires FileAfterAttempts(cfg, run).value.lastCheckedAt <= OpenedAt(cfg, run) + e
    ensures Failures(cfg, run) <= cfg.threshold + e / cfg.openMs
  {
    FailuresAreSpaced(cfg, run);
    DivBound(Failures(cfg, run) - cfg.threshold, cfg.openMs, e);
  }

  // The outcomes that a run of attempts records.
  function Recordings(cfg: Settings, run: seq<Attempt>): seq<Event> {
    if run == [] then []
    else
      var init, a := run[..|run|-1], run[|run|-1];
      if ProbeAllowed(FileAfterAttempts(cfg, init), a.gateAt) && a.writable
      then Recordings(cfg, init) + [Record(a.outcome, a.recordAt)]
      else Recordings(cfg, init)
  }

  // The failures that are bounded are the trailing failures of that history.
  lemma {:induction false} AttemptsAreHistory(cfg: Settings, run: seq<Attempt>)
    requires cfg.threshold >= 1 && cfg.openMs >= 1
    ensures FileAfterAttempts(cfg, run) == FileAfter(cfg, Recordings(cfg, run))
    ensures Failures(cfg, run) == TrailingFailures(Recordings(cfg, run))
  {
    if run != [] {
      var init, a := run[..|run|-1], run[|run|-1];
      AttemptsAreHistory(cfg, init);
      assert (Recordings(cfg, init) + [Record(a.outcome, a.recordAt)])[..|Recordings(cfg, init)|] == Recordings(cfg, init);
    }
    CircuitIsHistory(cfg, Recordings(cfg, run), 0);
  }
}
