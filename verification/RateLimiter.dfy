/**
 * The per-client sliding-window rate limiter (backend/rust/src/main.rs).
 *
 * The service keeps a bounded map of deques and prunes it on every call.  Its
 * specification keeps one log of all admissions and never forgets anything.
 */
module RateLimiter {
  import opened Common

  // Readings of the monotone clock, in nanoseconds.
  type Instant = nat

  // An effective client address.
  type Client = nat

  const WINDOW: nat := 60_000_000_000

  function Elapsed(now: Instant, since: Instant): nat {
    if now < since then 0 else now - since
  }

  predicate Young(now: Instant, t: Instant) {
    Elapsed(now, t) < WINDOW
  }

  // ---------- the bounded table ----------

  type Buckets = map<Client, seq<Instant>>

  // A deque after its expired front has been popped.
  function Pruned(hits: seq<Instant>, now: Instant): (r: seq<Instant>)
    ensures |r| <= |hits|
  {
    if hits != [] && !Young(now, hits[0]) then Pruned(hits[1..], now) else hits
  }

  // `retain`: prune every deque and drop the clients left with none.
  function Retained(buckets: Buckets, now: Instant): Buckets {
    map c | c in buckets && Pruned(buckets[c], now) != [] :: Pruned(buckets[c], now)
  }

  function Hits(buckets: Buckets, c: Client): seq<Instant> {
    if c in buckets then buckets[c] else []
  }

  // One call on the table: the table afterwards and the decision.
  function Check(buckets: Buckets, maxClients: nat, limit: nat, client: Client, now: Instant): (Buckets, bool) {
    var kept := Retained(buckets, now);
    if client !in kept && |kept| >= maxClients then (kept, false)
    else
      var hits := Pruned(Hits(kept, client), now);
      if |hits| >= limit then (kept[client := hits], false)
      else (kept[client := hits + [now]], true)
  }

  class ChatRateLimiter {
    var buckets: Buckets

    constructor ()
      ensures buckets == map[]
    {
      buckets := map[];
    }

    static method PopExpired(hits: seq<Instant>, now: Instant) returns (r: seq<Instant>)
      ensures r == Pruned(hits, now)
    {
      r := hits;
      while r != [] && !Young(now, r[0])
        invariant Pruned(r, now) == Pruned(hits, now)
        decreases |r|
      {
        r := r[1..];
      }
    }

    method Retain(now: Instant)
      modifies this
      ensures buckets == Retained(old(buckets), now)
    {
      var todo := buckets.Keys;
      var kept: Buckets := map[];
      while todo != {}
        invariant todo <= buckets.Keys && buckets == old(buckets)
        invariant kept.Keys <= buckets.Keys - todo
        invariant forall c :: c in buckets && c !in todo && Pruned(buckets[c], now) != [] ==> c in kept
        invariant forall c :: c in kept ==> Pruned(buckets[c], now) != [] && kept[c] == Pruned(buckets[c], now)
        decreases |todo|
      {
        var c :| c in todo;
        todo := todo - {c};
        var hits := PopExpired(buckets[c], now);
        if hits != [] {
          kept := kept[c := hits];
        }
      }
      buckets := kept;
    }

    method CheckBucket(maxClients: nat, limit: nat, client: Client, now: Instant) returns (admitted: bool)
      modifies this
      ensures (buckets, admitted) == Check(old(buckets), maxClients, limit, client, now)
    {
      Retain(now);
      if client !in buckets && |buckets| >= maxClients {
        return false;
      }
      var hits := if client in buckets then buckets[client] else [];
      hits := PopExpired(hits, now);
      buckets := buckets[client := hits];
      if |hits| >= limit {
        return false;
      }
      assert buckets[client := hits + [now]] == Retained(old(buckets), now)[client := hits + [now]];
      buckets := buckets[client := hits + [now]];
      return true;
    }
  }

  // ---------- the full-log limiter ----------

  datatype Request = Request(client: Client, now: Instant)

  // Every admission so far, oldest first.
  type Log = seq<Request>

  // The admission times of one client that are still young, oldest first.
  function YoungTimes(log: Log, c: Client, now: Instant): seq<Instant> {
    if log == [] then []
    else
      var last := log[|log|-1];
      var before := YoungTimes(log[..|log|-1], c, now);
      if last.client == c && Young(now, last.now) then before + [last.now] else before
  }

  // The clients with a young admission.
  function Active(log: Log, now: Instant): set<Client> {
    set i | 0 <= i < |log| && Young(now, log[i].now) :: log[i].client
  }

  predicate TableFull(log: Log, maxClients: nat, r: Request) {
    r.client !in Active(log, r.now) && |Active(log, r.now)| >= maxClients
  }

  predicate Admits(log: Log, maxClients: nat, limit: nat, r: Request) {
    !TableFull(log, maxClients, r) && |YoungTimes(log, r.client, r.now)| < limit
  }

  function LogAfter(maxClients: nat, limit: nat, run: seq<Request>): Log {
    if run == [] then []
    else
      var log := LogAfter(maxClients, limit, run[..|run|-1]);
      var r := run[|run|-1];
      if Admits(log, maxClients, limit, r) then log + [r] else log
  }

  // The table after a run of calls.
  function TableAfter(maxClients: nat, limit: nat, run: seq<Request>): Buckets {
    if run == [] then map[]
    else
      var r := run[|run|-1];
      Check(TableAfter(maxClients, limit, run[..|run|-1]), maxClients, limit, r.client, r.now).0
  }

  // The table's answer to the k-th call of a run, and the log's.
  predicate TableDecision(maxClients: nat, limit: nat, run: seq<Request>, k: nat)
    requires k < |run|
  {
    Check(TableAfter(maxClients, limit, run[..k]), maxClients, limit, run[k].client, run[k].now).1
  }

  predicate LogDecision(maxClients: nat, limit: nat, run: seq<Request>, k: nat)
    requires k < |run|
  {
    Admits(LogAfter(maxClients, limit, run[..k]), maxClients, limit, run[k])
  }

  predicate Ordered(run: seq<Request>) {
    forall i, j :: 0 <= i < j < |run| ==> run[i].now <= run[j].now
  }

  // ---------- refinement ----------

  // The table holds exactly the young part of the log, as of time `now`.
  ghost predicate Agrees(buckets: Buckets, log: Log, now: Instant) {
    && Ordered(log)
    && (forall i :: 0 <= i < |log| ==> log[i].now <= now)
    && forall c: Client :: Hits(buckets, c) == YoungTimes(log, c, now)
  }

  lemma {:induction false} PruneYoungTimes(log: Log, c: Client, t: Instant, now: Instant)
    requires Ordered(log) && t <= now
    requires forall i :: 0 <= i < |log| ==> log[i].now <= t
    ensures Pruned(YoungTimes(log, c, t), now) == YoungTimes(log, c, now)
    ensures forall i :: 0 <= i < |YoungTimes(log, c, t)| ==>
      (exists k :: 0 <= k < |log| && log[k].now == YoungTimes(log, c, t)[i])
  {
    if log != [] {
      var n := |log| - 1;
      var init, last := log[..n], log[n];
      PruneYoungTimes(init, c, t, now);
      var before := YoungTimes(init, c, t);
      assert forall i :: 0 <= i < |before| ==> before[i] <= last.now by {
        forall i | 0 <= i < |before| ensures before[i] <= last.now {
          var k :| 0 <= k < |init| && init[k].now == before[i];
          assert log[k] == init[k];
        }
      }
      if last.client == c && Young(t, last.now) {
        PruneAppend(before, last.now, now);
      } else {
        assert YoungTimes(log, c, t) == before;
        if last.client == c { assert !Young(now, last.now); }
      }
      forall i | 0 <= i < |YoungTimes(log, c, t)|
        ensures exists k :: 0 <= k < |log| && log[k].now == YoungTimes(log, c, t)[i]
      {
        if i < |before| {
          var k :| 0 <= k < |init| && init[k].now == before[i];
          assert log[k].now == before[i];
        } else {
          assert log[n].now == YoungTimes(log, c, t)[i];
        }
      }
    }
  }

  // Pruning a deque whose newest element is `x`.
  lemma {:induction false} PruneAppend(hits: seq<Instant>, x: Instant, now: Instant)
    requires forall i :: 0 <= i < |hits| ==> hits[i] <= x
    ensures Pruned(hits + [x], now) == if Young(now, x) then Pruned(hits, now) + [x] else Pruned(hits, now)
    decreases |hits|
  {
    if hits == [] {
      assert Pruned([x], now) == if Young(now, x) then [x] else [];
    } else {
      assert (hits + [x])[0] == hits[0];
      if !Young(now, hits[0]) {
        assert (hits + [x])[1..] == hits[1..] + [x];
        PruneAppend(hits[1..], x, now);
      } else {
        assert Young(now, x);
      }
    }
  }

  lemma {:induction false} ActiveIffYoung(log: Log, c: Client, now: Instant)
    ensures c in Active(log, now) <==> YoungTimes(log, c, now) != []
  {
    if log != [] {
      var n := |log| - 1;
      ActiveIffYoung(log[..n], c, now);
      if c in Active(log[..n], now) {
        var i :| 0 <= i < n && Young(now, log[..n][i].now) && log[..n][i].client == c;
        assert log[i] == log[..n][i];
      }
      if c in Active(log, now) && !(log[n].client == c && Young(now, log[n].now)) {
        var i :| 0 <= i < |log| && Young(now, log[i].now) && log[i].client == c;
        assert log[..n][i] == log[i];
      }
    }
  }

  lemma YoungTimesAppend(log: Log, r: Request, c: Client, now: Instant)
    ensures YoungTimes(log + [r], c, now)
         == if r.client == c && Young(now, r.now)
            then YoungTimes(log, c, now) + [r.now] else YoungTimes(log, c, now)
  {
    assert (log + [r])[..|log|] == log;
  }

  lemma RetainedIsYoung(buckets: Buckets, log: Log, t: Instant, now: Instant)
    requires Agrees(buckets, log, t) && t <= now
    ensures forall c: Client :: Hits(Retained(buckets, now), c) == YoungTimes(log, c, now)
    ensures Retained(buckets, now).Keys == Active(log, now)
  {
    forall c: Client
      ensures Hits(Retained(buckets, now), c) == YoungTimes(log, c, now)
      ensures c in Retained(buckets, now) <==> c in Active(log, now)
    {
      assert Hits(buckets, c) == YoungTimes(log, c, t);
      PruneYoungTimes(log, c, t, now);
      ActiveIffYoung(log, c, now);
    }
  }

  lemma CheckDecides(buckets: Buckets, log: Log, t: Instant, maxClients: nat, limit: nat, r: Request)
    requires Agrees(buckets, log, t) && t <= r.now
    ensures Check(buckets, maxClients, limit, r.client, r.now).1 == Admits(log, maxClients, limit, r)
  {
    var kept := Retained(buckets, r.now);
    RetainedIsYoung(buckets, log, t, r.now);
    PruneYoungTimes(log, r.client, r.now, r.now);
    assert Hits(kept, r.client) == YoungTimes(log, r.client, r.now);
    assert |kept| == |kept.Keys|;
  }

  lemma CheckHits(buckets: Buckets, log: Log, t: Instant, maxClients: nat, limit: nat, r: Request, c: Client)
    requires Agrees(buckets, log, t) && t <= r.now
    ensures var (after, admitted) := Check(buckets, maxClients, limit, r.client, r.now);
      Hits(after, c) == YoungTimes(if admitted then log + [r] else log, c, r.now)
  {
    var kept := Retained(buckets, r.now);
    RetainedIsYoung(buckets, log, t, r.now);
    PruneYoungTimes(log, r.client, r.now, r.now);
    YoungTimesAppend(log, r, c, r.now);
    assert Hits(kept, c) == YoungTimes(log, c, r.now);
    assert Hits(kept, r.client) == YoungTimes(log, r.client, r.now);
  }

  // One call: same decision, and the table still holds the young part of the log.
  lemma CheckAgrees(buckets: Buckets, log: Log, t: Instant, maxClients: nat, limit: nat, r: Request)
    requires Agrees(buckets, log, t) && t <= r.now
    ensures Check(buckets, maxClients, limit, r.client, r.now).1 == Admits(log, maxClients, limit, r)
    ensures var (after, admitted) := Check(buckets, maxClients, limit, r.client, r.now);
      Agrees(after, if admitted then log + [r] else log, r.now)
  {
    CheckDecides(buckets, log, t, maxClients, limit, r);
    var (after, admitted) := Check(buckets, maxClients, limit, r.client, r.now);
    forall c: Client
      ensures Hits(after, c) == YoungTimes(if admitted then log + [r] else log, c, r.now)
    {
      CheckHits(buckets, log, t, maxClients, limit, r, c);
    }
  }

  function EndTime(run: seq<Request>): Instant {
    if run == [] then 0 else run[|run|-1].now
  }

  lemma {:induction false} TableAgrees(maxClients: nat, limit: nat, run: seq<Request>)
    requires Ordered(run)
    ensures Agrees(TableAfter(maxClients, limit, run), LogAfter(maxClients, limit, run), EndTime(run))
  {
    if run != [] {
      var n := |run| - 1;
      var init := run[..n];
      TableAgrees(maxClients, limit, init);
      var table, log := TableAfter(maxClients, limit, init), LogAfter(maxClients, limit, init);
      CheckAgrees(table, log, EndTime(init), maxClients, limit, run[n]);
    }
  }

  // The bounded, pruned table is the full log seen through the last minute, and
  // both answer every call alike.
  lemma TableRefinesLog(maxClients: nat, limit: nat, run: seq<Request>)
    requires Ordered(run)
    ensures Agrees(TableAfter(maxClients, limit, run), LogAfter(maxClients, limit, run), EndTime(run))
    ensures forall k: nat :: k < |run| ==>
      TableDecision(maxClients, limit, run, k) == LogDecision(maxClients, limit, run, k)
  {
    TableAgrees(maxClients, limit, run);
    forall k: nat | k < |run|
      ensures TableDecision(maxClients, limit, run, k) == LogDecision(maxClients, limit, run, k)
    {
      var before := run[..k];
      TableAgrees(maxClients, limit, before);
      assert EndTime(before) <= run[k].now;
      CheckAgrees(TableAfter(maxClients, limit, before), LogAfter(maxClients, limit, before), EndTime(before),
                  maxClients, limit, run[k]);
    }
  }

  // ---------- every decision, from the earlier decisions ----------

  // Less than a minute old: the sixty seconds of the service, in nanoseconds.
  predicate WithinMinute(t: Instant, now: Instant) {
    now - 60_000_000_000 < t <= now
  }

  // The calls before the k-th by client c that were admitted less than a minute ago.
  ghost function RecentCalls(maxClients: nat, limit: nat, run: seq<Request>, k: nat, c: Client, now: Instant): set<nat>
    requires k <= |run|
  {
    set j: nat | j < k && run[j].client == c && WithinMinute(run[j].now, now) && TableDecision(maxClients, limit, run, j)
  }

  // The clients of such calls.
  ghost function RecentClients(maxClients: nat, limit: nat, run: seq<Request>, k: nat, now: Instant): set<Client>
    requires k <= |run|
  {
    set j: nat | j < k && WithinMinute(run[j].now, now) && TableDecision(maxClients, limit, run, j) :: run[j].client
  }

  lemma LogNext(maxClients: nat, limit: nat, run: seq<Request>, k: nat)
    requires Ordered(run) && k < |run|
    ensures var log := LogAfter(maxClients, limit, run[..k]);
      LogAfter(maxClients, limit, run[..k+1]) == if TableDecision(maxClients, limit, run, k) then log + [run[k]] else log
  {
    TableRefinesLog(maxClients, limit, run);
    assert run[..k+1][..k] == run[..k];
    assert TableDecision(maxClients, limit, run, k) == LogDecision(maxClients, limit, run, k);
  }

  lemma RecentNext(maxClients: nat, limit: nat, run: seq<Request>, k: nat, c: Client, now: Instant)
    requires k < |run|
    ensures var before, after := RecentCalls(maxClients, limit, run, k, c, now), RecentCalls(maxClients, limit, run, k + 1, c, now);
      |after| == |before|
        + if run[k].client == c && WithinMinute(run[k].now, now) && TableDecision(maxClients, limit, run, k) then 1 else 0
  {
    hide TableDecision, WithinMinute;
    var before, after := RecentCalls(maxClients, limit, run, k, c, now), RecentCalls(maxClients, limit, run, k + 1, c, now);
    if run[k].client == c && WithinMinute(run[k].now, now) && TableDecision(maxClients, limit, run, k) {
      assert after == before + {k};
    } else {
      assert after == before;
    }
  }

  lemma {:induction false} YoungCount(maxClients: nat, limit: nat, run: seq<Request>, k: nat, c: Client, now: Instant)
    requires Ordered(run) && k <= |run| && forall j :: 0 <= j < k ==> run[j].now <= now
    ensures |YoungTimes(LogAfter(maxClients, limit, run[..k]), c, now)| == |RecentCalls(maxClients, limit, run, k, c, now)|
  {
    hide TableDecision, LogAfter, YoungTimes, RecentCalls;
    if k == 0 {
      NothingAdmitted(maxClients, limit, run, c, now);
    } else {
      YoungCount(maxClients, limit, run, k - 1, c, now);
      LogNext(maxClients, limit, run, k - 1);
      YoungTimesAppend(LogAfter(maxClients, limit, run[..k-1]), run[k-1], c, now);
      RecentNext(maxClients, limit, run, k - 1, c, now);
    }
  }

  lemma NothingAdmitted(maxClients: nat, limit: nat, run: seq<Request>, c: Client, now: Instant)
    ensures YoungTimes(LogAfter(maxClients, limit, run[..0]), c, now) == []
    ensures RecentCalls(maxClients, limit, run, 0, c, now) == {}
  {
  }

  lemma ActiveAreRecent(maxClients: nat, limit: nat, run: seq<Request>, k: nat, now: Instant)
    requires Ordered(run) && k <= |run| && forall j :: 0 <= j < k ==> run[j].now <= now
    ensures Active(LogAfter(maxClients, limit, run[..k]), now) == RecentClients(maxClients, limit, run, k, now)
  {
    var log := LogAfter(maxClients, limit, run[..k]);
    forall c: Client ensures c in Active(log, now) <==> c in RecentClients(maxClients, limit, run, k, now) {
      ActiveIffYoung(log, c, now);
      YoungCount(maxClients, limit, run, k, c, now);
      var own := RecentCalls(maxClients, limit, run, k, c, now);
      if own != {} {
        var j :| j in own;
        assert run[j].client in RecentClients(maxClients, limit, run, k, now);
      }
      if c in RecentClients(maxClients, limit, run, k, now) {
        var j: nat :| j < k && WithinMinute(run[j].now, now) && TableDecision(maxClients, limit, run, j) && run[j].client == c;
        assert j in own;
      }
    }
  }

  // A call is admitted exactly if its client has fewer than `limit` admissions in
  // the last minute, and has one or fewer than `maxClients` clients do.
  lemma AdmittedExactlyWhen(maxClients: nat, limit: nat, run: seq<Request>, k: nat)
    requires forall i, j :: 0 <= i < j < |run| ==> run[i].now <= run[j].now
    requires k < |run|
    ensures var own := RecentCalls(maxClients, limit, run, k, run[k].client, run[k].now);
      TableDecision(maxClients, limit, run, k) <==>
        |own| < limit && (own != {} || |RecentClients(maxClients, limit, run, k, run[k].now)| < maxClients)
  {
    var r, log := run[k], LogAfter(maxClients, limit, run[..k]);
    TableRefinesLog(maxClients, limit, run);
    YoungCount(maxClients, limit, run, k, r.client, r.now);
    ActiveAreRecent(maxClients, limit, run, k, r.now);
    ActiveIffYoung(log, r.client, r.now);
    assert TableDecision(maxClients, limit, run, k) == LogDecision(maxClients, limit, run, k);
  }

  // ---------- what the limiter guarantees ----------

  // Admissions of client c in the half-open interval [t, t + WINDOW).
  function AdmittedIn(log: Log, c: Client, t: Instant): nat {
    if log == [] then 0
    else
      var last := log[|log|-1];
      AdmittedIn(log[..|log|-1], c, t) + if last.client == c && t <= last.now < t + WINDOW then 1 else 0
  }

  lemma {:induction false} WindowIsYoung(log: Log, c: Client, t: Instant, now: Instant)
    requires forall i :: 0 <= i < |log| ==> log[i].now <= now
    requires now < t + WINDOW
    ensures AdmittedIn(log, c, t) <= |YoungTimes(log, c, now)|
  {
    if log != [] {
      WindowIsYoung(log[..|log|-1], c, t, now);
    }
  }

  // The calls of client c admitted in the minute from t on.
  ghost function AdmittedCalls(maxClients: nat, limit: nat, run: seq<Request>, k: nat, c: Client, t: Instant): set<nat>
    requires k <= |run|
  {
    set j: nat | j < k && run[j].client == c && t <= run[j].now < t + 60_000_000_000 && TableDecision(maxClients, limit, run, j)
  }

  lemma AdmittedNext(maxClients: nat, limit: nat, run: seq<Request>, k: nat, c: Client, t: Instant)
    requires k < |run|
    ensures |AdmittedCalls(maxClients, limit, run, k + 1, c, t)| == |AdmittedCalls(maxClients, limit, run, k, c, t)|
      + if run[k].client == c && t <= run[k].now < t + 60_000_000_000 && TableDecision(maxClients, limit, run, k) then 1 else 0
  {
    hide TableDecision;
    var before, after := AdmittedCalls(maxClients, limit, run, k, c, t), AdmittedCalls(maxClients, limit, run, k + 1, c, t);
    if run[k].client == c && t <= run[k].now < t + 60_000_000_000 && TableDecision(maxClients, limit, run, k) {
      assert after == before + {k};
    } else {
      assert after == before;
    }
  }

  lemma AdmittedInAppend(log: Log, r: Request, c: Client, t: Instant)
    ensures AdmittedIn(log + [r], c, t)
         == AdmittedIn(log, c, t) + if r.client == c && t <= r.now < t + 60_000_000_000 then 1 else 0
  {
    assert (log + [r])[..|log|] == log;
  }

  lemma {:induction false} AdmittedCount(maxClients: nat, limit: nat, run: seq<Request>, k: nat, c: Client, t: Instant)
    requires Ordered(run) && k <= |run|
    ensures AdmittedIn(LogAfter(maxClients, limit, run[..k]), c, t) == |AdmittedCalls(maxClients, limit, run, k, c, t)|
  {
    hide TableDecision, LogAfter, AdmittedIn, AdmittedCalls;
    if k == 0 {
      NoneAdmitted(maxClients, limit, run, c, t);
    } else {
      AdmittedCount(maxClients, limit, run, k - 1, c, t);
      LogNext(maxClients, limit, run, k - 1);
      AdmittedInAppend(LogAfter(maxClients, limit, run[..k-1]), run[k-1], c, t);
      AdmittedNext(maxClients, limit, run, k - 1, c, t);
    }
  }

  lemma NoneAdmitted(maxClients: nat, limit: nat, run: seq<Request>, c: Client, t: Instant)
    ensures AdmittedIn(LogAfter(maxClients, limit, run[..0]), c, t) == 0
    ensures AdmittedCalls(maxClients, limit, run, 0, c, t) == {}
  {
  }

  // The same bound on the calls themselves.
  lemma WindowBoundOnCalls(maxClients: nat, limit: nat, run: seq<Request>, c: Client, t: Instant)
    requires forall i, j :: 0 <= i < j < |run| ==> run[i].now <= run[j].now
    ensures |AdmittedCalls(maxClients, limit, run, |run|, c, t)| <= limit
  {
    WindowBound(maxClients, limit, run, c, t);
    AdmittedCount(maxClients, limit, run, |run|, c, t);
    assert run[..|run|] == run;
  }

  // However the window is placed, it holds at most `limit` admissions of a client.
  lemma {:induction false} WindowBound(maxClients: nat, limit: nat, run: seq<Request>, c: Client, t: Instant)
    requires Ordered(run)
    ensures AdmittedIn(LogAfter(maxClients, limit, run), c, t) <= limit
  {
    if run != [] {
      var n := |run| - 1;
      var log, r := LogAfter(maxClients, limit, run[..n]), run[n];
      WindowBound(maxClients, limit, run[..n], c, t);
      TableRefinesLog(maxClients, limit, run[..n]);
      if Admits(log, maxClients, limit, r) && r.client == c && t <= r.now < t + WINDOW {
        WindowIsYoung(log, c, t, r.now);
      }
      assert (log + [r])[..|log|] == log;
    }
  }

  lemma RetainedShrinks(buckets: Buckets, now: Instant)
    ensures |Retained(buckets, now)| <= |buckets|
  {
    var kept := Retained(buckets, now);
    SubsetSize(kept.Keys, buckets.Keys);
    assert |kept| == |kept.Keys| && |buckets| == |buckets.Keys|;
  }

  lemma InsertBound(kept: Buckets, c: Client, hits: seq<Instant>, bound: nat)
    requires |kept| <= bound && (c in kept || |kept| < bound)
    ensures |kept[c := hits]| <= bound
  {
    var after := kept[c := hits];
    assert after.Keys == kept.Keys + {c};
    assert |kept| == |kept.Keys| && |after| == |after.Keys|;
  }

  lemma CheckBound(buckets: Buckets, maxClients: nat, limit: nat, c: Client, now: Instant)
    requires |buckets| <= maxClients
    ensures |Check(buckets, maxClients, limit, c, now).0| <= maxClients
  {
    var kept := Retained(buckets, now);
    RetainedShrinks(buckets, now);
    if c in kept || |kept| < maxClients {
      var hits := Pruned(Hits(kept, c), now);
      InsertBound(kept, c, if |hits| >= limit then hits else hits + [now], maxClients);
    }
  }

  // The table never tracks more than `maxClients` clients.
  lemma {:induction false} TableBound(maxClients: nat, limit: nat, run: seq<Request>)
    ensures |TableAfter(maxClients, limit, run)| <= maxClients
  {
    if run != [] {
      var init, r := run[..|run|-1], run[|run|-1];
      TableBound(maxClients, limit, init);
      CheckBound(TableAfter(maxClients, limit, init), maxClients, limit, r.client, r.now);
    }
  }

  // ---------- clients do not disturb each other ----------

  function Only(run: seq<Request>, c: Client): seq<Request> {
    if run == [] then []
    else
      var before := Only(run[..|run|-1], c);
      if run[|run|-1].client == c then before + [run[|run|-1]] else before
  }

  lemma {:induction false} OnlyKeepsOrder(run: seq<Request>, c: Client)
    requires Ordered(run)
    ensures Ordered(Only(run, c))
    ensures forall i :: 0 <= i < |Only(run, c)| ==> Only(run, c)[i].client == c && Only(run, c)[i].now <= EndTime(run)
  {
    if run != [] {
      OnlyKeepsOrder(run[..|run|-1], c);
    }
  }

  lemma {:induction false} OnlyAt(run: seq<Request>, c: Client, k: nat)
    requires k < |run| && run[k].client == c
    ensures var i := |Only(run[..k], c)|;
      i < |Only(run, c)| && Only(run, c)[..i] == Only(run[..k], c) && Only(run, c)[i] == run[k]
  {
    var n := |run| - 1;
    if k < n {
      OnlyAt(run[..n], c, k);
      assert run[..n][..k] == run[..k];
    }
  }

  lemma {:induction false} OnlyYoung(log: Log, c: Client, now: Instant)
    ensures YoungTimes(Only(log, c), c, now) == YoungTimes(log, c, now)
  {
    if log != [] {
      var n := |log| - 1;
      OnlyYoung(log[..n], c, now);
      if log[n].client == c {
        YoungTimesAppend(Only(log[..n], c), log[n], c, now);
      }
    }
  }

  // No call of client c is refused because the table is full.
  ghost predicate NeverCrowdedOut(maxClients: nat, limit: nat, run: seq<Request>, c: Client) {
    forall k: nat :: k < |run| && run[k].client == c ==>
      !TableFull(LogAfter(maxClients, limit, run[..k]), maxClients, run[k])
  }

  lemma OwnLogDecides(log: Log, maxClients: nat, limit: nat, r: Request)
    requires !TableFull(log, maxClients, r)
    ensures Admits(log, maxClients, limit, r) == Admits(Only(log, r.client), maxClients, limit, r)
  {
    var own := Only(log, r.client);
    OnlyYoung(log, r.client, r.now);
    ActiveIffYoung(log, r.client, r.now);
    ActiveIffYoung(own, r.client, r.now);
    if r.client !in Active(own, r.now) {
      forall c | c in Active(own, r.now) ensures false {
        var i :| 0 <= i < |own| && Young(r.now, own[i].now) && own[i].client == c;
        OnlyClient(log, r.client, i);
      }
      assert Active(own, r.now) == {};
    }
  }

  lemma {:induction false} OnlyClient(run: seq<Request>, c: Client, i: nat)
    requires i < |Only(run, c)|
    ensures Only(run, c)[i].client == c
  {
    var init := run[..|run|-1];
    if i < |Only(init, c)| {
      OnlyClient(init, c, i);
    }
  }

  lemma NeverCrowdedOutPrefix(maxClients: nat, limit: nat, run: seq<Request>, c: Client, n: nat)
    requires NeverCrowdedOut(maxClients, limit, run, c) && n <= |run|
    ensures NeverCrowdedOut(maxClients, limit, run[..n], c)
  {
    forall k: nat | k < n && run[..n][k].client == c
      ensures !TableFull(LogAfter(maxClients, limit, run[..n][..k]), maxClients, run[..n][k])
    {
      assert run[..n][..k] == run[..k];
    }
  }

  lemma LogAfterAppend(maxClients: nat, limit: nat, run: seq<Request>, r: Request)
    ensures var log := LogAfter(maxClients, limit, run);
      LogAfter(maxClients, limit, run + [r]) == if Admits(log, maxClients, limit, r) then log + [r] else log
  {
    assert (run + [r])[..|run|] == run;
  }

  lemma OnlyAppend(run: seq<Request>, r: Request, c: Client)
    ensures Only(run + [r], c) == if r.client == c then Only(run, c) + [r] else Only(run, c)
  {
    assert (run + [r])[..|run|] == run;
  }

  lemma {:induction false} OwnLog(maxClients: nat, limit: nat, run: seq<Request>, c: Client)
    requires NeverCrowdedOut(maxClients, limit, run, c)
    ensures Only(LogAfter(maxClients, limit, run), c) == LogAfter(maxClients, limit, Only(run, c))
  {
    if run != [] {
      var n := |run| - 1;
      var init, r := run[..n], run[n];
      NeverCrowdedOutPrefix(maxClients, limit, run, c, n);
      OwnLog(maxClients, limit, init, c);
      var log := LogAfter(maxClients, limit, init);
      OnlyAppend(log, r, c);
      if r.client == c {
        OwnLogDecides(log, maxClients, limit, r);
        LogAfterAppend(maxClients, limit, Only(init, c), r);
      }
    }
  }

  // Deleting every other client's calls leaves this client's decisions unchanged,
  // as long as none of its own calls meets a full table.
  lemma Isolation(maxClients: nat, limit: nat, run: seq<Request>, c: Client, k: nat)
    requires Ordered(run) && NeverCrowdedOut(maxClients, limit, run, c)
    requires k < |run| && run[k].client == c
    ensures |Only(run[..k], c)| < |Only(run, c)|
    ensures TableDecision(maxClients, limit, run, k)
         == TableDecision(maxClients, limit, Only(run, c), |Only(run[..k], c)|)
  {
    OnlyAt(run, c, k);
    OnlyKeepsOrder(run, c);
    TableRefinesLog(maxClients, limit, run);
    TableRefinesLog(maxClients, limit, Only(run, c));
    NeverCrowdedOutPrefix(maxClients, limit, run, c, k);
    OwnLog(maxClients, limit, run[..k], c);
    OwnLogDecides(LogAfter(maxClients, limit, run[..k]), maxClients, limit, run[k]);
  }
}
