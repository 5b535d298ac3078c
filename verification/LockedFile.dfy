/**
 * The locked read-modify-write protocol of backend/python/brain/persistence.py.
 *
 * Any number of processes update one JSON file.  Each step below is one system
 * call or one local computation; processes interleave at every step and may
 * crash at every step.  A crash releases the advisory lock and leaves the
 * temporary file of the process behind.
 */
module LockedFile {
  import opened Common
  import opened Json

  type Payload = map<string, Value>

  // The JSON library: `parse` fails on anything that is not a JSON object.
  datatype Library = Library(blank: string -> bool, parse: string -> Option<Payload>, dump: Payload -> Option<string>)

  // One call of locked_json_update; a mutation may raise.
  datatype Update = Update(default: Payload, mutate: Payload -> Option<Payload>)

  function Load(lib: Library, file: Option<string>, u: Update): Option<Payload> {
    match file
    case None => Some(u.default)
    case Some(text) => if lib.blank(text) then Some(u.default) else lib.parse(text)
  }

  function Mutated(lib: Library, u: Update, payload: Payload): Option<string> {
    var p := u.mutate(payload);
    if p.None? then None else lib.dump(p.value)
  }

  // The text an update would publish if it ran alone on `file`.
  function NewText(lib: Library, file: Option<string>, u: Update): Option<string> {
    var p := Load(lib, file, u);
    if p.None? then None else Mutated(lib, u, p.value)
  }

  datatype Phase =
    | Idle
    | Waiting(update: Update)                            // blocked in flock
    | Locked(update: Update)                             // nothing read yet
    | Loaded(update: Update, payload: Payload)
    | Dumped(text: string)                                  // mutated and serialised
    | Writing(text: string, temp: nat, written: nat)
    | Synced(text: string, temp: nat)                       // complete and flushed to disk
    | Cleaning(temp: nat, published: bool)                  // the temporary file is about to be removed
    | Releasing(ok: bool)
    | Crashed

  // `acquired` lists the updates in the order in which they got the lock; an
  // update's position there is its ticket.  `committed` lists the tickets whose
  // text was moved to the path; `outcomes` what callers were told; `lateErrors` the
  // tickets for which cleaning up or unlocking raised after the replacement; `strays`
  // the temporary files of crashed processes and of cleanups that raised.
  datatype System = System(
    file: Option<string>,
    lock: Option<nat>,
    temps: map<nat, string>,
    procs: map<nat, Phase>,
    acquired: seq<Update>,
    committed: seq<nat>,
    outcomes: map<nat, bool>,
    lateErrors: set<nat>,
    strays: set<nat>)

  datatype Event =
    | Call(update: Update)
    | Acquire
    | Read(ok: bool)
    | Mutate
    | CreateTemp(name: Option<nat>)       // None: mkstemp failed
    | Write(upTo: Option<nat>)            // None: the write failed
    | Sync(ok: bool)
    | Replace(ok: bool)
    | Unlink(ok: bool)                    // a missing file is no error
    | Release(ok: bool)                   // closing the lock file frees the lock even if unlocking raised
    | Crash

  datatype Action = Action(pid: nat, event: Event)

  function PhaseOf(s: System, pid: nat): Phase {
    if pid in s.procs then s.procs[pid] else Idle
  }

  predicate Holding(p: Phase) {
    !p.Idle? && !p.Waiting? && !p.Crashed?
  }

  predicate Enabled(s: System, a: Action) {
    var p := PhaseOf(s, a.pid);
    match a.event
    case Call(_) => p.Idle?
    case Acquire => p.Waiting? && s.lock.None?
    case Read(_) => p.Locked?
    case Mutate => p.Loaded?
    case CreateTemp(name) => p.Dumped? && (name.Some? ==> name.value !in s.temps)
    case Write(upTo) => p.Writing? && (upTo.Some? ==> p.written <= upTo.value <= |p.text|)
    case Sync(ok) => p.Writing? && (ok ==> p.written == |p.text|)
    case Replace(_) => p.Synced? && p.temp in s.temps
    case Unlink(_) => p.Cleaning?
    case Release(_) => p.Releasing?
    case Crash => !p.Crashed?
  }

  function OwnTemp(p: Phase): set<nat> {
    match p
    case Writing(_, temp, _) => {temp}
    case Synced(_, temp) => {temp}
    case Cleaning(temp, _) => {temp}
    case _ => {}
  }

  // The ticket of the process that holds the lock.
  function Ticket(s: System): nat {
    if s.acquired == [] then 0 else |s.acquired| - 1
  }

  function Step(lib: Library, s: System, a: Action): System
    requires Enabled(s, a)
  {
    var p := PhaseOf(s, a.pid);
    match a.event
    case Call(u) => s.(procs := s.procs[a.pid := Waiting(u)])
    case Acquire =>
      s.(procs := s.procs[a.pid := Locked(p.update)], lock := Some(a.pid), acquired := s.acquired + [p.update])
    case Read(ok) =>
      var loaded := if ok then Load(lib, s.file, p.update) else None;
      s.(procs := s.procs[a.pid := if loaded.Some? then Loaded(p.update, loaded.value) else Releasing(false)])
    case Mutate =>
      var text := Mutated(lib, p.update, p.payload);
      s.(procs := s.procs[a.pid := if text.Some? then Dumped(text.value) else Releasing(false)])
    case CreateTemp(None) => s.(procs := s.procs[a.pid := Releasing(false)])
    case CreateTemp(Some(name)) =>
      s.(procs := s.procs[a.pid := Writing(p.text, name, 0)], temps := s.temps[name := ""])
    case Write(None) => s.(procs := s.procs[a.pid := Cleaning(p.temp, false)])
    case Write(Some(n)) =>
      s.(procs := s.procs[a.pid := p.(written := n)], temps := s.temps[p.temp := p.text[..n]])
    case Sync(ok) =>
      s.(procs := s.procs[a.pid := if ok then Synced(p.text, p.temp) else Cleaning(p.temp, false)])
    case Replace(ok) =>
      if ok then
        s.(procs := s.procs[a.pid := Cleaning(p.temp, true)],
           file := Some(s.temps[p.temp]),
           temps := s.temps - {p.temp},
           committed := s.committed + [Ticket(s)])
      else s.(procs := s.procs[a.pid := Cleaning(p.temp, false)])
    case Unlink(ok) =>
      s.(procs := s.procs[a.pid := Releasing(ok && p.published)],
         temps := if ok then s.temps - {p.temp} else s.temps,
         strays := if ok then s.strays else s.strays + {p.temp},
         lateErrors := if !ok && p.published then s.lateErrors + {Ticket(s)} else s.lateErrors)
    case Release(ok) =>
      s.(procs := s.procs[a.pid := Idle], lock := None, outcomes := s.outcomes[Ticket(s) := ok && p.ok],
         lateErrors := if !ok && Ticket(s) in s.committed then s.lateErrors + {Ticket(s)} else s.lateErrors)
    case Crash =>
      s.(procs := s.procs[a.pid := Crashed],
         lock := if s.lock == Some(a.pid) then None else s.lock,
         strays := s.strays + OwnTemp(p))
  }

  function Init(initial: Option<string>): System {
    System(initial, None, map[], map[], [], [], map[], {}, {})
  }

  // An action that is not possible in the current state changes nothing.
  function Run(lib: Library, initial: Option<string>, actions: seq<Action>): System {
    if actions == [] then Init(initial)
    else
      var s := Run(lib, initial, actions[..|actions|-1]);
      var a := actions[|actions|-1];
      if Enabled(s, a) then Step(lib, s, a) else s
  }

  // ---------- the serial specification ----------

  predicate Issued(tickets: seq<nat>, n: nat) {
    forall i :: 0 <= i < |tickets| ==> tickets[i] < n
  }

  // The file after the updates with the given tickets ran alone, one after the other.
  function Serial(lib: Library, initial: Option<string>, updates: seq<Update>, tickets: seq<nat>): Option<string>
    requires Issued(tickets, |updates|)
  {
    if tickets == [] then initial
    else
      var before := Serial(lib, initial, updates, tickets[..|tickets|-1]);
      var text := NewText(lib, before, updates[tickets[|tickets|-1]]);
      if text.Some? then text else before
  }

  // Every one of these updates succeeds when its turn comes.
  ghost predicate AllSucceed(lib: Library, initial: Option<string>, updates: seq<Update>, tickets: seq<nat>)
    requires Issued(tickets, |updates|)
  {
    tickets != [] ==>
      && AllSucceed(lib, initial, updates, tickets[..|tickets|-1])
      && NewText(lib, Serial(lib, initial, updates, tickets[..|tickets|-1]), updates[tickets[|tickets|-1]]).Some?
  }

  // ---------- invariant ----------

  ghost predicate LockInv(s: System) {
    && (forall pid: nat :: Holding(PhaseOf(s, pid)) <==> s.lock == Some(pid))
    && (s.lock.Some? ==> s.acquired != [])
  }

  ghost predicate TicketInv(s: System) {
    && Issued(s.committed, |s.acquired|)
    && (forall i, j :: 0 <= i < j < |s.committed| ==> s.committed[i] < s.committed[j])
    && (forall t :: t in s.lateErrors ==> t in s.committed)
    && (forall t :: t in s.outcomes ==>
          t < |s.acquired| && (s.outcomes[t] <==> t in s.committed && t !in s.lateErrors))
    && (s.lock.Some? ==> HolderInv(s, Ticket(s), PhaseOf(s, s.lock.value)))
  }

  // What the lock holder's phase says about its ticket.
  ghost predicate HolderInv(s: System, t: nat, p: Phase) {
    && t !in s.outcomes
    && (p.Releasing? ==> (p.ok <==> t in s.committed && t !in s.lateErrors))
    && (!p.Releasing? ==> t !in s.lateErrors && (t in s.committed <==> p.Cleaning? && p.published))
  }

  // What the lock holder has prepared is what its update makes of the current file.
  ghost predicate WorkInv(lib: Library, s: System) {
    s.lock.Some? && s.acquired != [] ==>
      var u, p := s.acquired[Ticket(s)], PhaseOf(s, s.lock.value);
      match p
      case Locked(v) => v == u
      case Loaded(v, payload) => v == u && Load(lib, s.file, u) == Some(payload)
      case Dumped(text) => NewText(lib, s.file, u) == Some(text)
      case Writing(text, temp, written) =>
        && NewText(lib, s.file, u) == Some(text)
        && written <= |text| && temp in s.temps && s.temps[temp] == text[..written]
      case Synced(text, temp) =>
        && NewText(lib, s.file, u) == Some(text)
        && temp in s.temps && s.temps[temp] == text
      case _ => true
  }

  ghost predicate TempInv(s: System) {
    s.temps.Keys <= s.strays + if s.lock.Some? then OwnTemp(PhaseOf(s, s.lock.value)) else {}
  }

  ghost predicate FileInv(lib: Library, initial: Option<string>, s: System)
    requires TicketInv(s)
  {
    && AllSucceed(lib, initial, s.acquired, s.committed)
    && s.file == Serial(lib, initial, s.acquired, s.committed)
  }

  ghost predicate Inv(lib: Library, initial: Option<string>, s: System) {
    LockInv(s) && WorkInv(lib, s) && TicketInv(s) && TempInv(s) && FileInv(lib, initial, s)
  }

  // More updates in the list do not change the meaning of the old tickets.
  lemma {:induction false} SerialMonotone(lib: Library, initial: Option<string>, updates: seq<Update>,
                                             more: seq<Update>, tickets: seq<nat>)
    requires Issued(tickets, |updates|)
    ensures Serial(lib, initial, updates + more, tickets) == Serial(lib, initial, updates, tickets)
    ensures AllSucceed(lib, initial, updates + more, tickets) == AllSucceed(lib, initial, updates, tickets)
    decreases |tickets|
  {
    if tickets != [] {
      SerialMonotone(lib, initial, updates, more, tickets[..|tickets|-1]);
    }
  }

  lemma SerialAppend(lib: Library, initial: Option<string>, updates: seq<Update>, tickets: seq<nat>, t: nat)
    requires Issued(tickets, |updates|) && t < |updates|
    requires AllSucceed(lib, initial, updates, tickets)
    requires NewText(lib, Serial(lib, initial, updates, tickets), updates[t]).Some?
    ensures AllSucceed(lib, initial, updates, tickets + [t])
    ensures Serial(lib, initial, updates, tickets + [t])
         == NewText(lib, Serial(lib, initial, updates, tickets), updates[t])
  {
    assert (tickets + [t])[..|tickets|] == tickets;
  }

  lemma StepKeepsLock(lib: Library, s: System, a: Action)
    requires LockInv(s) && Enabled(s, a)
    ensures LockInv(Step(lib, s, a))
  {
    var s' := Step(lib, s, a);
    forall pid: nat ensures Holding(PhaseOf(s', pid)) <==> s'.lock == Some(pid) {
      assert Holding(PhaseOf(s, pid)) <==> s.lock == Some(pid);
      assert Holding(PhaseOf(s, a.pid)) <==> s.lock == Some(a.pid);
      assert pid != a.pid ==> PhaseOf(s', pid) == PhaseOf(s, pid);
    }
  }

  lemma StepKeepsWork(lib: Library, s: System, a: Action)
    requires LockInv(s) && WorkInv(lib, s) && Enabled(s, a)
    ensures WorkInv(lib, Step(lib, s, a))
  {
    StepKeepsLock(lib, s, a);
    var s' := Step(lib, s, a);
    assert Holding(PhaseOf(s, a.pid)) <==> s.lock == Some(a.pid);
    if s.lock.Some? && s'.lock.Some? && a.pid != s.lock.value {
      assert PhaseOf(s', s.lock.value) == PhaseOf(s, s.lock.value);
      assert s'.temps == s.temps && s'.file == s.file;
    }
  }

  lemma ReplaceKeepsTickets(lib: Library, s: System, a: Action)
    requires LockInv(s) && TicketInv(s) && Enabled(s, a) && a.event == Replace(true)
    ensures TicketInv(Step(lib, s, a))
  {
    var s', t := Step(lib, s, a), Ticket(s);
    assert Holding(PhaseOf(s, a.pid)) <==> s.lock == Some(a.pid);
    assert t !in s.committed;
    forall i | 0 <= i < |s.committed| ensures s.committed[i] < t {
      assert s.committed[i] in s.committed;
    }
    assert s'.committed == s.committed + [t];
  }

  lemma StepKeepsTickets(lib: Library, s: System, a: Action)
    requires LockInv(s) && TicketInv(s) && Enabled(s, a)
    ensures TicketInv(Step(lib, s, a))
  {
    if a.event == Replace(true) {
      ReplaceKeepsTickets(lib, s, a);
    } else {
      var s' := Step(lib, s, a);
      assert Holding(PhaseOf(s, a.pid)) <==> s.lock == Some(a.pid);
      assert s.lock.Some? && a.pid != s.lock.value ==> PhaseOf(s', s.lock.value) == PhaseOf(s, s.lock.value);
      assert s'.committed == s.committed;
    }
  }

  lemma StepKeepsTemps(lib: Library, s: System, a: Action)
    requires LockInv(s) && TempInv(s) && Enabled(s, a)
    ensures TempInv(Step(lib, s, a))
  {
    var s' := Step(lib, s, a);
    assert Holding(PhaseOf(s, a.pid)) <==> s.lock == Some(a.pid);
    assert s.lock.Some? && a.pid != s.lock.value ==> PhaseOf(s', s.lock.value) == PhaseOf(s, s.lock.value);
  }

  lemma AcquireKeepsFile(lib: Library, initial: Option<string>, s: System, a: Action)
    requires TicketInv(s) && FileInv(lib, initial, s) && Enabled(s, a) && a.event.Acquire?
    requires TicketInv(Step(lib, s, a))
    ensures FileInv(lib, initial, Step(lib, s, a))
  {
    SerialMonotone(lib, initial, s.acquired, [PhaseOf(s, a.pid).update], s.committed);
  }

  lemma ReplaceKeepsFile(lib: Library, initial: Option<string>, s: System, a: Action)
    requires LockInv(s) && WorkInv(lib, s) && TicketInv(s) && FileInv(lib, initial, s)
    requires Enabled(s, a) && a.event == Replace(true) && TicketInv(Step(lib, s, a))
    ensures FileInv(lib, initial, Step(lib, s, a))
  {
    assert Holding(PhaseOf(s, a.pid)) <==> s.lock == Some(a.pid);
    SerialAppend(lib, initial, s.acquired, s.committed, Ticket(s));
  }

  lemma StepKeepsFile(lib: Library, initial: Option<string>, s: System, a: Action)
    requires Inv(lib, initial, s) && Enabled(s, a)
    ensures TicketInv(Step(lib, s, a)) && FileInv(lib, initial, Step(lib, s, a))
  {
    StepKeepsTickets(lib, s, a);
    if a.event.Acquire? {
      AcquireKeepsFile(lib, initial, s, a);
    } else if a.event == Replace(true) {
      ReplaceKeepsFile(lib, initial, s, a);
    }
  }

  lemma StepKeepsInv(lib: Library, initial: Option<string>, s: System, a: Action)
    requires Inv(lib, initial, s) && Enabled(s, a)
    ensures Inv(lib, initial, Step(lib, s, a))
  {
    StepKeepsLock(lib, s, a);
    StepKeepsWork(lib, s, a);
    StepKeepsTickets(lib, s, a);
    StepKeepsTemps(lib, s, a);
    StepKeepsFile(lib, initial, s, a);
  }

  lemma InitHasInv(lib: Library, initial: Option<string>)
    ensures Inv(lib, initial, Init(initial))
  {
  }

  lemma {:induction false} RunKeepsInv(lib: Library, initial: Option<string>, actions: seq<Action>)
    ensures Inv(lib, initial, Run(lib, initial, actions))
  {
    if actions == [] {
      InitHasInv(lib, initial);
    } else {
      var s := Run(lib, initial, actions[..|actions|-1]);
      RunKeepsInv(lib, initial, actions[..|actions|-1]);
      if Enabled(s, actions[|actions|-1]) {
        StepKeepsInv(lib, initial, s, actions[|actions|-1]);
      }
    }
  }

  // ---------- theorems ----------

  // At every moment of every run, with crashes anywhere, the file is what the
  // committed updates make of the initial file when run alone in lock order.
  lemma Serializable(lib: Library, initial: Option<string>, actions: seq<Action>)
    ensures var s := Run(lib, initial, actions);
      && Issued(s.committed, |s.acquired|)
      && (forall i, j :: 0 <= i < j < |s.committed| ==> s.committed[i] < s.committed[j])
      && AllSucceed(lib, initial, s.acquired, s.committed)
      && s.file == Serial(lib, initial, s.acquired, s.committed)
  {
    RunKeepsInv(lib, initial, actions);
  }

  // Success is only reported for committed updates, and a committed update is
  // reported as a failure exactly if removing its temporary file or unlocking raised.
  lemma OutcomesAreTrue(lib: Library, initial: Option<string>, actions: seq<Action>, t: nat)
    requires t in Run(lib, initial, actions).outcomes
    ensures var s := Run(lib, initial, actions);
      && (s.outcomes[t] ==> t in s.committed)
      && (t in s.committed ==> (!s.outcomes[t] <==> t in s.lateErrors))
      && (t in s.lateErrors ==> t in s.committed)
  {
    RunKeepsInv(lib, initial, actions);
  }

  lemma {:induction false} SerialIsDumped(lib: Library, initial: Option<string>, updates: seq<Update>, tickets: seq<nat>)
    requires Issued(tickets, |updates|)
    ensures Serial(lib, initial, updates, tickets) == initial
         || exists p: Payload :: lib.dump(p).Some? && Serial(lib, initial, updates, tickets) == lib.dump(p)
    decreases |tickets|
  {
    if tickets != [] {
      var before := Serial(lib, initial, updates, tickets[..|tickets|-1]);
      SerialIsDumped(lib, initial, updates, tickets[..|tickets|-1]);
      var u := updates[tickets[|tickets|-1]];
      var text := NewText(lib, before, u);
      if text.Some? {
        var p := u.mutate(Load(lib, before, u).value).value;
        assert lib.dump(p) == text;
      }
    }
  }

  // No partial text is ever visible at the path.
  lemma NeverPartial(lib: Library, initial: Option<string>, actions: seq<Action>)
    ensures var s := Run(lib, initial, actions);
      s.file == initial || exists p: Payload :: lib.dump(p).Some? && s.file == lib.dump(p)
  {
    RunKeepsInv(lib, initial, actions);
    var s := Run(lib, initial, actions);
    SerialIsDumped(lib, initial, s.acquired, s.committed);
  }

  // A crash never blocks the others: only a live process holds the lock, and once
  // the lock is free the only temporary files left are those of crashed processes
  // and of cleanups that raised.
  lemma CrashesDoNotBlock(lib: Library, initial: Option<string>, actions: seq<Action>)
    ensures var s := Run(lib, initial, actions);
      && (s.lock.Some? ==> !PhaseOf(s, s.lock.value).Crashed?)
      && (s.lock.None? ==> s.temps.Keys <= s.strays)
  {
    RunKeepsInv(lib, initial, actions);
    var s := Run(lib, initial, actions);
    if s.lock.Some? {
      assert Holding(PhaseOf(s, s.lock.value));
    }
  }

  // What can happen next to a process, in every reachable state: only a held lock
  // makes it wait, every system call of the lock holder may succeed or fail, and a
  // crash is always possible.
  lemma NextSteps(lib: Library, initial: Option<string>, actions: seq<Action>, pid: nat, e: Event)
    ensures var s := Run(lib, initial, actions);
      Enabled(s, Action(pid, e)) <==>
        match PhaseOf(s, pid)
        case Crashed => false
        case Idle => e.Call? || e.Crash?
        case Waiting(_) => e.Crash? || (e.Acquire? && s.lock.None?)
        case Locked(_) => e.Crash? || e.Read?
        case Loaded(_, _) => e.Crash? || e.Mutate?
        case Dumped(_) => e.Crash? || (e.CreateTemp? && (e.name.Some? ==> e.name.value !in s.temps))
        case Writing(text, _, written) =>
          || e.Crash? || (e.Write? && (e.upTo.Some? ==> written <= e.upTo.value <= |text|))
          || (e.Sync? && (e.ok ==> written == |text|))
        case Synced(_, _) => e.Crash? || e.Replace?
        case Cleaning(_, _) => e.Crash? || e.Unlink?
        case Releasing(_) => e.Crash? || e.Release?
  {
    RunKeepsInv(lib, initial, actions);
    var s := Run(lib, initial, actions);
    assert Holding(PhaseOf(s, pid)) <==> s.lock == Some(pid);
  }

  // A system call that fails leaves the file alone, and unless the file was replaced
  // before, the process will report a failure; what it leaves behind is counted.
  lemma FailedCalls(lib: Library, s: System, pid: nat, e: Event)
    requires Enabled(s, Action(pid, e))
    requires e in {Read(false), CreateTemp(None), Write(None), Sync(false), Replace(false), Unlink(false), Release(false)}
    ensures var (s', p) := (Step(lib, s, Action(pid, e)), PhaseOf(s, pid));
      && s'.file == s.file && s'.committed == s.committed
      && PhaseOf(s', pid) == (
        if e.Read? || e.CreateTemp? || e.Unlink? then Releasing(false)
        else if e.Release? then Idle
        else Cleaning(p.temp, false))
      && (e.Unlink? ==> s'.temps == s.temps && p.temp in s'.strays)
      && (e.Release? ==> Ticket(s) in s'.outcomes && !s'.outcomes[Ticket(s)])
  {
  }

  lemma CleanStep(lib: Library, s: System, a: Action)
    requires Enabled(s, a) && !a.event.Crash? && a.event != Unlink(false) && a.event != Release(false)
    ensures Step(lib, s, a).strays == s.strays && Step(lib, s, a).lateErrors == s.lateErrors
  {
  }

  // Without crashes and without late errors nothing is left behind and every caller
  // is told what happened.
  lemma {:induction false} CleanRunsLeaveNothing(lib: Library, initial: Option<string>, actions: seq<Action>)
    requires forall i :: 0 <= i < |actions| ==>
      !actions[i].event.Crash? && actions[i].event != Unlink(false) && actions[i].event != Release(false)
    ensures var s := Run(lib, initial, actions);
      && s.strays == {} && s.lateErrors == {}
      && (s.lock.None? ==> s.temps == map[])
      && (forall t :: t in s.outcomes ==> (s.outcomes[t] <==> t in s.committed))
  {
    hide Step, Enabled;
    if actions != [] {
      var s, a := Run(lib, initial, actions[..|actions|-1]), actions[|actions|-1];
      CleanRunsLeaveNothing(lib, initial, actions[..|actions|-1]);
      if Enabled(s, a) {
        CleanStep(lib, s, a);
      }
    }
    RunKeepsInv(lib, initial, actions);
  }

  // One process whose cleanup raises after the replacement: the update is in the
  // file, yet its caller is told that it failed.
  function LateErrorRun(u: Update, text: string): seq<Action> {
    [Action(0, Call(u)), Action(0, Acquire), Action(0, Read(true)), Action(0, Mutate), Action(0, CreateTemp(Some(0))),
     Action(0, Write(Some(|text|))), Action(0, Sync(true)), Action(0, Replace(true)), Action(0, Unlink(false)), Action(0, Release(true))]
  }

  lemma RunStep(lib: Library, initial: Option<string>, actions: seq<Action>, k: nat)
    requires k < |actions|
    ensures var s := Run(lib, initial, actions[..k]);
      Run(lib, initial, actions[..k + 1]) == if Enabled(s, actions[k]) then Step(lib, s, actions[k]) else s
  {
    assert actions[..k + 1][..k] == actions[..k];
  }

  // The state of that run while the process works, up to the replacement.
  function Alone(u: Update, temps: map<nat, string>, p: Phase): System {
    System(None, Some(0), temps, map[0 := p], [u], [], map[], {}, {})
  }

  lemma LateErrorLocked(lib: Library, u: Update, text: string)
    ensures Run(lib, None, LateErrorRun(u, text)[..2]) == Alone(u, map[], Locked(u))
  {
    var actions := LateErrorRun(u, text);
    RunStep(lib, None, actions, 0);
    RunStep(lib, None, actions, 1);
  }

  lemma LateErrorDumped(lib: Library, u: Update, text: string)
    requires NewText(lib, None, u) == Some(text)
    ensures Run(lib, None, LateErrorRun(u, text)[..4]) == Alone(u, map[], Dumped(text))
  {
    var actions := LateErrorRun(u, text);
    LateErrorLocked(lib, u, text);
    RunStep(lib, None, actions, 2);
    RunStep(lib, None, actions, 3);
  }

  lemma LateErrorCreated(lib: Library, u: Update, text: string)
    requires NewText(lib, None, u) == Some(text)
    ensures Run(lib, None, LateErrorRun(u, text)[..5]) == Alone(u, map[0 := ""], Writing(text, 0, 0))
  {
    LateErrorDumped(lib, u, text);
    RunStep(lib, None, LateErrorRun(u, text), 4);
  }

  lemma LateErrorWritten(lib: Library, u: Update, text: string)
    requires NewText(lib, None, u) == Some(text)
    ensures Run(lib, None, LateErrorRun(u, text)[..6]) == Alone(u, map[0 := text], Writing(text, 0, |text|))
  {
    LateErrorCreated(lib, u, text);
    RunStep(lib, None, LateErrorRun(u, text), 5);
    assert text[..|text|] == text;
  }

  lemma LateErrorReplaced(lib: Library, u: Update, text: string)
    requires NewText(lib, None, u) == Some(text)
    ensures Run(lib, None, LateErrorRun(u, text)[..8])
         == Alone(u, map[], Cleaning(0, true)).(file := Some(text), committed := [0])
  {
    var actions := LateErrorRun(u, text);
    LateErrorWritten(lib, u, text);
    RunStep(lib, None, actions, 6);
    RunStep(lib, None, actions, 7);
  }

  lemma LateErrorLies(lib: Library, u: Update, text: string)
    requires NewText(lib, None, u) == Some(text)
    ensures var s := Run(lib, None, LateErrorRun(u, text));
      s.file == Some(text) && s.committed == [0] && s.outcomes == map[0 := false]
  {
    var actions := LateErrorRun(u, text);
    LateErrorReplaced(lib, u, text);
    RunStep(lib, None, actions, 8);
    RunStep(lib, None, actions, 9);
    assert actions[..10] == actions;
  }

  // ---------- the same on payloads ----------

  // What was dumped loads back unchanged.
  ghost predicate RoundTrips(lib: Library) {
    forall p: Payload :: lib.dump(p).Some? ==> !lib.blank(lib.dump(p).value) && lib.parse(lib.dump(p).value) == Some(p)
  }

  // The mutations themselves, applied one after the other.
  function Mutations(start: Payload, updates: seq<Update>, tickets: seq<nat>): Option<Payload>
    requires Issued(tickets, |updates|)
  {
    if tickets == [] then Some(start)
    else
      var before := Mutations(start, updates, tickets[..|tickets|-1]);
      if before.None? then None else updates[tickets[|tickets|-1]].mutate(before.value)
  }

  // There is no text to start from.
  predicate IsBlank(lib: Library, file: Option<string>) {
    file.None? || lib.blank(file.value)
  }

  // What one update makes of a file: a missing or blank one starts from the default
  // of the update, any other from what its text parses to, if it does.
  lemma UpdateExactly(lib: Library, file: Option<string>, u: Update)
    ensures NewText(lib, file, u) ==
      if !IsBlank(lib, file) && lib.parse(file.value).None? then None
      else
        var changed := u.mutate(if IsBlank(lib, file) then u.default else lib.parse(file.value).value);
        if changed.None? then None else lib.dump(changed.value)
  {
  }

  // The first committed update of a run that starts without a file publishes what its
  // mutation makes of its own default.
  lemma FirstOnMissingFile(lib: Library, actions: seq<Action>)
    requires |Run(lib, None, actions).committed| == 1
    ensures var s := Run(lib, None, actions);
      && s.committed[0] < |s.acquired|
      && var u := s.acquired[s.committed[0]];
         u.mutate(u.default).Some? && s.file == lib.dump(u.mutate(u.default).value) && s.file.Some?
  {
    RunKeepsInv(lib, None, actions);
    var s := Run(lib, None, actions);
    assert s.committed[..0] == [];
    UpdateExactly(lib, None, s.acquired[s.committed[0]]);
  }

  // With a faithful JSON library the file holds the composed mutations of the
  // payload the first committed update started from.
  lemma {:induction false} SerialIsComposition(lib: Library, initial: Option<string>, updates: seq<Update>, tickets: seq<nat>)
    requires RoundTrips(lib)
    requires Issued(tickets, |updates|)
    requires tickets != [] && AllSucceed(lib, initial, updates, tickets)
    ensures var first := Load(lib, initial, updates[tickets[0]]);
      && first.Some?
      && first.value == (if IsBlank(lib, initial) then updates[tickets[0]].default else lib.parse(initial.value).value)
      && var last := Mutations(first.value, updates, tickets);
         last.Some? && Serial(lib, initial, updates, tickets) == lib.dump(last.value)
    decreases |tickets|
  {
    var init := tickets[..|tickets|-1];
    var u := updates[tickets[|tickets|-1]];
    if init == [] {
      assert tickets[0] == tickets[|tickets|-1];
      assert Mutations(Load(lib, initial, u).value, updates, init) == Load(lib, initial, u);
    } else {
      SerialIsComposition(lib, initial, updates, init);
    }
  }
}
