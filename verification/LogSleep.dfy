/**
 Producers that wait for space in a log that blocks (src/tlog.c). A producer that
 is refused gives up tlog.lock before it takes log->lock to wait, and the worker
 frees space and wakes the waiters in two steps; so the wake-up can come before
 the wait. This tells exactly which runs leave a producer asleep beside a ring
 with room, and that any refusal can end so.
 */
module LogSleep {
  import opened LogRing
  import LogProtocol
  import LogAttempts

  /** Where the thread of an attempt is: at work, between the refusal and
      log->lock, in pthread_cond_wait, or woken and not yet past it. */
  datatype Place = Running | AboutToWait | Asleep | Woken

  /** `due` says that the worker has freed space and not yet woken the waiters. */
  datatype System = System(a: LogAttempts.System, places: seq<Place>, waiters: nat, due: bool)

  datatype Event =
    | Attempt(e: LogAttempts.Event)
    | Sleep(i: nat)
    | WakeUp(i: nat)       // without a signal
    | StopWaiting(i: nat)
    | Broadcast            // _tlog_wakeup_waiters

  function Init(buff: seq<char>, maxLine: nat): (s: System)
    requires 0 < maxLine <= |buff|
    ensures Inv(s)
  {
    System(LogAttempts.Init(buff, maxLine, true), [], 0, false)
  }

  predicate At(s: System, i: nat, p: Place) {
    i < |s.places| && s.places[i] == p
  }

  predicate Enabled(s: System, e: Event) {
    match e
    case Attempt(e) =>
      && LogAttempts.Enabled(s.a, e)
      && (e.TryAppend? ==> At(s, e.i, Running))
      && (e.Worker? ==> !s.due)
    case Sleep(i) => At(s, i, AboutToWait)
    case WakeUp(i) => At(s, i, Asleep)
    case StopWaiting(i) => At(s, i, Woken) && s.waiters > 0
    case Broadcast => s.due
  }

  function Wake(places: seq<Place>): (woken: seq<Place>)
    ensures |woken| == |places|
    ensures forall i :: 0 <= i < |places| ==> woken[i] == if places[i].Asleep? then Woken else places[i]
  {
    seq(|places|, i requires 0 <= i < |places| => if places[i].Asleep? then Woken else places[i])
  }

  /** Where the threads are after a step of an attempt. */
  function PlacesAfter(s: System, e: LogAttempts.Event): seq<Place>
    requires Inv(s) && LogAttempts.Enabled(s.a, e)
  {
    match e
    case Begin => s.places + [Running]
    case TryAppend(i) =>
      if LogAttempts.Next(s.a, e).ps[i].Waiting? then s.places[i := AboutToWait] else s.places
    case _ => s.places
  }

  function Next(s: System, e: Event): System
    requires Inv(s) && Enabled(s, e)
  {
    match e
    case Attempt(e) =>
      System(LogAttempts.Next(s.a, e), PlacesAfter(s, e), s.waiters,
             s.due || (e.Worker? && e.e.FreeSpace?))
    case Sleep(i) => s.(places := s.places[i := Asleep], waiters := s.waiters + 1)
    case WakeUp(i) => s.(places := s.places[i := Woken])
    case StopWaiting(i) => s.(places := s.places[i := Running], waiters := s.waiters - 1)
    case Broadcast => s.(places := if s.waiters > 0 then Wake(s.places) else s.places, due := false)
  }

  function InWait(places: seq<Place>): nat {
    if places == [] then 0
    else (if places[0].Asleep? || places[0].Woken? then 1 else 0) + InWait(places[1..])
  }

  /** log->waiters counts the threads in the wait; whoever is not at work has a
      line that was refused. */
  ghost predicate Inv(s: System) {
    && LogAttempts.Inv(s.a)
    && |s.places| == |s.a.ps|
    && (forall i :: 0 <= i < |s.places| && !s.places[i].Running? ==> s.a.ps[i].Waiting?)
    && s.waiters == InWait(s.places)
  }

  lemma {:induction false} InWaitUpdate(places: seq<Place>, i: nat, p: Place)
    requires i < |places|
    ensures InWait(places[i := p]) ==
            InWait(places) - (if places[i].Asleep? || places[i].Woken? then 1 else 0)
            + if p.Asleep? || p.Woken? then 1 else 0
  {
    if i == 0 {
      assert places[i := p][1..] == places[1..];
    } else {
      assert places[i := p][1..] == places[1..][i - 1 := p];
      InWaitUpdate(places[1..], i - 1, p);
    }
  }

  lemma {:induction false} InWaitSnoc(places: seq<Place>)
    ensures InWait(places + [Running]) == InWait(places)
  {
    if places == [] {
      assert places + [Running] == [Running];
    } else {
      assert (places + [Running])[1..] == places[1..] + [Running];
      InWaitSnoc(places[1..]);
    }
  }

  lemma {:induction false} InWaitWake(places: seq<Place>, woken: seq<Place>)
    requires |woken| == |places|
    requires forall i :: 0 <= i < |places| ==> woken[i] == if places[i].Asleep? then Woken else places[i]
    ensures InWait(woken) == InWait(places)
  {
    if places != [] {
      InWaitWake(places[1..], woken[1..]);
    }
  }

  lemma {:induction false} SleeperIsCounted(places: seq<Place>, i: nat)
    requires i < |places| && (places[i].Asleep? || places[i].Woken?)
    ensures InWait(places) > 0
  {
    if i > 0 {
      SleeperIsCounted(places[1..], i - 1);
    }
  }

  lemma {:induction false} PhasesAfter(a: LogAttempts.System, e: LogAttempts.Event)
    requires LogAttempts.Inv(a) && LogAttempts.Enabled(a, e)
    ensures |LogAttempts.Next(a, e).ps| == |a.ps| + if e.Begin? then 1 else 0
    ensures forall j :: 0 <= j < |a.ps| && a.ps[j].Waiting? && !(e.TryAppend? && e.i == j) ==>
              LogAttempts.Next(a, e).ps[j].Waiting?
  {
  }

  lemma {:induction false} PlacesKept(s: System, e: LogAttempts.Event)
    requires Inv(s) && Enabled(s, Attempt(e))
    ensures InWait(PlacesAfter(s, e)) == InWait(s.places)
  {
    InWaitSnoc(s.places);
    if e.TryAppend? {
      InWaitUpdate(s.places, e.i, AboutToWait);
    }
  }

  lemma {:induction false} AttemptKeepsInv(s: System, e: LogAttempts.Event)
    requires Inv(s) && Enabled(s, Attempt(e))
    ensures Inv(Next(s, Attempt(e)))
  {
    LogAttempts.StepKeepsInv(s.a, e);
    PhasesAfter(s.a, e);
    PlacesKept(s, e);
  }

  lemma {:induction false} StepKeepsInv(s: System, e: Event)
    requires Inv(s) && Enabled(s, e)
    ensures Inv(Next(s, e))
  {
    match e
    case Attempt(e') => AttemptKeepsInv(s, e');
    case Sleep(i) => InWaitUpdate(s.places, i, Asleep);
    case WakeUp(i) => InWaitUpdate(s.places, i, Woken);
    case StopWaiting(i) => InWaitUpdate(s.places, i, Running);
    case Broadcast => InWaitWake(s.places, Wake(s.places));
  }

  // ---- runs ----------------------------------------------------------------

  ghost predicate Possible(s: System, es: seq<Event>)
    requires Inv(s)
    decreases |es|
  {
    es != [] ==> Enabled(s, es[0]) && (StepKeepsInv(s, es[0]); Possible(Next(s, es[0]), es[1..]))
  }

  ghost function After(s: System, es: seq<Event>): (s': System)
    requires Inv(s) && Possible(s, es)
    ensures Inv(s')
    decreases |es|
  {
    if es == [] then s else StepKeepsInv(s, es[0]); After(Next(s, es[0]), es[1..])
  }

  /** Every step is a step of the attempts, or does not touch them. */
  lemma {:induction false} RunIsAttemptRun(s: System, es: seq<Event>) returns (attempts: seq<LogAttempts.Event>)
    requires Inv(s) && Possible(s, es)
    ensures LogAttempts.Possible(s.a, attempts) && LogAttempts.After(s.a, attempts) == After(s, es).a
    decreases |es|
  {
    attempts := [];
    if es != [] {
      StepKeepsInv(s, es[0]);
      var rest := RunIsAttemptRun(Next(s, es[0]), es[1..]);
      if es[0].Attempt? {
        LogAttempts.StepKeepsInv(s.a, es[0].e);
        attempts := [es[0].e] + rest;
        assert attempts[1..] == rest;
      } else {
        attempts := rest;
      }
    }
  }

  // ---- who is forgotten ----------------------------------------------------

  predicate SomeAsleep(s: System) {
    exists i :: 0 <= i < |s.places| && s.places[i].Asleep?
  }

  /** A producer sleeps although the ring has room and no wake-up is to come for
      the space that was freed. */
  predicate Forgotten(s: System) {
    SomeAsleep(s) && HasRoom(s.a.log.ring) && !s.due
  }

  /** A producer goes to sleep after the wake-up it would have needed. */
  predicate SleepsTooLate(s: System, e: Event) {
    e.Sleep? && HasRoom(s.a.log.ring) && !s.due
  }

  /** Space comes only with a release, and then a wake-up is due. */
  lemma {:induction false} RoomComesWithRelease(s: LogAttempts.System, e: LogAttempts.Event)
    requires LogAttempts.Inv(s) && LogAttempts.Enabled(s, e)
    requires HasRoom(LogAttempts.Next(s, e).log.ring) && !HasRoom(s.log.ring)
    ensures e.Worker? && e.e.FreeSpace?
  {
  }

  lemma {:induction false} BroadcastWakesAll(s: System)
    requires Inv(s) && s.due
    ensures !SomeAsleep(Next(s, Broadcast))
  {
    var s' := Next(s, Broadcast);
    forall j | 0 <= j < |s'.places|
      ensures !s'.places[j].Asleep?
    {
      if s.places[j].Asleep? {
        SleeperIsCounted(s.places, j);
      }
    }
  }

  lemma {:induction false} SleepersAfter(s: System, e: Event)
    requires Inv(s) && Enabled(s, e) && !e.Broadcast?
    ensures e.Sleep? ==> SomeAsleep(Next(s, e))
    ensures !e.Sleep? && SomeAsleep(Next(s, e)) ==> SomeAsleep(s)
  {
    var s' := Next(s, e);
    if e.Sleep? {
      assert s'.places[e.i].Asleep?;
    } else if SomeAsleep(s') {
      var j :| 0 <= j < |s'.places| && s'.places[j].Asleep?;
      assert j < |s.places| && s.places[j].Asleep?;
    }
  }

  lemma {:induction false} StepForgetsIff(s: System, e: Event)
    requires Inv(s) && Enabled(s, e) && !Forgotten(s)
    ensures Forgotten(Next(s, e)) <==> SleepsTooLate(s, e)
  {
    if e.Broadcast? {
      BroadcastWakesAll(s);
    } else {
      SleepersAfter(s, e);
      if e.Attempt? && HasRoom(Next(s, e).a.log.ring) && !HasRoom(s.a.log.ring) {
        RoomComesWithRelease(s.a, e.e);
      }
    }
  }

  ghost predicate NeverForgotten(s: System, es: seq<Event>)
    requires Inv(s) && Possible(s, es)
    decreases |es|
  {
    && !Forgotten(s)
    && (es != [] ==> (StepKeepsInv(s, es[0]); NeverForgotten(Next(s, es[0]), es[1..])))
  }

  ghost predicate NoLateSleep(s: System, es: seq<Event>)
    requires Inv(s) && Possible(s, es)
    decreases |es|
  {
    es != [] ==>
      && !SleepsTooLate(s, es[0])
      && (StepKeepsInv(s, es[0]); NoLateSleep(Next(s, es[0]), es[1..]))
  }

  /** A run never leaves a producer asleep beside a ring with room, with no
      wake-up to come, exactly if none goes to sleep in a state that has room
      and no wake-up to come. The code does not look before it waits. */
  lemma {:induction false} NeverForgottenIff(s: System, es: seq<Event>)
    requires Inv(s) && Possible(s, es) && !Forgotten(s)
    ensures NeverForgotten(s, es) <==> NoLateSleep(s, es)
    decreases |es|
  {
    if es != [] {
      StepKeepsInv(s, es[0]);
      StepForgetsIff(s, es[0]);
      if !Forgotten(Next(s, es[0])) {
        NeverForgottenIff(Next(s, es[0]), es[1..]);
      }
    }
  }

  // ---- a producer that is left asleep --------------------------------------

  lemma {:induction false} RunOneMore(s: System, es: seq<Event>, e: Event)
    requires Inv(s) && Possible(s, es) && Enabled(After(s, es), e)
    ensures Possible(s, es + [e]) && After(s, es + [e]) == Next(After(s, es), e)
    decreases |es|
  {
    var all := es + [e];
    if es == [] {
      assert all[1..] == [];
    } else {
      assert all[1..] == es[1..] + [e];
      StepKeepsInv(s, es[0]);
      RunOneMore(Next(s, es[0]), es[1..], e);
    }
  }

  lemma {:induction false} OneMore(s: System, es: seq<Event>, e: Event) returns (fs: seq<Event>, s': System)
    requires Inv(s) && Possible(s, es) && Enabled(After(s, es), e)
    ensures Possible(s, fs) && After(s, fs) == s' == Next(After(s, es), e) && Inv(s')
  {
    RunOneMore(s, es, e);
    StepKeepsInv(After(s, es), e);
    fs := es + [e];
    s' := After(s, fs);
  }

  /** One step of the worker, which leaves the threads where they are. */
  lemma {:induction false} WorkerStep(s: System, es: seq<Event>, e: LogProtocol.Event) returns (fs: seq<Event>)
    requires Inv(s) && Possible(s, es) && (e.Snapshot? || e.Write? || e.FreeSpace?)
    requires !After(s, es).due && LogProtocol.Enabled(After(s, es).a.log, e)
    ensures Possible(s, fs)
    ensures var t, t' := After(s, es), After(s, fs);
            && t'.a.log == LogProtocol.Next(t.a.log, e) && t'.a.ps == t.a.ps
            && t'.places == t.places && t'.waiters == t.waiters && (t'.due <==> e.FreeSpace?)
  {
    var t;
    fs, t := OneMore(s, es, Attempt(LogAttempts.Worker(e)));
  }

  /** The worker drains the ring and wakes the waiters. */
  lemma {:induction false} WorkerDrains(s: System, es: seq<Event>) returns (fs: seq<Event>)
    requires Inv(s) && Possible(s, es)
    requires var t := After(s, es); t.a.log.worker.Idle? && HasData(t.a.log.ring) && !t.due
    ensures Possible(s, fs)
    ensures var t, t' := After(s, es), After(s, fs);
            && t'.a.log.worker.Idle? && !HasData(t'.a.log.ring) && !t'.due && t'.a.ps == t.a.ps
            && t'.places == if t.waiters > 0 then Wake(t.places) else t.places
  {
    var ring := After(s, es).a.log.ring;
    var sn := TakeSnap(ring);
    SnapshotCoversIffNotFull(ring);
    fs := WorkerStep(s, es, LogProtocol.Snapshot);
    fs := WorkerStep(s, fs, LogProtocol.Write(sn.logLen + sn.extLen));
    fs := WorkerStep(s, fs, LogProtocol.FreeSpace);
    assert After(s, fs).a.log.ring == Release(ring.(dropped := 0), sn);
    var t;
    fs, t := OneMore(s, fs, Broadcast);
  }

  /** What the worker and the wake-ups leave as it was: the attempts, and whoever
      does not sleep. */
  ghost predicate KeepsAwake(s: System, t: System) {
    && t.a.ps == s.a.ps && |t.places| == |s.places|
    && forall i :: 0 <= i < |s.places| && !s.places[i].Asleep? ==> t.places[i] == s.places[i]
  }

  /** The worker ends what it is about, up to the wake-up. */
  lemma {:induction false} WorkerFinishes(s: System) returns (es: seq<Event>)
    requires Inv(s)
    ensures Possible(s, es) && KeepsAwake(s, After(s, es))
    ensures !After(s, es).due && After(s, es).a.log.worker.Idle?
  {
    es := [];
    var t;
    if s.due {
      es, t := OneMore(s, es, Broadcast);
    }
    if After(s, es).a.log.worker.Writing? {
      var w := After(s, es).a.log.worker;
      if w.pos < w.snap.logLen + w.snap.extLen {
        es := WorkerStep(s, es, LogProtocol.Write(w.snap.logLen + w.snap.extLen - w.pos));
      }
      es := WorkerStep(s, es, LogProtocol.FreeSpace);
      es, t := OneMore(s, es, Broadcast);
    }
  }

  /** The worker ends what it is about and empties the ring. */
  lemma {:induction false} WorkerEmpties(s: System) returns (es: seq<Event>)
    requires Inv(s)
    ensures Possible(s, es) && KeepsAwake(s, After(s, es))
    ensures !After(s, es).due && !HasData(After(s, es).a.log.ring)
  {
    es := WorkerFinishes(s);
    if HasData(After(s, es).a.log.ring) {
      es := WorkerDrains(s, es);
    }
  }

  /** Every refusal can end so: whatever the state, a producer that was refused
      and does not wait yet can come to sleep beside an empty ring. */
  lemma {:induction false} EveryRefusalCanBeForgotten(s: System, i: nat) returns (es: seq<Event>)
    requires Inv(s) && At(s, i, AboutToWait)
    ensures Possible(s, es)
    ensures At(After(s, es), i, Asleep) && Forgotten(After(s, es)) && !HasData(After(s, es).a.log.ring)
  {
    es := WorkerEmpties(s);
    var t;
    es, t := OneMore(s, es, Sleep(i));
    assert t.places[i].Asleep?;
  }

  // ---- no attempt is stuck for good ----------------------------------------

  lemma {:induction false} RunOn(s: System, es: seq<Event>, fs: seq<Event>)
    requires Inv(s) && Possible(s, es) && Possible(After(s, es), fs)
    ensures Possible(s, es + fs) && After(s, es + fs) == After(After(s, es), fs)
    decreases |es|
  {
    if es == [] {
      assert es + fs == fs;
    } else {
      assert (es + fs)[1..] == es[1..] + fs;
      StepKeepsInv(s, es[0]);
      RunOn(Next(s, es[0]), es[1..], fs);
    }
  }

  /** A producer that sleeps, or is about to, can come back to its loop; the
      decrement of log->waiters never goes below 0. */
  lemma {:induction false} ComesBack(s: System, i: nat) returns (es: seq<Event>, t: System)
    requires Inv(s) && i < |s.places|
    ensures Possible(s, es) && t == After(s, es) && t.a == s.a && At(t, i, Running)
  {
    es, t := [], s;
    if t.places[i].AboutToWait? {
      es, t := OneMore(s, es, Sleep(i));
    }
    if t.places[i].Asleep? {
      es, t := OneMore(s, es, WakeUp(i));
    }
    if t.places[i].Woken? {
      SleeperIsCounted(t.places, i);
      es, t := OneMore(s, es, StopWaiting(i));
    }
  }

  /** The attempt is open, and `line` is its line if it has one already. */
  predicate MayHave(p: LogAttempts.Phase, line: seq<char>) {
    LogAttempts.IsOpen(p) && ((p.Ready? || p.Waiting?) ==> p.line == line)
  }

  lemma {:induction false} EmptyHasRoom(s: System, i: nat)
    requires Inv(s) && At(s, i, Running) && (s.a.ps[i].Ready? || s.a.ps[i].Waiting?)
    requires !HasData(s.a.log.ring)
    ensures Enabled(s, Attempt(LogAttempts.TryAppend(i)))
    ensures Next(s, Attempt(LogAttempts.TryAppend(i))).a.ps[i] == LogAttempts.Stored(s.a.ps[i].line)
  {
    assert HasRoom(s.a.log.ring);
  }

  /** With its line in hand and back in its loop, the attempt is stored as soon
      as the ring is empty. */
  lemma {:induction false} StoredWhenEmpty(s: System, i: nat) returns (es: seq<Event>)
    requires Inv(s) && At(s, i, Running) && (s.a.ps[i].Ready? || s.a.ps[i].Waiting?)
    ensures Possible(s, es) && i < |After(s, es).a.ps|
    ensures After(s, es).a.ps[i] == LogAttempts.Stored(s.a.ps[i].line)
  {
    es := WorkerEmpties(s);
    EmptyHasRoom(After(s, es), i);
    var t;
    es, t := OneMore(s, es, Attempt(LogAttempts.TryAppend(i)));
  }

  /** Whatever has happened, an attempt that is open can still be stored, and with
      any line that the callback may give it. */
  lemma {:induction false} EveryLineCanBeStored(s: System, i: nat, line: seq<char>) returns (es: seq<Event>)
    requires Inv(s) && s.a.log.block && i < |s.a.ps| && MayHave(s.a.ps[i], line)
    requires 0 < |line| <= s.a.log.ring.maxLine
    ensures Possible(s, es) && i < |After(s, es).a.ps|
    ensures After(s, es).a.ps[i] == LogAttempts.Stored(line)
  {
    var t;
    es, t := ComesBack(s, i);
    if t.a.ps[i].Begun? {
      es, t := OneMore(s, es, Attempt(LogAttempts.NeedDrop(i)));
    }
    if t.a.ps[i].Checked? {
      es, t := OneMore(s, es, Attempt(LogAttempts.Format(i, line)));
    }
    var fs := StoredWhenEmpty(t, i);
    RunOn(s, es, fs);
    es := es + fs;
  }

  /** All attempts so far are stored, the worker has not run, and nobody
      waits. */
  ghost predicate OnlyStored(s: System) {
    && s.a.log.block && s.a.log.worker.Idle? && s.a.log.delivered == [] && s.a.log.lost == 0
    && !s.due && s.waiters == 0
    && (forall i :: 0 <= i < |s.places| ==> s.places[i].Running?)
    && forall i :: 0 <= i < |s.a.ps| ==> s.a.ps[i].Stored?
  }

  lemma {:induction false} LastChanges(ps: seq<LogAttempts.Phase>, p: LogAttempts.Phase, q: LogAttempts.Phase)
    ensures (ps + [p])[|ps| := q] == ps + [q]
  {
  }

  /** The check and the formatting, which change only the phase of the last
      attempt. */
  lemma {:induction false} PrepareStep(s: System, es: seq<Event>, ps: seq<LogAttempts.Phase>, p: LogAttempts.Phase,
                                       e: LogAttempts.Event, q: LogAttempts.Phase)
    returns (fs: seq<Event>)
    requires Inv(s) && Possible(s, es) && After(s, es).a.log.block && After(s, es).a.ps == ps + [p]
    requires e == LogAttempts.NeedDrop(|ps|) || e == LogAttempts.Format(|ps|, ['x'])
    requires e.NeedDrop? ==> p.Begun? && q.Checked?
    requires e.Format? ==> p.Checked? && q == LogAttempts.Ready(['x'])
    ensures Possible(s, fs)
    ensures var t, t' := After(s, es), After(s, fs);
            && t'.a.log == t.a.log && t'.a.order == t.a.order && t'.waiters == t.waiters && t'.due == t.due
            && t'.a.ps == ps + [q] && t'.places == t.places
  {
    var t;
    LastChanges(ps, p, q);
    fs, t := OneMore(s, es, Attempt(e));
  }

  /** A new attempt comes with a line of one byte, up to its loop. */
  lemma {:induction false} Arrive(s: System, es: seq<Event>) returns (fs: seq<Event>)
    requires Inv(s) && Possible(s, es) && After(s, es).a.log.block
    ensures Possible(s, fs)
    ensures var t, t' := After(s, es), After(s, fs);
            && t'.a.log == t.a.log && t'.a.order == t.a.order && t'.waiters == t.waiters && t'.due == t.due
            && t'.a.ps == t.a.ps + [LogAttempts.Ready(['x'])] && t'.places == t.places + [Running]
  {
    var t;
    var ps := After(s, es).a.ps;
    fs, t := OneMore(s, es, Attempt(LogAttempts.Begin));
    fs := PrepareStep(s, fs, ps, LogAttempts.Begun, LogAttempts.NeedDrop(|ps|), LogAttempts.Checked);
    fs := PrepareStep(s, fs, ps, LogAttempts.Checked, LogAttempts.Format(|ps|, ['x']), LogAttempts.Ready(['x']));
  }

  /** Nobody waits but the last attempt, which is where `p` says, with its line
      refused. */
  ghost predicate LastWaits(s: System, p: Place) {
    var n := |s.a.ps|;
    && n > 0 && |s.places| == n && s.a.ps[n - 1].Waiting? && s.places[n - 1] == p
    && forall j :: 0 <= j < n - 1 ==> s.a.ps[j].Stored? && s.places[j].Running?
  }

  /** The last attempt is ready, with a line of one byte, and all others are
      stored. */
  ghost predicate LastIsReady(s: System) {
    var n := |s.a.ps|;
    && s.a.log.block && s.a.log.worker.Idle? && s.a.log.delivered == [] && s.a.log.lost == 0
    && !s.due && s.waiters == 0
    && n > 0 && |s.places| == n && s.a.ps[n - 1] == LogAttempts.Ready(['x'])
    && (forall i :: 0 <= i < n ==> s.places[i].Running?)
    && forall i :: 0 <= i < n - 1 ==> s.a.ps[i].Stored?
  }

  /** What an append changes in the system of the attempts. */
  lemma {:induction false} AppendStep(s: LogAttempts.System, i: nat)
    requires LogAttempts.Inv(s) && LogAttempts.Enabled(s, LogAttempts.TryAppend(i)) && HasRoom(s.log.ring)
    ensures var t, line := LogAttempts.Next(s, LogAttempts.TryAppend(i)), s.ps[i].line;
            && t.ps == s.ps[i := LogAttempts.Stored(line)] && t.log.accepted == s.log.accepted + line
            && |t.log.ring.buff| == |s.log.ring.buff| && t.log.worker == s.log.worker
            && t.log.delivered == s.log.delivered && t.log.lost == s.log.lost && t.log.block == s.log.block
  {
    AppendKeepsInv(s.log.ring, s.ps[i].line);
  }

  lemma {:induction false} LastIsStored(s: System)
    requires Inv(s) && LastIsReady(s) && HasRoom(s.a.log.ring)
    ensures var e := Attempt(LogAttempts.TryAppend(|s.a.ps| - 1));
            && Enabled(s, e) && OnlyStored(Next(s, e))
            && |Next(s, e).a.log.accepted| == |s.a.log.accepted| + 1
            && |Next(s, e).a.log.ring.buff| == |s.a.log.ring.buff|
  {
    var last := |s.a.ps| - 1;
    AppendStep(s.a, last);
    var t := Next(s, Attempt(LogAttempts.TryAppend(last)));
    assert t.places == s.places && t.waiters == s.waiters && !t.due;
    assert t.a.ps == s.a.ps[last := LogAttempts.Stored(['x'])];
  }

  lemma {:induction false} LastIsRefused(s: System)
    requires Inv(s) && LastIsReady(s) && !HasRoom(s.a.log.ring)
    ensures var e := Attempt(LogAttempts.TryAppend(|s.a.ps| - 1));
            && Enabled(s, e) && LastWaits(Next(s, e), AboutToWait) && Next(s, e).a.log == s.a.log
            && !Next(s, e).due && Next(s, e).waiters == 0
  {
  }

  /** A new attempt is stored if there is room, and else refused. */
  lemma {:induction false} NewAttempt(s: System, es: seq<Event>) returns (fs: seq<Event>)
    requires Inv(s) && Possible(s, es) && OnlyStored(After(s, es))
    ensures Possible(s, fs)
    ensures var t, t' := After(s, es), After(s, fs);
            if HasRoom(t.a.log.ring)
            then OnlyStored(t') && |t'.a.log.accepted| == |t.a.log.accepted| + 1
                 && |t'.a.log.ring.buff| == |t.a.log.ring.buff|
            else LastWaits(t', AboutToWait) && t'.a.log == t.a.log && !t'.due && t'.waiters == 0
  {
    fs := Arrive(s, es);
    var t := After(s, fs);
    assert LastIsReady(t);
    if HasRoom(t.a.log.ring) {
      LastIsStored(t);
    } else {
      LastIsRefused(t);
    }
    fs, t := OneMore(s, fs, Attempt(LogAttempts.TryAppend(|t.a.ps| - 1)));
  }

  /** What is accepted fits into the buffer as long as the worker has not run. */
  lemma {:induction false} StoredFits(s: System)
    requires Inv(s) && OnlyStored(s)
    ensures |s.a.log.accepted| <= |s.a.log.ring.buff|
  {
  }

  /** Attempts come until one is refused. */
  lemma {:induction false} FillUp(s: System, es: seq<Event>) returns (fs: seq<Event>)
    requires Inv(s) && Possible(s, es) && OnlyStored(After(s, es))
    ensures Possible(s, fs) && OnlyStored(After(s, fs)) && !HasRoom(After(s, fs).a.log.ring)
    decreases |After(s, es).a.log.ring.buff| - |After(s, es).a.log.accepted|
  {
    fs := es;
    StoredFits(After(s, es));
    if HasRoom(After(s, es).a.log.ring) {
      fs := NewAttempt(s, es);
      StoredFits(After(s, fs));
      fs := FillUp(s, fs);
    }
  }

  /** Nothing can happen any more without a new attempt or a wake-up without a
      signal. */
  ghost predicate Settled(s: System) {
    forall e :: Enabled(s, e) ==> e.WakeUp? || e == Attempt(LogAttempts.Begin)
  }

  lemma {:induction false} LastSleepIsTooLate(s: System)
    requires Inv(s) && LastWaits(s, AboutToWait) && s.a.log.worker.Idle? && !HasData(s.a.log.ring) && !s.due
    ensures Forgotten(Next(s, Sleep(|s.places| - 1))) && Settled(Next(s, Sleep(|s.places| - 1)))
  {
    var s' := Next(s, Sleep(|s.places| - 1));
    assert s'.places[|s.places| - 1].Asleep?;
    assert LastWaits(s', Asleep);
  }

  /** For every buffer and every max_line_size there is a run that ends with a
      producer asleep beside an empty ring, the worker idle, and nothing to come
      that would wake it: it is refused, the worker drains the ring and wakes
      nobody, and then it goes to sleep. */
  lemma {:induction false} ProducerIsLeftAsleep(buff: seq<char>, maxLine: nat) returns (es: seq<Event>)
    requires 0 < maxLine <= |buff|
    ensures Possible(Init(buff, maxLine), es)
    ensures var s := After(Init(buff, maxLine), es);
            Forgotten(s) && !HasData(s.a.log.ring) && s.a.log.worker.Idle? && Settled(s)
  {
    var s := Init(buff, maxLine);
    es := FillUp(s, []);
    RefusedOnlyWhenWrapped(After(s, es).a.log.ring);
    es := NewAttempt(s, es);
    es := WorkerDrains(s, es);
    var t := After(s, es);
    LastSleepIsTooLate(t);
    es, t := OneMore(s, es, Sleep(|t.places| - 1));
  }
}
