/**
 Attempts to log, one by one (_tlog_vprintf in src/tlog.c). Each call is an
 attempt of its own: it checks for room, formats its line outside of the lock,
 and then appends, is refused, or waits, while all others and the worker go on
 between any two of these.
 */
module LogAttempts {
  import opened Common
  import opened LogRing
  import LogProtocol

  /** How far an attempt has come. `Checked` has passed _tlog_need_drop, `Ready`
      has its line, `Waiting` was refused and waits for space. */
  datatype Phase =
    | Begun
    | Checked
    | Ready(line: seq<char>)
    | Waiting(line: seq<char>)
    | Stored(line: seq<char>)
    | Dropped
    | NoLine

  /** `order` has the numbers of the stored attempts in the order of their
      appends. */
  datatype System = System(log: LogProtocol.Log, ps: seq<Phase>, order: seq<nat>)

  datatype Event =
    | Begin
    | NeedDrop(i: nat)
    | Format(i: nat, line: seq<char>)
    | TryAppend(i: nat)
    | Worker(e: LogProtocol.Event)

  function Init(buff: seq<char>, maxLine: nat, block: bool): (s: System)
    requires 0 < maxLine <= |buff|
    ensures Inv(s)
  {
    System(LogProtocol.Init(buff, maxLine, block), [], [])
  }

  predicate Enabled(s: System, e: Event) {
    match e
    case Begin => true
    case NeedDrop(i) => i < |s.ps| && s.ps[i].Begun?
    case Format(i, line) => i < |s.ps| && s.ps[i].Checked? && |line| <= s.log.ring.maxLine
    case TryAppend(i) => i < |s.ps| && (s.ps[i].Ready? || s.ps[i].Waiting?)
    case Worker(e) => (e.Snapshot? || e.Write? || e.FreeSpace?) && LogProtocol.Enabled(s.log, e)
  }

  function Next(s: System, e: Event): System
    requires Inv(s) && Enabled(s, e)
  {
    match e
    case Begin => s.(ps := s.ps + [Begun])
    case NeedDrop(i) =>
      if !s.log.block && !HasRoom(s.log.ring)
      then s.(log := s.log.(ring := Drop(s.log.ring)), ps := s.ps[i := Dropped])
      else s.(ps := s.ps[i := Checked])
    case Format(i, line) => s.(ps := s.ps[i := if line == [] then NoLine else Ready(line)])
    case TryAppend(i) =>
      var line := s.ps[i].line;
      if HasRoom(s.log.ring)
      then s.(log := s.log.(ring := Append(s.log.ring, line), accepted := s.log.accepted + line),
              ps := s.ps[i := Stored(line)], order := s.order + [i])
      else if s.log.block then s.(ps := s.ps[i := Waiting(line)])
      else s.(log := s.log.(ring := Drop(s.log.ring)), ps := s.ps[i := Dropped])
    case Worker(e) => s.(log := LogProtocol.Next(s.log, e))
  }

  function Count(ps: seq<Phase>, f: Phase -> bool): nat {
    if ps == [] then 0 else (if f(ps[0]) then 1 else 0) + Count(ps[1..], f)
  }

  predicate IsStored(p: Phase) { p.Stored? }
  predicate IsDropped(p: Phase) { p.Dropped? }
  predicate IsNoLine(p: Phase) { p.NoLine? }
  predicate IsOpen(p: Phase) { p.Begun? || p.Checked? || p.Ready? || p.Waiting? }

  lemma {:induction false} CountUpdate(ps: seq<Phase>, i: nat, p: Phase, f: Phase -> bool)
    requires i < |ps|
    ensures Count(ps[i := p], f) == Count(ps, f) - (if f(ps[i]) then 1 else 0) + if f(p) then 1 else 0
  {
    if i == 0 {
      assert ps[i := p][1..] == ps[1..];
    } else {
      assert ps[i := p][1..] == ps[1..][i - 1 := p];
      CountUpdate(ps[1..], i - 1, p, f);
    }
  }

  lemma {:induction false} CountSnoc(ps: seq<Phase>, p: Phase, f: Phase -> bool)
    ensures Count(ps + [p], f) == Count(ps, f) + if f(p) then 1 else 0
  {
    if ps == [] {
      assert ps + [p] == [p];
    } else {
      assert (ps + [p])[1..] == ps[1..] + [p];
      CountSnoc(ps[1..], p, f);
    }
  }

  lemma {:induction false} EachInOnePhase(ps: seq<Phase>)
    ensures |ps| == Count(ps, IsStored) + Count(ps, IsDropped) + Count(ps, IsNoLine) + Count(ps, IsOpen)
  {
    if ps != [] {
      EachInOnePhase(ps[1..]);
    }
  }

  /** The lines of the stored attempts, in the order of their appends. */
  function Lines(ps: seq<Phase>, order: seq<nat>): seq<char> {
    if order == [] then []
    else
      var i := order[|order| - 1];
      Lines(ps, order[..|order| - 1]) + if i < |ps| && ps[i].Stored? then ps[i].line else []
  }

  lemma {:induction false} LinesStay(ps: seq<Phase>, qs: seq<Phase>, order: seq<nat>)
    requires forall k :: 0 <= k < |order| ==> order[k] < |ps| && order[k] < |qs| && ps[order[k]] == qs[order[k]]
    ensures Lines(ps, order) == Lines(qs, order)
  {
    if order != [] {
      LinesStay(ps, qs, order[..|order| - 1]);
    }
  }

  /** `order` lists the stored attempts, each once, and the accepted bytes are
      their lines. */
  ghost predicate InOrder(ps: seq<Phase>, order: seq<nat>, accepted: seq<char>) {
    && (forall k :: 0 <= k < |order| ==> order[k] < |ps| && ps[order[k]].Stored?)
    && (forall j, k :: 0 <= j < k < |order| ==> order[j] != order[k])
    && |order| == Count(ps, IsStored)
    && accepted == Lines(ps, order)
  }

  ghost predicate LinesFit(ps: seq<Phase>, maxLine: nat) {
    forall i :: 0 <= i < |ps| && (ps[i].Ready? || ps[i].Waiting?) ==> 0 < |ps[i].line| <= maxLine
  }

  ghost predicate Inv(s: System) {
    && LogProtocol.LogInv(s.log)
    && LinesFit(s.ps, s.log.ring.maxLine) && InOrder(s.ps, s.order, s.log.accepted)
    && Count(s.ps, IsDropped) == s.log.reported + s.log.ring.dropped
  }

  /** The step of the log that a step of an attempt makes, if it makes one. */
  function LogStep(s: System, e: Event): Option<LogProtocol.Event>
    requires Enabled(s, e)
  {
    match e
    case Begin => None
    case NeedDrop(_) => Some(LogProtocol.CheckDrop)
    case Format(_, _) => None
    case TryAppend(i) => Some(LogProtocol.Offer(s.ps[i].line))
    case Worker(e) => Some(e)
  }

  /** Attempts and worker together make the steps of the log, and no others. */
  lemma StepIsLogStep(s: System, e: Event)
    requires Inv(s) && Enabled(s, e)
    ensures LogStep(s, e).None? ==> Next(s, e).log == s.log
    ensures LogStep(s, e).Some? ==>
              LogProtocol.Enabled(s.log, LogStep(s, e).value) &&
                  Next(s, e).log == LogProtocol.Next(s.log, LogStep(s, e).value)
  {
  }

  lemma PhaseStep(ps: seq<Phase>, order: seq<nat>, accepted: seq<char>, i: nat, p: Phase)
    requires InOrder(ps, order, accepted) && i < |ps| && IsOpen(ps[i]) && !p.Stored?
    ensures InOrder(ps[i := p], order, accepted)
    ensures Count(ps[i := p], IsDropped) == Count(ps, IsDropped) + if p.Dropped? then 1 else 0
  {
    LinesStay(ps, ps[i := p], order);
    CountUpdate(ps, i, p, IsStored);
    CountUpdate(ps, i, p, IsDropped);
  }

  lemma StoreStep(ps: seq<Phase>, order: seq<nat>, accepted: seq<char>, i: nat, line: seq<char>)
    requires InOrder(ps, order, accepted) && i < |ps| && IsOpen(ps[i])
    ensures InOrder(ps[i := Stored(line)], order + [i], accepted + line)
    ensures Count(ps[i := Stored(line)], IsDropped) == Count(ps, IsDropped)
  {
    LinesStay(ps, ps[i := Stored(line)], order);
    assert (order + [i])[..|order|] == order;
    CountUpdate(ps, i, Stored(line), IsStored);
    CountUpdate(ps, i, Stored(line), IsDropped);
  }

  lemma BeginStep(ps: seq<Phase>, order: seq<nat>, accepted: seq<char>)
    requires InOrder(ps, order, accepted)
    ensures InOrder(ps + [Begun], order, accepted) && Count(ps + [Begun], IsDropped) == Count(ps, IsDropped)
  {
    LinesStay(ps, ps + [Begun], order);
    CountSnoc(ps, Begun, IsStored);
    CountSnoc(ps, Begun, IsDropped);
  }

  /** What the worker does leaves the accepted bytes and the sum of the drops. */
  lemma WorkerStep(s: LogProtocol.Log, e: LogProtocol.Event)
    requires LogProtocol.LogInv(s) && LogProtocol.Enabled(s, e) && (e.Snapshot? || e.Write? || e.FreeSpace?)
    ensures var s' := LogProtocol.Next(s, e);
            s'.accepted == s.accepted && s'.ring.maxLine == s.ring.maxLine
            && s'.reported + s'.ring.dropped == s.reported + s.ring.dropped
  {
  }

  lemma LogKeepsInv(s: System, e: Event)
    requires Inv(s) && Enabled(s, e)
    ensures LogProtocol.LogInv(Next(s, e).log)
  {
    StepIsLogStep(s, e);
    if LogStep(s, e).Some? {
      LogProtocol.StepKeepsInv(s.log, LogStep(s, e).value);
    }
  }

  /** A change of phase that stores nothing, and counts a drop if it is one. */
  lemma PhaseKeepsInv(s: System, i: nat, p: Phase, log: LogProtocol.Log)
    requires Inv(s) && i < |s.ps| && IsOpen(s.ps[i]) && !p.Stored? && LogProtocol.LogInv(log)
    requires p.Ready? || p.Waiting? ==> 0 < |p.line| <= s.log.ring.maxLine
    requires log == if p.Dropped? then s.log.(ring := Drop(s.log.ring)) else s.log
    ensures Inv(System(log, s.ps[i := p], s.order))
  {
    PhaseStep(s.ps, s.order, s.log.accepted, i, p);
  }

  lemma StoreKeepsInv(s: System, i: nat)
    requires Inv(s) && Enabled(s, TryAppend(i)) && HasRoom(s.log.ring)
    ensures Inv(Next(s, TryAppend(i)))
  {
    LogKeepsInv(s, TryAppend(i));
    StoreStep(s.ps, s.order, s.log.accepted, i, s.ps[i].line);
  }

  lemma BeginKeepsInv(s: System)
    requires Inv(s)
    ensures Inv(Next(s, Begin))
  {
    BeginStep(s.ps, s.order, s.log.accepted);
  }

  lemma WorkerKeepsInv(s: System, e: LogProtocol.Event)
    requires Inv(s) && Enabled(s, Worker(e))
    ensures Inv(Next(s, Worker(e)))
  {
    LogKeepsInv(s, Worker(e));
    WorkerStep(s.log, e);
  }

  lemma StepKeepsInv(s: System, e: Event)
    requires Inv(s) && Enabled(s, e)
    ensures Inv(Next(s, e))
  {
    if e.Begin? {
      BeginKeepsInv(s);
    } else if e.Worker? {
      WorkerKeepsInv(s, e.e);
    } else if e.TryAppend? && HasRoom(s.log.ring) {
      StoreKeepsInv(s, e.i);
    } else {
      var s' := Next(s, e);
      LogKeepsInv(s, e);
      PhaseKeepsInv(s, e.i, s'.ps[e.i], s'.log);
    }
  }

  // ---- runs ----------------------------------------------------------------

  ghost predicate Possible(s: System, es: seq<Event>)
    requires Inv(s)
    decreases |es|
  {
    es != [] ==> Enabled(s, es[0]) && (StepKeepsInv(s, es[0]); Possible(Next(s, es[0]), es[1..]))
  }

  ghost function After(s: System, es: seq<Event>): (s': System)
    requires Inv(s) && Possible(s, es)
    ensures Inv(s')
    decreases |es|
  {
    if es == [] then s else StepKeepsInv(s, es[0]); After(Next(s, es[0]), es[1..])
  }

  /** Every line formatted is shorter than m. */
  ghost predicate ShortFormats(es: seq<Event>, m: nat) {
    forall i :: 0 <= i < |es| && es[i].Format? ==> |es[i].line| < m
  }

  ghost predicate ShortSoFar(ps: seq<Phase>, m: nat) {
    forall i :: 0 <= i < |ps| && (ps[i].Ready? || ps[i].Waiting?) ==> |ps[i].line| < m
  }

  lemma ShortStep(s: System, e: Event, m: nat)
    requires Inv(s) && Enabled(s, e) && ShortSoFar(s.ps, m) && (e.Format? ==> |e.line| < m)
    ensures ShortSoFar(Next(s, e).ps, m)
    ensures LogStep(s, e).Some? && LogStep(s, e).value.Offer? ==> |LogStep(s, e).value.line| < m
  {
  }

  lemma ShortRest(es: seq<Event>, m: nat)
    requires es != [] && ShortFormats(es, m)
    ensures ShortFormats(es[1..], m) && (es[0].Format? ==> |es[0].line| < m)
  {
  }

  lemma ShortPrepend(e: LogProtocol.Event, ls: seq<LogProtocol.Event>, m: nat)
    requires LogProtocol.ShortLines(ls, m) && (e.Offer? ==> |e.line| < m)
    ensures LogProtocol.ShortLines([e] + ls, m)
  {
  }

  /** A run of attempts is a run of the log, and of one with short lines if its
      own are short, so what holds of those holds here. */
  lemma {:induction false} RunIsLogRun(s: System, es: seq<Event>, m: nat) returns (ls: seq<LogProtocol.Event>)
    requires Inv(s) && Possible(s, es)
    ensures LogProtocol.Possible(s.log, ls) && LogProtocol.After(s.log, ls) == After(s, es).log
    ensures ShortSoFar(s.ps, m) && ShortFormats(es, m) ==> LogProtocol.ShortLines(ls, m)
    decreases |es|
  {
    ls := [];
    if es != [] {
      var e := es[0];
      StepKeepsInv(s, e);
      StepIsLogStep(s, e);
      ls := RunIsLogRun(Next(s, e), es[1..], m);
      if ShortSoFar(s.ps, m) && ShortFormats(es, m) {
        ShortRest(es, m);
        ShortStep(s, e, m);
      }
      if LogStep(s, e).Some? {
        var le := LogStep(s, e).value;
        LogProtocol.StepKeepsInv(s.log, le);
        if ShortSoFar(s.ps, m) && ShortFormats(es, m) {
          ShortPrepend(le, ls, m);
        }
        ls := LogProtocol.Prepend(s.log, le, ls);
      }
    }
  }

  /** In every interleaving of attempts with lines shorter than max_line_size:
      what was delivered, what is being written and what is still in the ring
      are together the lines of the stored attempts, in the order of their
      appends. */
  lemma ShortAttemptsAreFifo(buff: seq<char>, maxLine: nat, block: bool, es: seq<Event>)
    requires 0 < maxLine <= |buff| && ShortFormats(es, maxLine)
    requires Possible(Init(buff, maxLine, block), es)
    ensures var s := After(Init(buff, maxLine, block), es);
            && s.log.lost == 0
            && Lines(s.ps, s.order) == s.log.delivered + LogProtocol.InFlight(s.log) + LogProtocol.Rest(s.log)
  {
    var ls := RunIsLogRun(Init(buff, maxLine, block), es, maxLine);
    LogProtocol.RingIsFifo(buff, maxLine, block, ls);
  }

  predicate HasLine(p: Phase) {
    p.Ready? || p.Waiting? || p.Stored?
  }

  /** The line of an attempt, once it has one, is the one that was formatted. */
  ghost predicate Given(es: seq<Event>, i: nat, p: Phase) {
    && (HasLine(p) ==> exists k :: 0 <= k < |es| && es[k] == Format(i, p.line))
    && (p.NoLine? ==> exists k :: 0 <= k < |es| && es[k] == Format(i, []))
  }

  lemma {:induction false} GivenLater(es: seq<Event>, i: nat, p: Phase)
    requires es != [] && Given(es[1..], i, p)
    ensures Given(es, i, p)
  {
    if HasLine(p) {
      var k :| 0 <= k < |es[1..]| && es[1..][k] == Format(i, p.line);
      assert es[k + 1] == Format(i, p.line);
    }
    if p.NoLine? {
      var k :| 0 <= k < |es[1..]| && es[1..][k] == Format(i, []);
      assert es[k + 1] == Format(i, []);
    }
  }

  /** A step changes the line of an attempt only by giving it one. */
  lemma {:induction false} StepKeepsLine(s: System, e: Event, i: nat)
    requires Inv(s) && Enabled(s, e) && i < |Next(s, e).ps|
    ensures var p := Next(s, e).ps[i];
            && (HasLine(p) ==> e == Format(i, p.line) || (i < |s.ps| && HasLine(s.ps[i]) && s.ps[i].line == p.line))
            && (p.NoLine? ==> e == Format(i, []) || (i < |s.ps| && s.ps[i].NoLine?))
  {
  }

  lemma {:induction false} RunKeepsLine(s: System, es: seq<Event>, i: nat)
    requires Inv(s) && Possible(s, es) && i < |After(s, es).ps|
    ensures var p := After(s, es).ps[i];
            || Given(es, i, p)
            || (i < |s.ps| && HasLine(p) && HasLine(s.ps[i]) && s.ps[i].line == p.line)
            || (i < |s.ps| && p.NoLine? && s.ps[i].NoLine?)
    decreases |es|
  {
    if es != [] {
      var p := After(s, es).ps[i];
      StepKeepsInv(s, es[0]);
      RunKeepsLine(Next(s, es[0]), es[1..], i);
      if Given(es[1..], i, p) {
        GivenLater(es, i, p);
      } else {
        StepKeepsLine(s, es[0], i);
        if es[0].Format? && es[0].i == i && (HasLine(p) || p.NoLine?) {
          assert es[0] == Format(i, es[0].line);
        }
      }
    }
  }

  /** In every run every line, waiting or stored, is exactly what was formatted
      for its attempt. */
  lemma {:induction false} LinesAreFormatted(buff: seq<char>, maxLine: nat, block: bool, es: seq<Event>, i: nat)
    requires 0 < maxLine <= |buff| && Possible(Init(buff, maxLine, block), es)
    requires i < |After(Init(buff, maxLine, block), es).ps|
    ensures Given(es, i, After(Init(buff, maxLine, block), es).ps[i])
  {
    RunKeepsLine(Init(buff, maxLine, block), es, i);
  }

  /** An attempt is dropped or has to wait only if all of the buffer but two lines
      at most is in use. */
  lemma {:induction false} RefusedOnlyWhenFull(s: System, e: Event, i: nat)
    requires Inv(s) && Enabled(s, e) && i < |s.ps| && IsOpen(s.ps[i])
    requires var p := Next(s, e).ps[i]; p.Dropped? || (p.Waiting? && !s.ps[i].Waiting?)
    ensures |Pending(s.log.ring)| > |s.log.ring.buff| - 2 * s.log.ring.maxLine
    ensures Next(s, e).ps[i].Dropped? <==> !s.log.block
  {
    RefusedOnlyWhenWrapped(s.log.ring);
  }

  /** In every interleaving: each attempt that was begun is stored, or dropped,
      or had no line, or is still on its way. The accepted bytes are the lines
      of the stored ones, each whole and once, and the dropped ones are as many
      as the worker has taken over and the counter says. With blocking none is
      dropped. */
  lemma EveryAttemptCountsOnce(buff: seq<char>, maxLine: nat, block: bool, es: seq<Event>)
    requires 0 < maxLine <= |buff|
    requires Possible(Init(buff, maxLine, block), es)
    ensures var s := After(Init(buff, maxLine, block), es);
            && |s.ps| == |s.order| + Count(s.ps, IsDropped) + Count(s.ps, IsNoLine) + Count(s.ps, IsOpen)
            && (forall k :: 0 <= k < |s.order| ==> s.order[k] < |s.ps| && s.ps[s.order[k]].Stored?)
            && (forall j, k :: 0 <= j < k < |s.order| ==> s.order[j] != s.order[k])
            && s.log.accepted == Lines(s.ps, s.order)
            && Count(s.ps, IsDropped) == s.log.reported + s.log.ring.dropped
            && (s.log.block ==> Count(s.ps, IsDropped) == 0)
  {
    EachInOnePhase(After(Init(buff, maxLine, block), es).ps);
  }

  lemma DecidedStep(s: System, e: Event, i: nat)
    requires Inv(s) && Enabled(s, e) && i < |s.ps| && !IsOpen(s.ps[i])
    ensures i < |Next(s, e).ps| && Next(s, e).ps[i] == s.ps[i]
  {
  }

  /** An attempt that is decided stays so. */
  lemma {:induction false} DecidedForGood(s: System, es: seq<Event>, i: nat)
    requires Inv(s) && Possible(s, es) && i < |s.ps| && !IsOpen(s.ps[i])
    ensures i < |After(s, es).ps| && After(s, es).ps[i] == s.ps[i]
    decreases |es|
  {
    if es != [] {
      StepKeepsInv(s, es[0]);
      DecidedStep(s, es[0], i);
      DecidedForGood(Next(s, es[0]), es[1..], i);
    }
  }
}
