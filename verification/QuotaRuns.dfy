/**
 Whole runs of the memory quota: for which requests nobody is ever left asleep,
 and that every run ends.
 */
module QuotaRuns {
  import opened MemQuota

  lemma {:induction false} RunOneMore(s: System, es: seq<Event>, e: Event)
    requires Possible(s, es) && Enabled(After(s, es), e)
    ensures Possible(s, es + [e]) && After(s, es + [e]) == Next(After(s, es), e)
    decreases |es|
  {
    var all := es + [e];
    if es == [] {
      assert all[1..] == [];
    } else {
      assert all[1..] == es[1..] + [e];
      RunOneMore(Next(s, es[0]), es[1..], e);
    }
  }

  // ---- for which requests nobody is left asleep ----------------------------

  /** Whoever sleeps has another thread that is going to rouse it. */
  ghost predicate Served(s: System) {
    SomeSleeper(s) ==> SomeRouser(s)
  }

  /** No request is over m, and malloc fails only if it may. */
  ghost predicate Allowed(es: seq<Event>, m: nat, mayFail: bool) {
    forall i :: 0 <= i < |es| ==> (es[i].Call? ==> es[i].size <= m) && (es[i].MallocNull? ==> mayFail)
  }

  /** A run from the start in which every request is for m bytes. */
  ghost predicate AskForM(total: nat, es: seq<Event>, m: nat) {
    Possible(Init(total), es) && forall i :: 0 <= i < |es| && es[i].Call? ==> es[i].size == m
  }

  lemma OneMore(total: nat, es: seq<Event>, m: nat, e: Event) returns (fs: seq<Event>)
    requires AskForM(total, es, m) && Enabled(After(Init(total), es), e) && (e.Call? ==> e.size == m)
    ensures fs == es + [e] && AskForM(total, fs, m)
    ensures After(Init(total), fs) == Next(After(Init(total), es), e)
  {
    RunOneMore(Init(total), es, e);
    fs := es + [e];
  }

  /** One more thread comes and asks. */
  lemma OneMoreAsks(total: nat, es: seq<Event>, m: nat) returns (fs: seq<Event>)
    requires AskForM(total, es, m)
    ensures AskForM(total, fs, m) && (Allowed(es, m, false) ==> Allowed(fs, m, false))
    ensures var s, s' := After(Init(total), es), After(Init(total), fs);
            if m <= s.c.left then s' == System(Grant(s.c, m), s.ts + [Granted(m)])
            else s' == System(s.c.(waiters := s.c.waiters + 1), s.ts + [Sleeping(m)])
  {
    var ts := After(Init(total), es).ts;
    var n := |ts|;
    fs := OneMore(total, es, m, Start);
    fs := OneMore(total, fs, m, Call(n, m));
    assert (ts + [Outside])[n := Asking(m, false)] == ts + [Asking(m, false)];
    fs := OneMore(total, fs, m, Ask(n));
    assert (ts + [Asking(m, false)])[n := Granted(m)] == ts + [Granted(m)];
    assert (ts + [Asking(m, false)])[n := Sleeping(m)] == ts + [Sleeping(m)];
  }

  ghost predicate AllGranted(ts: seq<Thread>, m: nat) {
    forall i :: 0 <= i < |ts| ==> ts[i] == Granted(m)
  }

  /** Threads ask until the next one would have to wait. */
  lemma {:induction false} UseUp(total: nat, es: seq<Event>, m: nat) returns (fs: seq<Event>)
    requires AskForM(total, es, m) && m > 0 && AllGranted(After(Init(total), es).ts, m)
    ensures AskForM(total, fs, m) && AllGranted(After(Init(total), fs).ts, m) && After(Init(total), fs).c.left < m
    decreases After(Init(total), es).c.left
  {
    fs := es;
    if After(Init(total), es).c.left >= m {
      fs := OneMoreAsks(total, es, m);
      fs := UseUp(total, fs, m);
    }
  }

  /** The last thread sleeps, those before number j are outside, and the rest
      have grants. */
  ghost predicate Returned(ts: seq<Thread>, m: nat, j: nat) {
    && |ts| > 0 && j <= |ts| - 1 && ts[|ts| - 1] == Sleeping(m)
    && (forall i :: 0 <= i < j ==> ts[i] == Outside)
    && forall i :: j <= i < |ts| - 1 ==> ts[i] == Granted(m)
  }

  /** Malloc fails for all of them, one after the other. */
  lemma {:induction false} AllFail(total: nat, es: seq<Event>, m: nat, j: nat) returns (fs: seq<Event>)
    requires AskForM(total, es, m) && Returned(After(Init(total), es).ts, m, j)
    ensures AskForM(total, fs, m)
    ensures var ts := After(Init(total), fs).ts; |ts| > 0 && Returned(ts, m, |ts| - 1)
    decreases |After(Init(total), es).ts| - j
  {
    fs := es;
    if j < |After(Init(total), es).ts| - 1 {
      fs := OneMore(total, fs, m, MallocNull(j));
      fs := OneMore(total, fs, m, GiveBack(j));
      fs := AllFail(total, fs, m, j + 1);
    }
  }

  lemma {:induction false} NothingHeld(ts: seq<Thread>)
    requires forall i :: 0 <= i < |ts| ==> ts[i].Outside? || ts[i].Sleeping?
    ensures Sum(ts, Held) == 0
  {
    if ts != [] {
      NothingHeld(ts[1..]);
    }
  }

  /** For every size from 1 to the total: threads take as much quota as they can
      with requests of this size, one more goes to sleep, malloc fails for all
      the others, their grants go back without a signal, and it sleeps with the
      whole quota free and nobody to rouse it. */
  lemma FailedMallocsForgetSleeper(total: nat, m: nat) returns (es: seq<Event>)
    requires 0 < m <= total
    ensures AskForM(total, es, m)
    ensures var s := After(Init(total), es);
            s.c.left == total && SomeSleeper(s) && !SomeRouser(s)
  {
    es := UseUp(total, [], m);
    es := OneMoreAsks(total, es, m);
    es := AllFail(total, es, m, 0);
    var s := After(Init(total), es);
    QuotaIsConserved(total, es);
    NothingHeld(s.ts);
    assert s.ts[|s.ts| - 1].Sleeping?;
  }

  lemma OversizeSleepsAlone(total: nat, m: nat) returns (es: seq<Event>)
    requires m > total
    ensures AskForM(total, es, m) && SomeSleeper(After(Init(total), es)) && !SomeRouser(After(Init(total), es))
    ensures Allowed(es, m, false)
  {
    es := OneMoreAsks(total, [], m);
    assert After(Init(total), es).ts == [Sleeping(m)];
    assert After(Init(total), es).ts[0].Sleeping?;
  }

  /** Requests for nothing are always granted. */
  ghost predicate AskForNothing(s: System) {
    forall t :: 0 <= t < |s.ts| ==> (s.ts[t].Asking? ==> s.ts[t].size == 0) && !s.ts[t].Sleeping?
  }

  lemma {:induction false} NothingAlwaysGranted(s: System, es: seq<Event>)
    requires Possible(s, es) && AskForNothing(s) && forall i :: 0 <= i < |es| && es[i].Call? ==> es[i].size == 0
    requires forall t :: 0 <= t < |s.ts| ==> !s.ts[t].Woken?
    ensures AskForNothing(After(s, es))
    decreases |es|
  {
    if es != [] {
      NothingAlwaysGranted(Next(s, es[0]), es[1..]);
    }
  }

  lemma AllowedIsServed(total: nat, m: nat, mayFail: bool, es: seq<Event>)
    requires m == 0 || (m <= total && !mayFail)
    requires Possible(Init(total), es) && Allowed(es, m, mayFail)
    ensures Served(After(Init(total), es))
  {
    if m == 0 {
      NothingAlwaysGranted(Init(total), es);
    } else {
      HarmlessIfMallocWorks(Init(total), es);
      NoSleeperIsForgotten(total, es);
    }
  }

  /** Nobody is ever left asleep, in any run with requests of at most m bytes,
      exactly if m is 0, or is within the total and malloc does not fail. */
  lemma QuotaServesIff(total: nat, m: nat, mayFail: bool)
    ensures (forall es :: Possible(Init(total), es) && Allowed(es, m, mayFail) ==> Served(After(Init(total), es)))
            <==> m == 0 || (m <= total && !mayFail)
  {
    if m == 0 || (m <= total && !mayFail) {
      forall es | Possible(Init(total), es) && Allowed(es, m, mayFail)
        ensures Served(After(Init(total), es))
      {
        AllowedIsServed(total, m, mayFail, es);
      }
    } else {
      var es;
      if m > total {
        es := OversizeSleepsAlone(total, m);
      } else {
        es := FailedMallocsForgetSleeper(total, m);
      }
      assert Allowed(es, m, mayFail) && !Served(After(Init(total), es));
    }
  }

  // ---- every run ends ------------------------------------------------------

  /** How many more steps a thread can bring about, among at most n threads: its
      own, and those of the sleepers its signal may wake. */
  function Weight(t: Thread, n: nat): nat {
    match t
    case Outside => 0
    case Failed(_) => 1
    case Freed(_) => 2 * n + 1
    case Holding(_) => 2 * n + 2
    case Granted(_) => 2 * n + 3
    case Sleeping(_) => 2 * n + 3
    case Asking(_, _) => 2 * n + 4
    case Woken(_) => 2 * n + 5
  }

  function WeightAmong(n: nat): Thread -> nat {
    (t: Thread) => Weight(t, n)
  }

  function Weights(ts: seq<Thread>, n: nat): nat {
    Sum(ts, WeightAmong(n))
  }

  /** Waking any number of sleepers adds at most 2 for each thread. */
  lemma {:induction false} WakingAdds(ts: seq<Thread>, us: seq<Thread>, n: nat)
    requires |ts| == |us| && forall i :: 0 <= i < |ts| ==> us[i] == ts[i] || (ts[i].Sleeping? && us[i].Woken?)
    ensures Weights(us, n) <= Weights(ts, n) + 2 * |ts|
  {
    if ts != [] {
      WakingAdds(ts[1..], us[1..], n);
    }
  }

  /** What a step costs from outside: threads and calls come from there, and so
      do wake-ups without a signal. */
  function Cost(e: Event, n: nat): nat {
    match e
    case Start => 1
    case Call(_, _) => 2 * n + 5
    case WakeUp(_) => 3
    case _ => 0
  }

  function Costs(es: seq<Event>, n: nat): nat {
    if es == [] then 0 else Cost(es[0], n) + Costs(es[1..], n)
  }

  /** Every other step uses up weight. */
  lemma StepUsesWeight(s: System, e: Event, n: nat)
    requires Enabled(s, e) && |s.ts| <= n
    ensures 1 + Weights(Next(s, e).ts, n) <= Weights(s.ts, n) + Cost(e, n)
  {
    var s' := Next(s, e);
    if e.Start? {
      SumAppend(s.ts, Outside, WeightAmong(n));
    } else if e.Signal? {
      SumUpdate(s.ts, e.t, Outside, WeightAmong(n));
      WakingAdds(s.ts[e.t := Outside], s'.ts, n);
    } else {
      SumUpdate(s.ts, e.t, s'.ts[e.t], WeightAmong(n));
      assert s'.ts == s.ts[e.t := s'.ts[e.t]];
    }
  }

  function Starts(es: seq<Event>): nat {
    if es == [] then 0 else (if es[0].Start? then 1 else 0) + Starts(es[1..])
  }

  lemma {:induction false} RunUsesWeight(s: System, es: seq<Event>, n: nat)
    requires Possible(s, es) && |s.ts| + Starts(es) <= n
    ensures |es| <= Weights(s.ts, n) + Costs(es, n)
    decreases |es|
  {
    if es != [] {
      StepUsesWeight(s, es[0], n);
      RunUsesWeight(Next(s, es[0]), es[1..], n);
    }
  }

  /** Nothing can happen any more without a new thread, a new call, or a wake-up
      without a signal. */
  ghost predicate Settled(s: System) {
    forall e :: Enabled(s, e) ==> e.Start? || e.Call? || e.WakeUp?
  }

  ghost predicate AllOutside(s: System) {
    forall t :: 0 <= t < |s.ts| ==> s.ts[t].Outside?
  }

  lemma RunIsBounded(total: nat, es: seq<Event>)
    requires Possible(Init(total), es)
    ensures |es| <= Costs(es, Starts(es))
  {
    RunUsesWeight(Init(total), es, Starts(es));
    assert Weights([], Starts(es)) == 0;
  }

  lemma SettledIff(s: System)
    requires Live(s)
    ensures Settled(s) <==> AllOutside(s)
  {
    if !AllOutside(s) {
      var e := SomeStep(s);
      assert Enabled(s, e);
    }
  }

  lemma QuotaIsBack(s: System)
    requires Conserved(s) && AllOutside(s)
    ensures s.c.left == s.c.total && s.c.waiters == 0
  {
    NothingHeld(s.ts);
    NobodyWaits(s.ts);
  }

  /** In any run with n threads there are at most so many steps for each call
      and each wake-up without a signal; so with finitely many of these it ends.
      It has ended exactly if all threads are outside, and then the whole quota
      is back: every call got its grant and returned it. */
  lemma EveryRunEnds(total: nat, es: seq<Event>)
    requires Possible(Init(total), es) && Allowed(es, total, false)
    ensures |es| <= Costs(es, Starts(es))
    ensures var s := After(Init(total), es);
            && (Settled(s) <==> AllOutside(s))
            && (AllOutside(s) ==> s.c.left == total && s.c.waiters == 0)
  {
    var s := After(Init(total), es);
    RunIsBounded(total, es);
    HarmlessIfMallocWorks(Init(total), es);
    RunKeepsLive(Init(total), es);
    RunConserves(Init(total), es);
    SettledIff(s);
    if AllOutside(s) {
      QuotaIsBack(s);
    }
  }

  lemma {:induction false} NobodyWaits(ts: seq<Thread>)
    requires forall i :: 0 <= i < |ts| ==> ts[i].Outside?
    ensures Sum(ts, Waits) == 0
  {
    if ts != [] {
      NobodyWaits(ts[1..]);
    }
  }

  lemma SomeStep(s: System) returns (e: Event)
    requires Live(s) && !AllOutside(s)
    ensures Enabled(s, e) && !e.Start? && !e.Call? && !e.WakeUp?
  {
    var t :| 0 <= t < |s.ts| && !s.ts[t].Outside?;
    if s.ts[t].Sleeping? {
      t :| 0 <= t < |s.ts| && Rouses(s.ts[t]);
    }
    e := AwakeCanStep(s, t);
  }

  // ---- every call is answered ----------------------------------------------

  /** The thread has called and has not been answered. */
  function Unanswered(t: Thread): nat {
    if t.Asking? || t.Granted? || t.Sleeping? || t.Woken? then 1 else 0
  }

  /** The thread has memory it has not given back. */
  function HasMemory(t: Thread): nat {
    if t.Holding? then 1 else 0
  }

  /** Calls made, memory had, NULLs, and memory given back, in a run. */
  function CountCalls(es: seq<Event>): nat {
    if es == [] then 0 else (if es[0].Call? then 1 else 0) + CountCalls(es[1..])
  }

  function CountMemory(es: seq<Event>): nat {
    if es == [] then 0 else (if es[0].MallocOk? then 1 else 0) + CountMemory(es[1..])
  }

  function CountNulls(es: seq<Event>): nat {
    if es == [] then 0 else (if es[0].MallocNull? then 1 else 0) + CountNulls(es[1..])
  }

  function CountFrees(es: seq<Event>): nat {
    if es == [] then 0 else (if es[0].Free? then 1 else 0) + CountFrees(es[1..])
  }

  lemma {:induction false} ThreadsAfter(s: System, e: Event, f: Thread -> nat)
    requires Enabled(s, e) && f(Outside) == 0
    requires forall size :: f(Woken(size)) == f(Sleeping(size))
    ensures e.Start? ==> Sum(Next(s, e).ts, f) == Sum(s.ts, f)
    ensures e.Signal? ==> Sum(Next(s, e).ts, f) == Sum(s.ts, f) - f(s.ts[e.t])
    ensures !e.Start? && !e.Signal? ==> Sum(Next(s, e).ts, f) == Sum(s.ts, f) - f(s.ts[e.t]) + f(Next(s, e).ts[e.t])
  {
    var ts := Next(s, e).ts;
    if e.Start? {
      SumAppend(s.ts, Outside, f);
    } else if e.Signal? {
      SumUpdate(s.ts, e.t, Outside, f);
      SumSame(ts, s.ts[e.t := Outside], f);
    } else {
      SumUpdate(s.ts, e.t, ts[e.t], f);
      assert ts == s.ts[e.t := ts[e.t]];
    }
  }

  lemma {:induction false} RunAnswers(s: System, es: seq<Event>)
    requires Possible(s, es)
    ensures Sum(s.ts, Unanswered) + CountCalls(es) ==
            CountMemory(es) + CountNulls(es) + Sum(After(s, es).ts, Unanswered)
    ensures Sum(s.ts, HasMemory) + CountMemory(es) == CountFrees(es) + Sum(After(s, es).ts, HasMemory)
    decreases |es|
  {
    if es != [] {
      ThreadsAfter(s, es[0], Unanswered);
      ThreadsAfter(s, es[0], HasMemory);
      RunAnswers(Next(s, es[0]), es[1..]);
    }
  }

  lemma {:induction false} NobodyCounts(ts: seq<Thread>, f: Thread -> nat)
    requires f(Outside) == 0 && forall i :: 0 <= i < |ts| ==> ts[i].Outside?
    ensures Sum(ts, f) == 0
  {
    if ts != [] {
      NobodyCounts(ts[1..], f);
    }
  }

  /** In every run each call is answered with memory or NULL or still on its way,
      and memory is given back or still held. When all threads are outside, all
      calls have been answered and all memory is back. */
  lemma {:induction false} EveryCallIsAnswered(total: nat, es: seq<Event>)
    requires Possible(Init(total), es)
    ensures var ts := After(Init(total), es).ts;
            && CountCalls(es) == CountMemory(es) + CountNulls(es) + Sum(ts, Unanswered)
            && CountMemory(es) == CountFrees(es) + Sum(ts, HasMemory)
            && (AllOutside(After(Init(total), es)) ==>
                  CountCalls(es) == CountMemory(es) + CountNulls(es) && CountMemory(es) == CountFrees(es))
  {
    var s := After(Init(total), es);
    RunAnswers(Init(total), es);
    if AllOutside(s) {
      NobodyCounts(s.ts, Unanswered);
      NobodyCounts(s.ts, HasMemory);
    }
  }
}
