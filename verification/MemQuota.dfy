/**
 The memory quota (src/mem_quota.c): the critical sections on the shared
 counters, and any number of threads interleaving them.
 */
module MemQuota {

  /** The counters under quota_mutex. */
  datatype Counters = Counters(total: nat, left: nat, waiters: nat)

  function Grant(c: Counters, size: nat): Counters
    requires size <= c.left
  {
    c.(left := c.left - size)
  }

  function Return(c: Counters, size: nat): Counters {
    c.(left := c.left + size)
  }

  class Quota {
    var total: nat
    var left: nat
    var waiters: nat

    ghost function View(): Counters
      reads this
    {
      Counters(total, left, waiters)
    }

    /** quota_mem_init */
    constructor (size: nat)
      ensures View() == Counters(size, size, 0)
    {
      total, left, waiters := size, size, 0;
    }

    /** quota_mem_alloc from the lock to the grant, or to the wait. */
    method Ask(size: nat) returns (granted: bool)
      modifies this`left, this`waiters
      ensures granted <==> size <= old(left)
      ensures View() == if granted then Grant(old(View()), size)
                        else old(View()).(waiters := old(waiters) + 1)
    {
      if size <= left {
        left := left - size;
        granted := true;
      } else {
        waiters := waiters + 1;
        granted := false;
      }
    }

    /** quota_mem_alloc when pthread_cond_wait has returned. */
    method StopWaiting()
      requires waiters > 0
      modifies this`waiters
      ensures View() == old(View()).(waiters := old(waiters) - 1)
    {
      waiters := waiters - 1;
    }

    /** quota_mem_alloc when malloc returned NULL: nobody is signalled. */
    method GiveBack(size: nat)
      modifies this`left
      ensures View() == Return(old(View()), size)
    {
      left := left + size;
    }

    /** quota_mem_free up to the unlock. */
    method Free(size: nat) returns (notify: bool)
      modifies this`left
      ensures View() == Return(old(View()), size)
      ensures notify <==> waiters > 0
    {
      left := left + size;
      notify := waiters > 0;
    }
  }

  // ---- threads -------------------------------------------------------------

  /** Where a thread is. `Asking` is about to take the lock (`again` after a
      wait), `Granted` is between the grant and malloc's result, `Failed` has a
      NULL from malloc and is about to give its grant back, `Sleeping` is in
      pthread_cond_wait, `Woken` has been signalled or woke by itself and has
      not yet the lock, and `Freed` has returned its quota and is about to
      signal or not. */
  datatype Thread =
    | Outside
    | Asking(size: nat, again: bool)
    | Granted(size: nat)
    | Failed(size: nat)
    | Holding(size: nat)
    | Sleeping(size: nat)
    | Woken(size: nat)
    | Freed(notify: bool)

  datatype System = System(c: Counters, ts: seq<Thread>)

  /** A signal wakes at least one sleeper if there is one; `woken` says which
      of them wake. */
  datatype Event =
    | Start
    | Call(t: nat, size: nat)
    | Ask(t: nat)
    | MallocOk(t: nat)
    | MallocNull(t: nat)
    | GiveBack(t: nat)
    | WakeUp(t: nat)
    | StopWaiting(t: nat)
    | Free(t: nat)
    | Signal(t: nat, woken: set<nat>)

  function Init(total: nat): System {
    System(Counters(total, total, 0), [])
  }

  predicate IsSleeping(s: System, t: nat) {
    t < |s.ts| && s.ts[t].Sleeping?
  }

  predicate SomeSleeper(s: System) {
    exists t :: 0 <= t < |s.ts| && s.ts[t].Sleeping?
  }

  predicate Enabled(s: System, e: Event) {
    match e
    case Start => true
    case Call(t, _) => t < |s.ts| && s.ts[t].Outside?
    case Ask(t) => t < |s.ts| && s.ts[t].Asking?
    case MallocOk(t) => t < |s.ts| && s.ts[t].Granted?
    case MallocNull(t) => t < |s.ts| && s.ts[t].Granted?
    case GiveBack(t) => t < |s.ts| && s.ts[t].Failed?
    case WakeUp(t) => IsSleeping(s, t)
    case StopWaiting(t) => t < |s.ts| && s.ts[t].Woken? && s.c.waiters > 0
    case Free(t) => t < |s.ts| && s.ts[t].Holding?
    case Signal(t, woken) =>
      && t < |s.ts| && s.ts[t].Freed?
      && (forall w :: w in woken ==> IsSleeping(s, w))
      && (s.ts[t].notify && SomeSleeper(s) ==> woken != {})
      && (!s.ts[t].notify ==> woken == {})
  }

  function Wake(ts: seq<Thread>, woken: set<nat>): (ts': seq<Thread>)
    ensures |ts'| == |ts|
    ensures forall i :: 0 <= i < |ts| ==>
              ts'[i] == if i in woken && ts[i].Sleeping? then Woken(ts[i].size) else ts[i]
  {
    seq(|ts|, i requires 0 <= i < |ts| => if i in woken && ts[i].Sleeping? then Woken(ts[i].size) else ts[i])
  }

  function Next(s: System, e: Event): System
    requires Enabled(s, e)
  {
    match e
    case Start => s.(ts := s.ts + [Outside])
    case Call(t, size) => s.(ts := s.ts[t := Asking(size, false)])
    case Ask(t) =>
      var size := s.ts[t].size;
      if size <= s.c.left then System(Grant(s.c, size), s.ts[t := Granted(size)])
      else System(s.c.(waiters := s.c.waiters + 1), s.ts[t := Sleeping(size)])
    case MallocOk(t) => s.(ts := s.ts[t := Holding(s.ts[t].size)])
    case MallocNull(t) => s.(ts := s.ts[t := Failed(s.ts[t].size)])
    case GiveBack(t) => System(Return(s.c, s.ts[t].size), s.ts[t := Outside])
    case WakeUp(t) => s.(ts := s.ts[t := Woken(s.ts[t].size)])
    case StopWaiting(t) => System(s.c.(waiters := s.c.waiters - 1), s.ts[t := Asking(s.ts[t].size, true)])
    case Free(t) => System(Return(s.c, s.ts[t].size), s.ts[t := Freed(s.c.waiters > 0)])
    case Signal(t, woken) => s.(ts := Wake(s.ts[t := Outside], woken))
  }

  // ---- conservation --------------------------------------------------------

  function Held(t: Thread): nat {
    if t.Granted? || t.Failed? || t.Holding? then t.size else 0
  }

  function Waits(t: Thread): nat {
    if t.Sleeping? || t.Woken? then 1 else 0
  }

  function Sum(ts: seq<Thread>, f: Thread -> nat): nat {
    if ts == [] then 0 else f(ts[0]) + Sum(ts[1..], f)
  }

  lemma {:induction false} SumUpdate(ts: seq<Thread>, i: nat, t: Thread, f: Thread -> nat)
    requires i < |ts|
    ensures Sum(ts[i := t], f) == Sum(ts, f) - f(ts[i]) + f(t)
  {
    if i == 0 {
      assert ts[i := t][1..] == ts[1..];
    } else {
      assert ts[i := t][1..] == ts[1..][i - 1 := t];
      SumUpdate(ts[1..], i - 1, t, f);
    }
  }

  lemma {:induction false} SumAppend(ts: seq<Thread>, t: Thread, f: Thread -> nat)
    ensures Sum(ts + [t], f) == Sum(ts, f) + f(t)
  {
    if ts == [] {
      assert ts + [t] == [t];
    } else {
      assert (ts + [t])[1..] == ts[1..] + [t];
      SumAppend(ts[1..], t, f);
    }
  }

  lemma {:induction false} SumSame(ts: seq<Thread>, us: seq<Thread>, f: Thread -> nat)
    requires |ts| == |us| && forall i :: 0 <= i < |ts| ==> f(ts[i]) == f(us[i])
    ensures Sum(ts, f) == Sum(us, f)
  {
    if ts != [] {
      SumSame(ts[1..], us[1..], f);
    }
  }

  lemma {:induction false} SumAtLeast(ts: seq<Thread>, i: nat, f: Thread -> nat)
    requires i < |ts|
    ensures Sum(ts, f) >= f(ts[i])
  {
    if i > 0 {
      SumAtLeast(ts[1..], i - 1, f);
    }
  }

  lemma {:induction false} SumPositive(ts: seq<Thread>, f: Thread -> nat) returns (i: nat)
    requires Sum(ts, f) > 0
    ensures i < |ts| && f(ts[i]) > 0
  {
    if f(ts[0]) > 0 {
      i := 0;
    } else {
      i := SumPositive(ts[1..], f);
      i := i + 1;
    }
  }

  /** All quota is left or granted, and quota_waiters counts exactly the
      threads that have gone to wait and not come back. */
  ghost predicate Conserved(s: System) {
    && s.c.left + Sum(s.ts, Held) == s.c.total
    && s.c.waiters == Sum(s.ts, Waits)
  }

  lemma ThreadStepConserves(s: System, e: Event)
    requires Conserved(s) && Enabled(s, e) && !e.Start? && !e.Signal?
    ensures Conserved(Next(s, e))
  {
    var ts := Next(s, e).ts;
    SumUpdate(s.ts, e.t, ts[e.t], Held);
    SumUpdate(s.ts, e.t, ts[e.t], Waits);
    assert ts == s.ts[e.t := ts[e.t]];
  }

  lemma SignalConserves(s: System, t: nat, woken: set<nat>)
    requires Conserved(s) && Enabled(s, Signal(t, woken))
    ensures Conserved(Next(s, Signal(t, woken)))
  {
    var ts := s.ts[t := Outside];
    SumUpdate(s.ts, t, Outside, Held);
    SumUpdate(s.ts, t, Outside, Waits);
    SumSame(Wake(ts, woken), ts, Held);
    SumSame(Wake(ts, woken), ts, Waits);
  }

  lemma StepConserves(s: System, e: Event)
    requires Conserved(s) && Enabled(s, e)
    ensures Conserved(Next(s, e)) && Next(s, e).c.total == s.c.total
    ensures Next(s, e).c.left <= s.c.total
  {
    if e.Start? {
      SumAppend(s.ts, Outside, Held);
      SumAppend(s.ts, Outside, Waits);
    } else if e.Signal? {
      SignalConserves(s, e.t, e.woken);
    } else {
      ThreadStepConserves(s, e);
    }
  }

  /** The decrement after a wait never wraps. */
  lemma WokenIsCounted(s: System, t: nat)
    requires Conserved(s) && t < |s.ts| && s.ts[t].Woken?
    ensures Enabled(s, StopWaiting(t))
  {
    SumAtLeast(s.ts, t, Waits);
  }

  // ---- no sleeper is forgotten ---------------------------------------------

  /** The thread has a grant out, is about to signal, or has woken and will ask
      again. */
  predicate Rouses(t: Thread) {
    t.Granted? || t.Failed? || t.Holding? || t.Woken? || (t.Freed? && t.notify) || (t.Asking? && t.again)
  }

  ghost predicate SomeRouser(s: System) {
    exists t :: 0 <= t < |s.ts| && Rouses(s.ts[t])
  }

  /** Nobody has asked for more than there is. */
  predicate Modest(s: System) {
    forall t :: 0 <= t < |s.ts| && (s.ts[t].Asking? || s.ts[t].Sleeping? || s.ts[t].Woken?) ==>
        s.ts[t].size <= s.c.total
  }

  ghost predicate Live(s: System) {
    Conserved(s) && Modest(s) && (SomeSleeper(s) ==> SomeRouser(s))
  }

  /** What has to hold before a step: a request fits into the quota, and a
      failed malloc gives its grant back, which signals nobody, only when nobody
      sleeps or another thread is there to rouse the sleeper. */
  ghost predicate Harmless(s: System, e: Event) {
    && (e.Call? ==> e.size <= s.c.total)
    && (e.GiveBack? && SomeSleeper(s) ==> exists h :: 0 <= h < |s.ts| && h != e.t && Rouses(s.ts[h]))
  }

  lemma SleeperIsCounted(s: System)
    requires Conserved(s) && SomeSleeper(s)
    ensures s.c.waiters > 0
  {
    var t :| 0 <= t < |s.ts| && s.ts[t].Sleeping?;
    SumAtLeast(s.ts, t, Waits);
  }

  /** A request that fits but is not granted meets a grant that is out. */
  lemma RefusedMeetsGrant(s: System, t: nat) returns (h: nat)
    requires Conserved(s) && Modest(s) && t < |s.ts| && s.ts[t].Asking? && s.ts[t].size > s.c.left
    ensures h < |s.ts| && h != t && Rouses(s.ts[h]) && !s.ts[h].Asking?
  {
    h := SumPositive(s.ts, Held);
  }

  lemma SignalKeepsLive(s: System, t: nat, woken: set<nat>)
    requires Live(s) && Enabled(s, Signal(t, woken))
    ensures Live(Next(s, Signal(t, woken)))
  {
    var s' := Next(s, Signal(t, woken));
    StepConserves(s, Signal(t, woken));
    if SomeSleeper(s') {
      var z :| 0 <= z < |s'.ts| && s'.ts[z].Sleeping?;
      assert s.ts[z].Sleeping?;
      if s.ts[t].notify {
        var w :| w in woken;
        assert IsSleeping(s, w) && Rouses(s'.ts[w]);
      } else {
        var h :| 0 <= h < |s.ts| && Rouses(s.ts[h]);
        assert s'.ts[h] == s.ts[h];
      }
    }
  }

  lemma StepKeepsLive(s: System, e: Event)
    requires Live(s) && Enabled(s, e) && Harmless(s, e)
    ensures Live(Next(s, e))
  {
    var s' := Next(s, e);
    StepConserves(s, e);
    if e.Signal? {
      SignalKeepsLive(s, e.t, e.woken);
    } else if SomeSleeper(s') {
      if e.Ask? {
        if s.ts[e.t].size > s.c.left {
          var h := RefusedMeetsGrant(s, e.t);
          assert Rouses(s'.ts[h]);
        } else {
          assert Rouses(s'.ts[e.t]);
        }
      } else {
        StepKeepsRouser(s, e);
      }
    }
  }

  lemma StepKeepsRouser(s: System, e: Event)
    requires Live(s) && Enabled(s, e) && Harmless(s, e) && !e.Signal? && !e.Ask?
    requires SomeSleeper(Next(s, e))
    ensures SomeRouser(Next(s, e))
  {
    var s' := Next(s, e);
    var z :| 0 <= z < |s'.ts| && s'.ts[z].Sleeping?;
    assert s.ts[z] == s'.ts[z];
    SleeperIsCounted(s);
    var h :| 0 <= h < |s.ts| && Rouses(s.ts[h]);
    if e.GiveBack? {
      h :| 0 <= h < |s.ts| && h != e.t && Rouses(s.ts[h]);
    }
    if e.Start? || e.t != h {
      assert s'.ts[h] == s.ts[h];
      if !e.Start? && e.WakeUp? {
        assert Rouses(s'.ts[e.t]);
      }
    } else {
      assert Rouses(s'.ts[h]);
    }
  }

  // ---- runs ----------------------------------------------------------------

  ghost predicate Possible(s: System, es: seq<Event>)
    decreases |es|
  {
    es != [] ==> Enabled(s, es[0]) && Possible(Next(s, es[0]), es[1..])
  }

  ghost function After(s: System, es: seq<Event>): System
    requires Possible(s, es)
    decreases |es|
  {
    if es == [] then s else After(Next(s, es[0]), es[1..])
  }

  ghost predicate AllHarmless(s: System, es: seq<Event>)
    requires Possible(s, es)
    decreases |es|
  {
    es != [] ==> Harmless(s, es[0]) && AllHarmless(Next(s, es[0]), es[1..])
  }

  lemma {:induction false} RunConserves(s: System, es: seq<Event>)
    requires Conserved(s) && Possible(s, es)
    ensures Conserved(After(s, es)) && After(s, es).c.total == s.c.total
    decreases |es|
  {
    if es != [] {
      StepConserves(s, es[0]);
      RunConserves(Next(s, es[0]), es[1..]);
    }
  }

  /** With requests that fit, and a malloc that does not fail, every step is
      harmless. */
  lemma {:induction false} HarmlessIfMallocWorks(s: System, es: seq<Event>)
    requires Possible(s, es)
    requires forall t :: 0 <= t < |s.ts| ==> !s.ts[t].Failed?
    requires forall i :: 0 <= i < |es| ==> !es[i].MallocNull? && (es[i].Call? ==> es[i].size <= s.c.total)
    ensures AllHarmless(s, es)
    decreases |es|
  {
    if es != [] {
      var s' := Next(s, es[0]);
      assert forall t :: 0 <= t < |s'.ts| ==> !s'.ts[t].Failed?;
      HarmlessIfMallocWorks(s', es[1..]);
    }
  }

  lemma {:induction false} RunKeepsLive(s: System, es: seq<Event>)
    requires Live(s) && Possible(s, es) && AllHarmless(s, es)
    ensures Live(After(s, es))
    decreases |es|
  {
    if es != [] {
      StepKeepsLive(s, es[0]);
      RunKeepsLive(Next(s, es[0]), es[1..]);
    }
  }

  /** In every interleaving of any number of threads: quota left plus quota
      granted is the total, so quota_left never passes the total, and
      quota_waiters is the number of threads in the wait. */
  lemma QuotaIsConserved(total: nat, es: seq<Event>)
    requires Possible(Init(total), es)
    ensures var s := After(Init(total), es);
            && s.c.left + Sum(s.ts, Held) == total
            && s.c.waiters == Sum(s.ts, Waits)
  {
    RunConserves(Init(total), es);
  }

  /** No deadlock: as long as a thread sleeps, another one has a grant out, is
      about to signal, or has woken and will ask again. When all the others are
      outside, nobody sleeps and the whole quota is back. */
  lemma NoSleeperIsForgotten(total: nat, es: seq<Event>)
    requires Possible(Init(total), es) && AllHarmless(Init(total), es)
    ensures var s := After(Init(total), es);
            && (SomeSleeper(s) ==> SomeRouser(s))
            && ((forall t :: 0 <= t < |s.ts| ==> s.ts[t].Outside? || s.ts[t].Sleeping?) ==>
                  !SomeSleeper(s) && s.c.left == total)
  {
    RunKeepsLive(Init(total), es);
    RunConserves(Init(total), es);
    var s := After(Init(total), es);
    if (forall t :: 0 <= t < |s.ts| ==> s.ts[t].Outside? || s.ts[t].Sleeping?) && s.c.left != total {
      var h := SumPositive(s.ts, Held);
      assert false;
    }
  }

  /** Whoever is neither outside nor asleep has a step of its own to take. */
  lemma AwakeCanStep(s: System, t: nat) returns (e: Event)
    requires Conserved(s) && t < |s.ts| && !s.ts[t].Outside? && !s.ts[t].Sleeping?
    ensures !e.Start? && !e.Call? && !e.WakeUp? && e.t == t && Enabled(s, e)
  {
    match s.ts[t]
    case Granted(_) => e := MallocOk(t);
    case Failed(_) => e := GiveBack(t);
    case Holding(_) => e := Free(t);
    case Woken(_) =>
      WokenIsCounted(s, t);
      e := StopWaiting(t);
    case Asking(_, _) => e := Ask(t);
    case Freed(notify) =>
      if notify && SomeSleeper(s) {
        var woken := set w: nat | w < |s.ts| && IsSleeping(s, w);
        var w :| 0 <= w < |s.ts| && s.ts[w].Sleeping?;
        assert IsSleeping(s, w) && w in woken;
        e := Signal(t, woken);
      } else {
        e := Signal(t, {});
      }
  }

  /** A request beyond the total is never granted. */
  lemma OversizeIsNeverGranted(total: nat, es: seq<Event>, t: nat)
    requires Possible(Init(total), es)
    requires Enabled(After(Init(total), es), Ask(t)) && After(Init(total), es).ts[t].size > total
    ensures Next(After(Init(total), es), Ask(t)).ts[t].Sleeping?
  {
    RunConserves(Init(total), es);
  }
}
