/**
 Request admission (src/ct_common.c): the counting semaphore hsm_req_sem, the
 dispatcher on the main thread, its workers, and the signal handler, which runs
 on the main thread and never goes back to what it interrupted.
 */
module Admission {

  /** Where the dispatcher is: waiting for the next item, in ct_request_ctl,
      past it with a permit, or about to post the permit of a failed dispatch. */
  datatype Place = Receiving | Acquiring | Permitted | DispatchFailed

  datatype Main = At(place: Place) | Handling(place: Place) | Exited(place: Place)

  datatype Worker = Busy | Gone

  datatype System = System(value: nat, main: Main, workers: seq<Worker>, stop: bool)

  datatype Event =
    | Item            // an item of an action list is next
    | TimedOut        // sem_timedwait gives up after its second
    | Acquire         // sem_timedwait succeeds
    | Dispatch        // pthread_create succeeds
    | DispatchFails   // malloc, pthread_attr_init or pthread_create fails
    | PostBack        // the dispatcher posts for the failed dispatch
    | Finish(w: nat)  // ct_thread posts and exits
    | Interrupt       // SIGTERM or SIGINT reaches the main thread
    | Poll            // the handler looks at the semaphore

  function Init(maxRequests: nat): System {
    System(maxRequests, At(Receiving), [], false)
  }

  predicate Enabled(s: System, e: Event) {
    match e
    case Item => s.main == At(Receiving)
    case TimedOut => s.main == At(Acquiring)
    case Acquire => s.main == At(Acquiring) && s.value > 0
    case Dispatch => s.main == At(Permitted)
    case DispatchFails => s.main == At(Permitted)
    case PostBack => s.main == At(DispatchFailed)
    case Finish(w) => w < |s.workers| && s.workers[w].Busy?
    case Interrupt => s.main.At?
    case Poll => s.main.Handling?
  }

  function Next(s: System, e: Event, maxRequests: nat): System
    requires Enabled(s, e)
  {
    match e
    case Item => s.(main := At(Acquiring))
    case TimedOut => s
    case Acquire => s.(value := s.value - 1, main := At(Permitted))
    case Dispatch => s.(workers := s.workers + [Busy], main := At(Receiving))
    case DispatchFails => s.(main := At(DispatchFailed))
    case PostBack => s.(value := s.value + 1, main := At(Receiving))
    case Finish(w) => s.(value := s.value + 1, workers := s.workers[w := Gone])
    case Interrupt => s.(main := Handling(s.main.place), stop := true)
    case Poll => if s.value < maxRequests then s else s.(main := Exited(s.main.place))
  }

  function BusyCount(ws: seq<Worker>): nat {
    if ws == [] then 0 else (if ws[0].Busy? then 1 else 0) + BusyCount(ws[1..])
  }

  function PermitHeld(m: Main): nat {
    if m.place.Permitted? || m.place.DispatchFailed? then 1 else 0
  }

  lemma {:induction false} BusyAppend(ws: seq<Worker>)
    ensures BusyCount(ws + [Busy]) == BusyCount(ws) + 1
  {
    if ws == [] {
      assert ws + [Busy] == [Busy];
    } else {
      assert (ws + [Busy])[1..] == ws[1..] + [Busy];
      BusyAppend(ws[1..]);
    }
  }

  lemma {:induction false} BusyFinish(ws: seq<Worker>, w: nat)
    requires w < |ws| && ws[w].Busy?
    ensures BusyCount(ws[w := Gone]) == BusyCount(ws) - 1
  {
    if w == 0 {
      assert ws[w := Gone][1..] == ws[1..];
    } else {
      assert ws[w := Gone][1..] == ws[1..][w - 1 := Gone];
      BusyFinish(ws[1..], w - 1);
    }
  }

  lemma {:induction false} NoneBusy(ws: seq<Worker>)
    ensures BusyCount(ws) == 0 <==> forall w :: 0 <= w < |ws| ==> ws[w].Gone?
  {
    if ws != [] {
      NoneBusy(ws[1..]);
      assert forall w :: 0 < w < |ws| ==> ws[w] == ws[1..][w - 1];
      assert forall w :: 0 <= w < |ws[1..]| ==> ws[1..][w] == ws[w + 1];
    }
  }

  /** Every permit is in the semaphore, with a busy worker, or with the
      dispatcher. */
  ghost predicate Inv(s: System, maxRequests: nat) {
    && s.value + BusyCount(s.workers) + PermitHeld(s.main) == maxRequests
    && (s.main.At? <==> !s.stop)
    && (s.main.Exited? ==> s.value >= maxRequests)
  }

  lemma StepKeepsInv(s: System, e: Event, maxRequests: nat)
    requires Inv(s, maxRequests) && Enabled(s, e)
    ensures Inv(Next(s, e, maxRequests), maxRequests)
  {
    match e
    case Dispatch => BusyAppend(s.workers);
    case Finish(w) => BusyFinish(s.workers, w);
    case _ =>
  }

  ghost predicate Possible(s: System, es: seq<Event>, maxRequests: nat)
    decreases |es|
  {
    es != [] ==> Enabled(s, es[0]) && Possible(Next(s, es[0], maxRequests), es[1..], maxRequests)
  }

  ghost function After(s: System, es: seq<Event>, maxRequests: nat): System
    requires Possible(s, es, maxRequests)
    decreases |es|
  {
    if es == [] then s else After(Next(s, es[0], maxRequests), es[1..], maxRequests)
  }

  lemma {:induction false} RunKeepsInv(s: System, es: seq<Event>, maxRequests: nat)
    requires Inv(s, maxRequests) && Possible(s, es, maxRequests)
    ensures Inv(After(s, es, maxRequests), maxRequests)
    decreases |es|
  {
    if es != [] {
      StepKeepsInv(s, es[0], maxRequests);
      RunKeepsInv(Next(s, es[0], maxRequests), es[1..], maxRequests);
    }
  }

  /** In every run the permits add up, so never more than max_requests workers
      are busy; and when the process exits, no worker is. */
  lemma PermitsAddUp(maxRequests: nat, es: seq<Event>)
    requires Possible(Init(maxRequests), es, maxRequests)
    ensures var s := After(Init(maxRequests), es, maxRequests);
            && s.value + BusyCount(s.workers) + PermitHeld(s.main) == maxRequests
            && (s.main.Exited? ==> forall w :: 0 <= w < |s.workers| ==> s.workers[w].Gone?)
  {
    RunKeepsInv(Init(maxRequests), es, maxRequests);
    NoneBusy(After(Init(maxRequests), es, maxRequests).workers);
  }

  /** The handler's look at the semaphore ends the process exactly when all
      workers are gone and the signal did not catch the dispatcher with a
      permit in hand. */
  lemma PollExitsIff(maxRequests: nat, es: seq<Event>)
    requires Possible(Init(maxRequests), es, maxRequests)
    requires After(Init(maxRequests), es, maxRequests).main.Handling?
    ensures var s := After(Init(maxRequests), es, maxRequests);
            Next(s, Poll, maxRequests).main.Exited? <==>
            (forall w :: 0 <= w < |s.workers| ==> s.workers[w].Gone?) && PermitHeld(s.main) == 0
  {
    RunKeepsInv(Init(maxRequests), es, maxRequests);
    NoneBusy(After(Init(maxRequests), es, maxRequests).workers);
  }

  /** A dispatcher interrupted with a permit in hand never gives it back,
      whatever the workers do. */
  lemma {:induction false} PermitStaysInHand(s: System, es: seq<Event>, maxRequests: nat)
    requires Inv(s, maxRequests) && s.main.Handling? && PermitHeld(s.main) == 1
    requires Possible(s, es, maxRequests)
    ensures After(s, es, maxRequests).main == s.main
    decreases |es|
  {
    if es != [] {
      StepKeepsInv(s, es[0], maxRequests);
      PermitStaysInHand(Next(s, es[0], maxRequests), es[1..], maxRequests);
    }
  }

  lemma Prepend(s: System, e: Event, es: seq<Event>, maxRequests: nat)
    requires Enabled(s, e)
    ensures Possible(s, [e] + es, maxRequests) <==> Possible(Next(s, e, maxRequests), es, maxRequests)
    ensures Possible(s, [e] + es, maxRequests) ==>
              After(s, [e] + es, maxRequests) == After(Next(s, e, maxRequests), es, maxRequests)
  {
    assert ([e] + es)[1..] == es;
  }

  /** This happens: the signal comes right after the first item got its permit.
      No run that begins like this ever exits. */
  lemma PermitInHandNeverExits(maxRequests: nat, es: seq<Event>)
    requires maxRequests > 0
    ensures var begin := [Item] + ([Acquire] + ([Interrupt] + es));
            && (es == [] ==> Possible(Init(maxRequests), begin, maxRequests))
            && (Possible(Init(maxRequests), begin, maxRequests) ==>
                  After(Init(maxRequests), begin, maxRequests).main == Handling(Permitted))
  {
    var s1 := Next(Init(maxRequests), Item, maxRequests);
    var s2 := Next(s1, Acquire, maxRequests);
    var s3 := Next(s2, Interrupt, maxRequests);
    Prepend(Init(maxRequests), Item, [Acquire] + ([Interrupt] + es), maxRequests);
    Prepend(s1, Acquire, [Interrupt] + es, maxRequests);
    Prepend(s2, Interrupt, es, maxRequests);
    if Possible(s3, es, maxRequests) {
      PermitStaysInHand(s3, es, maxRequests);
    }
  }

  /** All busy workers end, and the handler looks. */
  lemma {:induction false} FinishAndPoll(s: System, maxRequests: nat) returns (es: seq<Event>)
    requires Inv(s, maxRequests) && s.main.Handling? && PermitHeld(s.main) == 0
    ensures Possible(s, es, maxRequests) && After(s, es, maxRequests).main.Exited?
    decreases BusyCount(s.workers)
  {
    NoneBusy(s.workers);
    if BusyCount(s.workers) == 0 {
      es := [Poll] + [];
      Prepend(s, Poll, [], maxRequests);
    } else {
      var w :| 0 <= w < |s.workers| && !s.workers[w].Gone?;
      BusyFinish(s.workers, w);
      StepKeepsInv(s, Finish(w), maxRequests);
      es := FinishAndPoll(Next(s, Finish(w), maxRequests), maxRequests);
      Prepend(s, Finish(w), es, maxRequests);
      es := [Finish(w)] + es;
    }
  }

  /** Once the handler runs, the process can still come to its exit exactly if
      the signal did not catch the dispatcher with a permit in hand. */
  lemma ExitReachableIff(maxRequests: nat, es: seq<Event>)
    requires Possible(Init(maxRequests), es, maxRequests)
    requires After(Init(maxRequests), es, maxRequests).main.Handling?
    ensures var s := After(Init(maxRequests), es, maxRequests);
            (exists fs :: Possible(s, fs, maxRequests) && After(s, fs, maxRequests).main.Exited?)
            <==> PermitHeld(s.main) == 0
  {
    var s := After(Init(maxRequests), es, maxRequests);
    RunKeepsInv(Init(maxRequests), es, maxRequests);
    if PermitHeld(s.main) == 0 {
      var fs := FinishAndPoll(s, maxRequests);
    } else {
      forall fs | Possible(s, fs, maxRequests)
        ensures !After(s, fs, maxRequests).main.Exited?
      {
        PermitStaysInHand(s, fs, maxRequests);
      }
    }
  }

  // ---- the code ------------------------------------------------------------

  lemma {:induction false} RunOneMore(s: System, es: seq<Event>, e: Event, maxRequests: nat)
    requires Possible(s, es, maxRequests) && Enabled(After(s, es, maxRequests), e)
    ensures Possible(s, es + [e], maxRequests)
    ensures After(s, es + [e], maxRequests) == Next(After(s, es, maxRequests), e, maxRequests)
    decreases |es|
  {
    var all := es + [e];
    if es == [] {
      assert all[1..] == [];
    } else {
      assert all[1..] == es[1..] + [e];
      RunOneMore(Next(s, es[0], maxRequests), es[1..], e, maxRequests);
    }
  }

  /** The semaphore, the flag and the threads of the daemon. `run` records the
      steps taken, so that Valid says that the state is one a run comes to. */
  class Daemon {
    const maxRequests: nat
    var value: nat
    var stop: bool
    var main: Main
    var workers: seq<Worker>
    ghost var run: seq<Event>

    ghost function View(): System
      reads this
    {
      System(value, main, workers, stop)
    }

    ghost predicate Valid()
      reads this
    {
      Possible(Init(maxRequests), run, maxRequests) && After(Init(maxRequests), run, maxRequests) == View()
    }

    ghost predicate AllGone()
      reads `workers
    {
      forall w :: 0 <= w < |workers| ==> workers[w].Gone?
    }

    constructor (maxRequests: nat)
      ensures Valid() && View() == Init(maxRequests)
    {
      this.maxRequests := maxRequests;
      value, stop, main, workers, run := maxRequests, false, At(Receiving), [], [];
    }

    /** The state has just changed by the step e. */
    ghost method Record(e: Event, was: System)
      requires Possible(Init(maxRequests), run, maxRequests) && After(Init(maxRequests), run, maxRequests) == was
      requires Enabled(was, e) && View() == Next(was, e, maxRequests)
      modifies `run
      ensures Valid()
    {
      RunOneMore(Init(maxRequests), run, e, maxRequests);
      run := run + [e];
    }

    /** What the other threads may do meanwhile: ct_thread ends for any of the
        busy workers. */
    method OthersRun()
      requires Valid()
      modifies `value, `workers, `run
      ensures Valid() && |workers| == |old(workers)| && value >= old(value)
      ensures forall w :: 0 <= w < |workers| && old(workers[w].Gone?) ==> workers[w].Gone?
    {
      var many: nat :| many >= 0;
      for n := 0 to many
        invariant Valid() && |workers| == |old(workers)| && value >= old(value)
        invariant forall w :: 0 <= w < |workers| && old(workers[w].Gone?) ==> workers[w].Gone?
      {
        var w: nat :| w >= 0;
        if w < |workers| && workers[w].Busy? {
          ghost var was := View();
          value := value + 1;
          workers := workers[w := Gone];
          Record(Finish(w), was);
        }
      }
    }

    /** ct_request_ctl, for at most so many rounds. With `prompt` no wait times
        out while there is a permit. */
    method RequestCtl(rounds: nat, prompt: bool) returns (got: bool)
      requires Valid() && main == At(Acquiring)
      modifies `value, `workers, `run, `main
      ensures Valid() && main == At(if got then Permitted else Acquiring) && |workers| == |old(workers)|
      ensures prompt && rounds > 0 && old(value) > 0 ==> got
    {
      got := false;
      var round := 0;
      while round < rounds && !got
        invariant Valid() && main == At(if got then Permitted else Acquiring) && |workers| == |old(workers)|
        invariant prompt && old(value) > 0 ==> if got then round > 0 else round == 0 && value > 0
        decreases rounds - round
      {
        OthersRun();
        var inTime: bool := *;
        ghost var was := View();
        if value > 0 && (inTime || prompt) {
          value := value - 1;
          main := At(Permitted);
          Record(Acquire, was);
          got := true;
        } else {
          Record(TimedOut, was);
        }
        round := round + 1;
      }
    }

    /** ct_process_item_async; `created` says whether the memory, the attributes
        and the thread can be had. */
    method ProcessItemAsync(created: bool) returns (ok: bool)
      requires Valid() && main == At(Permitted)
      modifies `workers, `run, `main
      ensures ok == created
      ensures Valid() && main == At(if ok then Receiving else DispatchFailed)
      ensures workers == if ok then old(workers) + [Busy] else old(workers)
    {
      ok := created;
      ghost var was := View();
      if ok {
        workers := workers + [Busy];
        main := At(Receiving);
        Record(Dispatch, was);
      } else {
        main := At(DispatchFailed);
        Record(DispatchFails, was);
      }
    }

    /** One item in the loop of ct_run, while no signal comes. Once it is dealt
        with, dispatched or not, all permits are in the semaphore or with busy
        workers, and there is one thread more, or none. */
    method DispatchItem(rounds: nat, prompt: bool, created: bool) returns (got: bool, dispatched: bool)
      requires Valid() && main == At(Receiving)
      modifies `value, `workers, `run, `main
      ensures prompt && rounds > 0 && old(value) > 0 ==> got
      ensures dispatched <==> got && created
      ensures |workers| == |old(workers)| + if dispatched then 1 else 0
      ensures Valid() && main == At(if got then Receiving else Acquiring)
      ensures value + BusyCount(workers) == maxRequests
    {
      ghost var was := View();
      main := At(Acquiring);
      Record(Item, was);
      got := RequestCtl(rounds, prompt);
      dispatched := false;
      if got {
        OthersRun();
        dispatched := ProcessItemAsync(created);
        OthersRun();
        if !dispatched {
          was := View();
          value := value + 1;
          main := At(Receiving);
          Record(PostBack, was);
        }
      }
      PermitsAddUp(maxRequests, run);
    }

    /** handler, for at most so many looks at the semaphore. It exits only when
        no worker is busy and no permit was in the dispatcher's hand. */
    method Handler(rounds: nat) returns (exits: bool)
      requires Valid() && main.At?
      modifies `value, `workers, `run, `main, `stop
      ensures Valid() && stop && main == if exits then Exited(old(main.place)) else Handling(old(main.place))
      ensures exits ==> value == maxRequests && forall w :: 0 <= w < |workers| ==> workers[w].Gone?
      ensures exits ==> PermitHeld(old(main)) == 0
      ensures rounds > 0 && PermitHeld(old(main)) == 0 && old(AllGone()) ==> exits
    {
      ghost var was := View();
      stop := true;
      main := Handling(main.place);
      Record(Interrupt, was);
      exits := false;
      var round := 0;
      while round < rounds && !exits
        invariant Valid() && stop && main == if exits then Exited(old(main.place)) else Handling(old(main.place))
        invariant round > 0 && PermitHeld(old(main)) == 0 && old(AllGone()) ==> exits
        invariant |workers| == |old(workers)|
        invariant forall w :: 0 <= w < |workers| && old(workers[w].Gone?) ==> workers[w].Gone?
        decreases rounds - round
      {
        OthersRun();
        RunKeepsInv(Init(maxRequests), run, maxRequests);
        NoneBusy(workers);
        was := View();
        if value >= maxRequests {
          main := Exited(main.place);
          exits := true;
        }
        Record(Poll, was);
        round := round + 1;
      }
      RunKeepsInv(Init(maxRequests), run, maxRequests);
      PermitsAddUp(maxRequests, run);
    }
  }
}
