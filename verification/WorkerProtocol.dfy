/**
 * The worker threads of ConcurrentIotivityUtils around the work queue: an API mutex, a stop flag, handlers that
 * put work while the API mutex is held, and a main thread that stops and joins.
 */
module WorkerProtocol {
  import opened Bytes
  import Q = WorkQueue

  /** A work item: what it does does not matter here, only that `process` makes finitely many calls of `put`. */
  type Item = nat

  /** Why a thread wants the API mutex: to process an item, or for OCProcess(). */
  datatype Role = Work(item: Item) | Network

  /**
   * Where a thread is while it is outside the queue. `calls` is the number of times process(), or a handler
   * that OCProcess() runs, will still put something.
   */
  datatype Local =
    | Fetch                                 // processWorkQueue, about to call get
    | WantApi(role: Role)                   // waiting for the API mutex
    | InApi(role: Role, calls: nat)         // inside process() or OCProcess()
    | Pause | CheckFlag                     // callOCProcess, sleeping, and at the head of its loop
    | Exited                                // returned from the thread function
    | Running | Signalled | JoinWork | JoinNetwork | Stopped     // the main thread
    | Produce                               // any other thread that puts work

  type Place = Q.Place<Item, Local>

  const WORK: nat := 0
  const NETWORK: nat := 1
  const MAIN: nat := 2

  /** The queue with all threads, the API mutex, and m_shutDownOCProcessThread. */
  datatype State = State(q: Q.State<Item, Local>, api: Option<nat>, flag: bool)

  /** After startWorkerThreads: both workers at the start of their functions, any number of producers. */
  ghost predicate Starts(s: State) {
    && |s.q.threads| > MAIN && Q.Starts(s.q) && s.api == None && !s.flag
    && s.q.threads[WORK] == Q.Outside(Fetch) && s.q.threads[NETWORK] == Q.Outside(CheckFlag)
    && s.q.threads[MAIN] == Q.Outside(Running)
    && forall j :: MAIN < j < |s.q.threads| ==> s.q.threads[j] == Q.Outside(Produce)
  }

  function Moved(s: State, k: nat, place: Place): State
    requires k < |s.q.threads|
  {
    s.(q := Q.At(s.q, k, place))
  }

  /** Where a thread goes when it leaves process() or OCProcess(). */
  function AfterApi(role: Role): Local {
    if role.Work? then Fetch else Pause
  }

  /** The thread calls put with some item. */
  predicate Puts(s: State, s': State, k: nat, back: Local)
    requires k < |s.q.threads|
  {
    && |s'.q.threads| == |s.q.threads| && s'.q.threads[k].PutLock? && s'.q.threads[k].back == back
    && s' == Moved(s, k, s'.q.threads[k])
  }

  /** One step of thread `k` outside the queue. */
  predicate Outer(s: State, s': State, k: nat)
    requires k < |s.q.threads|
  {
    match s.q.threads[k]
    case Returned(result, back) =>
      back == Fetch && s' == Moved(s, k, Q.Outside(if result.Some? then WantApi(Work(result.value)) else Exited))
    case Outside(at) =>
      (match at
       case Fetch => s' == Moved(s, k, Q.GetLock(Fetch))
       case WantApi(role) =>
         && s.api == None && s'.api == Some(k) && |s'.q.threads| == |s.q.threads|
         && s'.q.threads[k].Outside? && s'.q.threads[k].at.InApi? && s'.q.threads[k].at.role == role
         && s' == Moved(s, k, s'.q.threads[k]).(api := Some(k))
       case InApi(role, calls) =>
         if calls == 0 then s' == Moved(s, k, Q.Outside(AfterApi(role))).(api := None)
         else Puts(s, s', k, InApi(role, calls - 1))
       case Pause => s' == Moved(s, k, Q.Outside(CheckFlag))
       case CheckFlag => s' == Moved(s, k, Q.Outside(if s.flag then Exited else WantApi(Network)))
       case Running => s' == Moved(s, k, Q.Outside(Signalled)).(flag := true)
       case Signalled => s' == Moved(s, k, Q.StopLock(JoinWork))
       case JoinWork =>
         |s.q.threads| > MAIN && s.q.threads[WORK] == Q.Outside(Exited) && s' == Moved(s, k, Q.Outside(JoinNetwork))
       case JoinNetwork =>
         |s.q.threads| > MAIN && s.q.threads[NETWORK] == Q.Outside(Exited) && s' == Moved(s, k, Q.Outside(Stopped))
       case Produce => Puts(s, s', k, Produce)
       case _ => false)
    case _ => false
  }

  /** One step of thread `k` inside the queue. */
  predicate Inner(s: State, s': State, k: nat)
    requires k < |s.q.threads|
  {
    Q.Next(s.q, k) == Some(s'.q) && s'.api == s.api && s'.flag == s.flag
  }

  predicate Step(s: State, s': State, k: nat) {
    k < |s.q.threads| && (Outer(s, s', k) || Inner(s, s', k))
  }

  /** The protocol is a caller of the queue, so all that holds of the queue holds here. */
  lemma StepIsQueueStep(s: State, s': State, k: nat)
    requires Step(s, s', k)
    ensures Q.Step(s.q, s'.q, k)
  {
    hide Q.Woken;
    if Outer(s, s', k) { assert Q.CallerStep(s.q, s'.q, k); }
  }

  // ----- the invariant -----

  /** The thread holds the API mutex: inside process() or OCProcess(), perhaps in a put made from there. */
  predicate InsideApi(place: Place) {
    match place
    case Outside(at) => at.InApi?
    case PutLock(_, back) => back.InApi?
    case PutPush(_, back) => back.InApi?
    case PutNotify(back) => back.InApi?
    case PutUnlock(back) => back.InApi?
    case _ => false
  }

  predicate RoleIs(place: Place, work: bool) {
    match place
    case Outside(at) => (at.InApi? || at.WantApi?) && at.role.Work? == work
    case PutLock(_, back) => back.InApi? && back.role.Work? == work
    case PutPush(_, back) => back.InApi? && back.role.Work? == work
    case PutNotify(back) => back.InApi? && back.role.Work? == work
    case PutUnlock(back) => back.InApi? && back.role.Work? == work
    case _ => false
  }

  /** Each thread only ever is where its function takes it. */
  predicate Fits(k: nat, place: Place) {
    if k == WORK then
      RoleIs(place, true) || place == Q.Outside(Fetch) || place == Q.Outside(Exited)
      || place == Q.GetLock(Fetch) || place == Q.GetTest(Fetch)
      || place == Q.Asleep(Fetch) || place == Q.GetRelock(Fetch)
      || place == Q.GetTake(Fetch) || ((place.GetUnlock? || place.Returned?) && place.back == Fetch)
    else if k == NETWORK then
      RoleIs(place, false) || place == Q.Outside(Pause) || place == Q.Outside(CheckFlag) || place == Q.Outside(Exited)
    else if k == MAIN then
      place == Q.Outside(Running) || place == Q.Outside(Signalled) || HasShut(place)
      || place == Q.StopLock(JoinWork) || place == Q.StopSet(JoinWork)
    else
      place == Q.Outside(Produce) || (place.PutLock? && place.back == Produce)
      || (place.PutPush? && place.back == Produce)
      || place == Q.PutNotify(Produce) || place == Q.PutUnlock(Produce)
  }

  /** The main thread has set the queue's flag. */
  predicate HasShut(place: Place) {
    place == Q.StopNotify(JoinWork) || HasSignalled(place)
  }

  /** The main thread has also woken everybody. */
  predicate HasSignalled(place: Place) {
    place == Q.StopUnlock(JoinWork) || place == Q.Outside(JoinWork)
    || place == Q.Outside(JoinNetwork) || place == Q.Outside(Stopped)
  }

  ghost predicate Threads(s: State) {
    |s.q.threads| > MAIN && forall k {:trigger s.q.threads[k]} :: 0 <= k < |s.q.threads| ==> Fits(k, s.q.threads[k])
  }

  ghost predicate ApiExclusive(s: State) {
    && (s.api.Some? ==> s.api.value < |s.q.threads|)
    && forall k {:trigger s.q.threads[k]} :: 0 <= k < |s.q.threads| ==>
         (InsideApi(s.q.threads[k]) <==> s.api == Some(k))
  }

  /** What the main thread has done so far. */
  ghost predicate Stopping(s: State)
    requires |s.q.threads| > MAIN
  {
    var main := s.q.threads[MAIN];
    && (s.flag <==> main != Q.Outside(Running))
    && (s.q.shut <==> HasShut(main))
    && (HasSignalled(main) ==> !s.q.threads[WORK].Asleep?)
    && (main == Q.Outside(JoinNetwork) || main == Q.Outside(Stopped) ==> s.q.threads[WORK] == Q.Outside(Exited))
    && (main == Q.Outside(Stopped) ==> s.q.threads[NETWORK] == Q.Outside(Exited))
  }

  ghost predicate Inv(s: State) {
    Q.Inv(s.q) && Threads(s) && ApiExclusive(s) && Stopping(s)
  }

  lemma InvStarts(s: State)
    requires Starts(s)
    ensures Inv(s)
  {
    Q.InvStarts(s.q);
    hide Q.Inv;
  }

  /** Another thread stays, or the sleeping worker is woken. */
  lemma OthersStay(s: State, s': State, k: nat, j: nat)
    requires Threads(s) && Step(s, s', k) && j < |s.q.threads| && j != k
    ensures |s'.q.threads| == |s.q.threads|
    ensures s'.q.threads[j] == s.q.threads[j]
            || (j == WORK && s.q.threads[j] == Q.Asleep(Fetch) && s'.q.threads[j] == Q.GetRelock(Fetch))
  {
    hide Step;
    StepIsQueueStep(s, s', k);
    Q.OthersStay(s.q, s'.q, k, j);
    assert Fits(j, s.q.threads[j]);
  }

  /** Where a step outside the queue takes the thread that makes it. */
  predicate Departs(p: Place, p': Place) {
    match p
    case Returned(result, back) => p' == Q.Outside(if result.Some? then WantApi(Work(result.value)) else Exited)
    case Outside(at) =>
      (match at
       case Fetch => p' == Q.GetLock(Fetch)
       case WantApi(role) => p'.Outside? && p'.at.InApi? && p'.at.role == role
       case InApi(role, calls) =>
         if calls == 0 then p' == Q.Outside(AfterApi(role)) else p'.PutLock? && p'.back == InApi(role, calls - 1)
       case Pause => p' == Q.Outside(CheckFlag)
       case CheckFlag => p' == Q.Outside(Exited) || p' == Q.Outside(WantApi(Network))
       case Running => p' == Q.Outside(Signalled)
       case Signalled => p' == Q.StopLock(JoinWork)
       case JoinWork => p' == Q.Outside(JoinNetwork)
       case JoinNetwork => p' == Q.Outside(Stopped)
       case Produce => p'.PutLock? && p'.back == Produce
       case _ => false)
    case _ => false
  }

  lemma MoverGoes(s: State, s': State, k: nat)
    requires Step(s, s', k)
    ensures |s'.q.threads| == |s.q.threads|
    ensures Departs(s.q.threads[k], s'.q.threads[k]) || Q.Follows(s.q.threads[k], s'.q.threads[k])
  {
    hide Q.Follows, Q.Next;
    if Inner(s, s', k) { Q.NextFollows(s.q, k); }
  }

  lemma PlaceFits(k: nat, p: Place, p': Place)
    requires Fits(k, p) && (Departs(p, p') || Q.Follows(p, p'))
    ensures Fits(k, p')
  {
    if Departs(p, p') { DepartsFits(k, p, p'); } else { FollowsFits(k, p, p'); }
    hide Fits, Departs, Q.Follows;
  }

  lemma DepartsFits(k: nat, p: Place, p': Place)
    requires Fits(k, p) && Departs(p, p')
    ensures Fits(k, p')
  {
  }

  lemma FollowsFits(k: nat, p: Place, p': Place)
    requires Fits(k, p) && Q.Follows(p, p')
    ensures Fits(k, p')
  {
  }

  lemma MoverFits(s: State, s': State, k: nat)
    requires Threads(s) && Step(s, s', k)
    ensures |s'.q.threads| == |s.q.threads| && Fits(k, s'.q.threads[k])
  {
    MoverGoes(s, s', k);
    hide Step, Fits, Departs, Q.Follows;
    assert Fits(k, s.q.threads[k]);
    PlaceFits(k, s.q.threads[k], s'.q.threads[k]);
  }

  lemma ThreadsKept(s: State, s': State, k: nat)
    requires Threads(s) && Step(s, s', k)
    ensures Threads(s')
  {
    SameCount(s, s', k);
    MoverFits(s, s', k);
    hide Step;
    forall j | 0 <= j < |s'.q.threads| ensures Fits(j, s'.q.threads[j]) {
      if j != k { OthersStay(s, s', k, j); }
    }
  }

  lemma SameCount(s: State, s': State, k: nat)
    requires Step(s, s', k)
    ensures |s'.q.threads| == |s.q.threads|
  {
    MoverGoes(s, s', k);
  }

  /** Going in takes the free mutex, going out gives it back, and nothing else touches it. */
  predicate ApiMoves(p: Place, p': Place, api: Option<nat>, api': Option<nat>, k: nat) {
    if InsideApi(p') && !InsideApi(p) then api == None && api' == Some(k)
    else if InsideApi(p) && !InsideApi(p') then api' == None
    else api' == api
  }

  lemma MoverApi(s: State, s': State, k: nat)
    requires Step(s, s', k) && |s'.q.threads| == |s.q.threads| && Fits(k, s.q.threads[k])
    ensures ApiMoves(s.q.threads[k], s'.q.threads[k], s.api, s'.api, k)
  {
    hide Q.Next, Q.Woken;
    if Inner(s, s', k) {
      Q.NextFollows(s.q, k);
      InnerKeepsSide(k, s.q.threads[k], s'.q.threads[k]);
    }
  }

  lemma InnerKeepsSide(k: nat, p: Place, p': Place)
    requires Fits(k, p) && Q.Follows(p, p')
    ensures InsideApi(p') <==> InsideApi(p)
  {
  }

  lemma ApiKept(s: State, s': State, k: nat)
    requires Threads(s) && ApiExclusive(s) && Step(s, s', k)
    ensures ApiExclusive(s')
  {
    SameCount(s, s', k);
    assert Fits(k, s.q.threads[k]);
    MoverApi(s, s', k);
    hide Step, Fits;
    assert InsideApi(s.q.threads[k]) <==> s.api == Some(k);
    forall j | 0 <= j < |s'.q.threads| ensures InsideApi(s'.q.threads[j]) <==> s'.api == Some(j) {
      if j != k { OthersStay(s, s', k, j); }
    }
  }

  /** How the flags follow the main thread. */
  lemma FlagsMove(s: State, s': State, k: nat)
    requires Step(s, s', k) && |s'.q.threads| == |s.q.threads|
    ensures s'.flag == (s.flag || (s.q.threads[k] == Q.Outside(Running)))
    ensures s'.q.shut == (s.q.shut || s.q.threads[k].StopSet?)
  {
    hide Q.Woken;
  }

  /** A thread does not fall asleep once the queue is shut down, and the wake-up call leaves nobody asleep. */
  lemma NoSleepAfterShutdown(s: State, s': State, k: nat)
    requires Threads(s) && Step(s, s', k) && |s'.q.threads| == |s.q.threads| && s.q.shut
    ensures s'.q.threads[WORK].Asleep? ==> s.q.threads[WORK].Asleep? && !s.q.threads[k].StopNotify?
  {
    if k == WORK {
      assert Fits(WORK, s.q.threads[WORK]);
      hide Q.Woken;
    } else {
      StepIsQueueStep(s, s', k);
      Q.OthersStay(s.q, s'.q, k, WORK);
    }
  }

  /** The main thread goes on from a join only when the thread it waits for has exited. */
  lemma JoinsWait(s: State, s': State)
    requires Threads(s) && Step(s, s', MAIN) && |s'.q.threads| == |s.q.threads|
    ensures s'.q.threads[MAIN] == Q.Outside(JoinNetwork) ==> s.q.threads[WORK] == Q.Outside(Exited)
    ensures s'.q.threads[MAIN] == Q.Outside(Stopped) ==>
              s.q.threads[MAIN] == Q.Outside(JoinNetwork) && s.q.threads[NETWORK] == Q.Outside(Exited)
  {
    assert Fits(MAIN, s.q.threads[MAIN]);
    hide Q.Woken;
  }

  /** A worker that has exited makes no step. */
  lemma ExitedStays(s: State, s': State, k: nat, j: nat)
    requires Threads(s) && Step(s, s', k) && j < |s.q.threads| && s.q.threads[j] == Q.Outside(Exited)
    ensures |s'.q.threads| == |s.q.threads| && s'.q.threads[j] == s.q.threads[j]
  {
    MoverGoes(s, s', k);
    hide Step;
    if j != k { OthersStay(s, s', k, j); }
  }

  /** Where the main thread was before: the flags it had set follow it. */
  lemma MainCameFrom(s: State, s': State)
    requires Threads(s) && Step(s, s', MAIN) && |s'.q.threads| == |s.q.threads|
    ensures var p, p' := s.q.threads[MAIN], s'.q.threads[MAIN];
            && (p' != Q.Outside(Running)) && (HasShut(p') <==> HasShut(p) || p.StopSet?)
            && (HasSignalled(p') ==> HasSignalled(p) || p.StopNotify?)
  {
    MoverGoes(s, s', MAIN);
    assert Fits(MAIN, s.q.threads[MAIN]);
    hide Step;
  }

  lemma StoppingKept(s: State, s': State, k: nat)
    requires Threads(s) && Stopping(s) && Step(s, s', k)
    ensures |s'.q.threads| > MAIN && Stopping(s')
  {
    SameCount(s, s', k);
    FlagsMove(s, s', k);
    if s.q.shut { NoSleepAfterShutdown(s, s', k); }
    if s.q.threads[WORK] == Q.Outside(Exited) { ExitedStays(s, s', k, WORK); }
    if s.q.threads[NETWORK] == Q.Outside(Exited) { ExitedStays(s, s', k, NETWORK); }
    assert Fits(k, s.q.threads[k]);
    if k == MAIN {
      JoinsWait(s, s');
      MainCameFrom(s, s');
    } else {
      OthersStay(s, s', k, MAIN);
    }
    hide Step;
  }

  lemma InvKept(s: State, s': State, k: nat)
    requires Inv(s) && Step(s, s', k)
    ensures Inv(s')
  {
    hide Step, Q.Step, Q.Inv, Threads, ApiExclusive, Stopping;
    StepIsQueueStep(s, s', k);
    Q.InvKept(s.q, s'.q, k);
    ThreadsKept(s, s', k);
    ApiKept(s, s', k);
    StoppingKept(s, s', k);
  }

  // ----- runs -----

  ghost predicate Moves(s: State, s': State) {
    exists k: nat :: Step(s, s', k)
  }

  /** A finite run from the start. */
  ghost predicate Run(run: seq<State>) {
    run != [] && if |run| == 1 then Starts(run[0]) else Run(run[..|run| - 1]) && Moves(run[|run| - 2], run[|run| - 1])
  }

  lemma {:induction false} InvOverRun(run: seq<State>, i: nat)
    requires Run(run) && i < |run|
    ensures Inv(run[i])
    decreases |run|
  {
    hide Inv, Step, Starts;
    if |run| == 1 {
      InvStarts(run[0]);
    } else if i < |run| - 1 {
      InvOverRun(run[..|run| - 1], i);
    } else {
      InvOverRun(run[..i], i - 1);
      var k: nat :| Step(run[i - 1], run[i], k);
      InvKept(run[i - 1], run[i], k);
    }
  }

  /** process() and OCProcess() never run at the same time, whoever is inside the one or the other. */
  lemma ApiMutualExclusion(run: seq<State>, i: nat, j: nat, k: nat)
    requires Run(run) && i < |run| && j < |run[i].q.threads| && k < |run[i].q.threads|
    requires InsideApi(run[i].q.threads[j]) && InsideApi(run[i].q.threads[k])
    ensures j == k
  {
    InvOverRun(run, i);
    hide Q.Inv, Threads, Stopping;
  }

  // ----- who can go on -----

  /** Thread `k` can make a step now. */
  predicate CanStep(s: State, k: nat)
    requires k < |s.q.threads| && |s.q.threads| > MAIN
  {
    match s.q.threads[k]
    case Returned(_, _) => true
    case Outside(at) =>
      (match at
       case WantApi(_) => s.api == None
       case JoinWork => s.q.threads[WORK] == Q.Outside(Exited)
       case JoinNetwork => s.q.threads[NETWORK] == Q.Outside(Exited)
       case Exited => false
       case Stopped => false
       case _ => true)
    case _ => Q.Next(s.q, k).Some?
  }

  /** The step it makes: process() puts nothing, say, and what is put is item 0. */
  function Go(s: State, k: nat): State
    requires k < |s.q.threads| && |s.q.threads| > MAIN && CanStep(s, k)
  {
    match s.q.threads[k]
    case Returned(result, _) => Moved(s, k, Q.Outside(if result.Some? then WantApi(Work(result.value)) else Exited))
    case Outside(at) =>
      (match at
       case Fetch => Moved(s, k, Q.GetLock(Fetch))
       case WantApi(role) => Moved(s, k, Q.Outside(InApi(role, 0))).(api := Some(k))
       case InApi(role, calls) =>
         if calls == 0 then Moved(s, k, Q.Outside(AfterApi(role))).(api := None)
         else Moved(s, k, Q.PutLock(0, InApi(role, calls - 1)))
       case Pause => Moved(s, k, Q.Outside(CheckFlag))
       case CheckFlag => Moved(s, k, Q.Outside(if s.flag then Exited else WantApi(Network)))
       case Running => Moved(s, k, Q.Outside(Signalled)).(flag := true)
       case Signalled => Moved(s, k, Q.StopLock(JoinWork))
       case JoinWork => Moved(s, k, Q.Outside(JoinNetwork))
       case JoinNetwork => Moved(s, k, Q.Outside(Stopped))
       case Produce => Moved(s, k, Q.PutLock(0, Produce))
       case _ => s)
    case _ => s.(q := Q.Next(s.q, k).value)
  }

  lemma GoIsStep(s: State, k: nat)
    requires Threads(s) && k < |s.q.threads| && CanStep(s, k)
    ensures Step(s, Go(s, k), k)
  {
    hide Q.Next;
    assert Fits(k, s.q.threads[k]);
  }

  lemma StepWasPossible(s: State, s': State, k: nat)
    requires Threads(s) && Step(s, s', k)
    ensures CanStep(s, k)
  {
    hide Q.Woken;
    assert Fits(k, s.q.threads[k]);
  }

  /** Being able to go on means just that: there is a step. */
  lemma CanStepIffStep(s: State, k: nat)
    requires |s.q.threads| > MAIN && Threads(s) && k < |s.q.threads|
    ensures CanStep(s, k) <==> exists s' :: Step(s, s', k)
  {
    hide Step, CanStep, Threads, Go;
    if CanStep(s, k) { GoIsStep(s, k); }
    if s' :| Step(s, s', k) { StepWasPossible(s, s', k); }
  }

  /**
   * No lock cycle. A thread that cannot go on has returned, waits in a join, waits for the queue's mutex whose
   * holder can go on, or waits for the API mutex whose holder can go on or waits for the queue's mutex in turn.
   * In particular the holder of the queue's mutex never waits for the API mutex.
   */
  lemma NoLockCycle(s: State, k: nat)
    requires Inv(s) && k < |s.q.threads| && !CanStep(s, k)
    ensures var p := s.q.threads[k];
            || p == Q.Outside(Exited) || p == Q.Outside(Stopped)
            || p == Q.Outside(JoinWork) || p == Q.Outside(JoinNetwork)
            || (p.WantsLock() && HolderCanStep(s))
            || (p.Outside? && p.at.WantApi? && s.api.Some? && s.api.value < |s.q.threads|
                && (CanStep(s, s.api.value) || (s.q.threads[s.api.value].WantsLock() && HolderCanStep(s))))
  {
    hide Stopping, Q.Fifo, Q.NoLostWakeup;
    assert Fits(k, s.q.threads[k]);
    if !s.q.threads[k].Outside? {
      Waits(s, k);
    } else if s.api.Some? {
      var j := s.api.value;
      assert InsideApi(s.q.threads[j]) <==> s.api == Some(j);
      if !CanStep(s, j) { Waits(s, j); }
    }
  }

  ghost predicate HolderCanStep(s: State)
    requires |s.q.threads| > MAIN
  {
    && s.q.holder.Some? && s.q.holder.value < |s.q.threads| && CanStep(s, s.q.holder.value)
    && s.q.threads[s.q.holder.value].Critical() && !s.q.threads[s.q.holder.value].Outside?
  }

  /** Inside the queue a thread waits only for the mutex, and its holder can go on. */
  lemma Waits(s: State, k: nat)
    requires Inv(s) && k < |s.q.threads| && !CanStep(s, k) && !s.q.threads[k].Outside?
    ensures s.q.threads[k].WantsLock() && HolderCanStep(s)
  {
    hide Stopping, ApiExclusive, Q.Fifo, Q.NoLostWakeup, Q.Woken, Fits;
    assert s.q.threads[k].Critical() <==> s.q.holder == Some(k);
    HolderSteps(s);
  }

  lemma HolderSteps(s: State)
    requires Inv(s) && s.q.holder.Some?
    ensures HolderCanStep(s)
  {
    hide Stopping, ApiExclusive, Q.Fifo, Q.NoLostWakeup, Q.Woken, Fits;
    var j := s.q.holder.value;
    assert s.q.threads[j].Critical() <==> s.q.holder == Some(j);
  }

  // ----- after the stop -----

  /** shutdown() has set the flag and woken everybody. */
  ghost predicate StopSignalled(s: State) {
    Inv(s) && HasSignalled(s.q.threads[MAIN])
  }

  lemma StopStaysSignalled(s: State, s': State, k: nat)
    requires StopSignalled(s) && Step(s, s', k)
    ensures StopSignalled(s')
  {
    InvKept(s, s', k);
    SameCount(s, s', k);
    if k == MAIN { MainCameFrom(s, s'); MainGoesOn(s, s'); } else { OthersStay(s, s', k, MAIN); }
    hide Step, Inv;
  }

  lemma MainGoesOn(s: State, s': State)
    requires Threads(s) && Step(s, s', MAIN) && |s'.q.threads| == |s.q.threads| && HasSignalled(s.q.threads[MAIN])
    ensures HasSignalled(s'.q.threads[MAIN])
  {
    MoverGoes(s, s', MAIN);
    hide Step;
  }

  /** How often a thread still has to pass the API mutex, and how far it is from there. */
  function Phase(p: Place): nat {
    if (p.GetUnlock? || p.Returned?) && p.result.Some? then 3
    else if p.Outside? && p.at.WantApi? then 3
    else if InsideApi(p) then 2
    else 1
  }

  function CallsLeft(back: Local): nat { if back.InApi? then back.calls else 0 }

  function Distance(p: Place): nat {
    match p
    case Outside(at) =>
      (match at
       case Fetch => 9
       case WantApi(_) => 3
       case InApi(_, calls) => 6 * calls + 1
       case Pause => 2
       case CheckFlag => 1
       case JoinWork => 2
       case JoinNetwork => 1
       case _ => 0)
    case PutLock(_, back) => 6 * CallsLeft(back) + 5
    case PutPush(_, back) => 6 * CallsLeft(back) + 4
    case PutNotify(back) => 6 * CallsLeft(back) + 3
    case PutUnlock(back) => 6 * CallsLeft(back) + 2
    case GetTest(_) => 7
    case GetTake(_) => 6
    case GetUnlock(_, _) => 5
    case Returned(_, _) => 4
    case StopUnlock(_) => 3
    case _ => 8
  }

  predicate Nearer(p: Place, p': Place) {
    Phase(p') < Phase(p) || (Phase(p') == Phase(p) && Distance(p') < Distance(p))
  }

  /** Once the stop has signalled, every step of a worker or of the main thread brings it nearer to its end. */
  lemma StepIsNearer(s: State, s': State, k: nat)
    requires StopSignalled(s) && Step(s, s', k) && k <= MAIN && |s'.q.threads| == |s.q.threads|
    ensures Nearer(s.q.threads[k], s'.q.threads[k])
  {
    MoverGoes(s, s', k);
    assert Fits(k, s.q.threads[k]);
    Decided(s, s', k);
    PlaceNearer(k, s.q.threads[k], s'.q.threads[k]);
  }

  /** With both flags set, no test sends a thread back to work. */
  predicate Ends(p: Place, p': Place) {
    && (p.GetTest? ==> p'.GetTake?)
    && (p.GetTake? ==> p'.GetUnlock? && p'.result == None)
    && (p == Q.Outside(CheckFlag) ==> p' == Q.Outside(Exited))
    && !p.Asleep?
  }

  lemma Decided(s: State, s': State, k: nat)
    requires StopSignalled(s) && Step(s, s', k) && k <= MAIN && |s'.q.threads| == |s.q.threads|
    ensures Ends(s.q.threads[k], s'.q.threads[k])
  {
    assert Fits(k, s.q.threads[k]);
    hide Q.Woken, Q.Inv, Threads, ApiExclusive;
  }

  lemma PlaceNearer(k: nat, p: Place, p': Place)
    requires k <= MAIN && Fits(k, p) && (k == MAIN ==> HasSignalled(p))
    requires (Departs(p, p') || Q.Follows(p, p')) && Ends(p, p')
    ensures Nearer(p, p')
  {
    if Departs(p, p') { DepartsNearer(k, p, p'); } else { FollowsNearer(k, p, p'); }
    hide Fits, Departs, Q.Follows, Ends, Nearer;
  }

  lemma DepartsNearer(k: nat, p: Place, p': Place)
    requires k <= MAIN && Fits(k, p) && (k == MAIN ==> HasSignalled(p)) && Departs(p, p') && Ends(p, p')
    ensures Nearer(p, p')
  {
  }

  lemma FollowsNearer(k: nat, p: Place, p': Place)
    requires k <= MAIN && Fits(k, p) && (k == MAIN ==> HasSignalled(p)) && Q.Follows(p, p') && Ends(p, p')
    ensures Nearer(p, p')
  {
  }

  function Phases(s: State): nat
    requires |s.q.threads| > MAIN
  {
    Phase(s.q.threads[WORK]) + Phase(s.q.threads[NETWORK]) + Phase(s.q.threads[MAIN])
  }

  function Distances(s: State): nat
    requires |s.q.threads| > MAIN
  {
    Distance(s.q.threads[WORK]) + Distance(s.q.threads[NETWORK]) + Distance(s.q.threads[MAIN])
  }

  /** The measure: steps of the three threads make it smaller, those of other threads leave it alone. */
  lemma MeasureShrinks(s: State, s': State, k: nat)
    requires StopSignalled(s) && Step(s, s', k)
    ensures |s'.q.threads| == |s.q.threads|
    ensures k <= MAIN ==> Phases(s') < Phases(s) || (Phases(s') == Phases(s) && Distances(s') < Distances(s))
    ensures k > MAIN ==> Phases(s') == Phases(s) && Distances(s') == Distances(s)
  {
    SameCount(s, s', k);
    if k <= MAIN { StepIsNearer(s, s', k); }
    if k != WORK { OthersStay(s, s', k, WORK); }
    if k != NETWORK { OthersStay(s, s', k, NETWORK); }
    if k != MAIN { OthersStay(s, s', k, MAIN); }
    hide Step, Distance, Phase, Q.Inv, Threads, ApiExclusive;
  }

  ghost predicate JoinsReturned(s: State) {
    |s.q.threads| > MAIN && s.q.threads[MAIN] == Q.Outside(Stopped)
  }

  lemma SomeoneCanGo(s: State)
    requires StopSignalled(s) && !JoinsReturned(s)
    ensures (exists k :: 0 <= k <= MAIN && CanStep(s, k)) || (HolderCanStep(s) && s.q.holder.value > MAIN)
  {
    if forall k :: 0 <= k <= MAIN ==> !CanStep(s, k) {
      if s.api.Some? { ApiHolderIsWorker(s); }
      NoLockCycle(s, WORK);
      NoLockCycle(s, NETWORK);
      NoLockCycle(s, MAIN);
      assert Fits(WORK, s.q.threads[WORK]) && Fits(NETWORK, s.q.threads[NETWORK]);
      hide Q.Inv, Threads, ApiExclusive, Q.Next;
    }
  }

  lemma ApiHolderIsWorker(s: State)
    requires Inv(s) && s.api.Some?
    ensures s.api.value < MAIN
  {
    var j := s.api.value;
    assert InsideApi(s.q.threads[j]) <==> s.api == Some(j);
    assert Fits(j, s.q.threads[j]);
  }

  // ----- infinite schedules -----

  /** A step of thread `k`, or, when `k` is no thread, nothing at all. */
  predicate Turn(s: State, s': State, k: nat) {
    if k < |s.q.threads| then Step(s, s', k) else s' == s
  }

  /** An infinite run and the thread, if any, that makes each step. */
  ghost predicate Schedule(f: nat -> State, who: nat -> nat) {
    forall n: nat {:trigger who(n)} :: Turn(f(n), f(n + 1), who(n))
  }

  /** Strong fairness: from any point on, a thread either steps again or is, from some point on, never able to. */
  ghost predicate Fair(f: nat -> State, who: nat -> nat) {
    forall k: nat, n: nat {:trigger Treated(f, who, k, n)} :: k < |f(0).q.threads| ==> Treated(f, who, k, n)
  }

  ghost predicate Treated(f: nat -> State, who: nat -> nat, k: nat, n: nat) {
    (exists m: nat :: n <= m && who(m) == k) || (exists m: nat :: n <= m && DisabledFrom(f, k, m))
  }

  ghost predicate DisabledFrom(f: nat -> State, k: nat, m: nat) {
    forall l: nat :: m <= l ==> !CanStepAt(f(l), k)
  }

  ghost predicate CanStepAt(s: State, k: nat) {
    |s.q.threads| > MAIN && k < |s.q.threads| && CanStep(s, k)
  }

  /** From the signal on: it stays, and the measure never grows. */
  lemma {:induction false} Later(f: nat -> State, who: nat -> nat, n: nat, m: nat)
    requires Schedule(f, who) && StopSignalled(f(n)) && n <= m
    ensures StopSignalled(f(m)) && |f(m).q.threads| == |f(n).q.threads|
    ensures Phases(f(m)) < Phases(f(n)) || (Phases(f(m)) == Phases(f(n)) && Distances(f(m)) <= Distances(f(n)))
    decreases m - n
  {
    hide Step, StopSignalled, Phases, Distances;
    if n < m {
      Later(f, who, n, m - 1);
      assert Turn(f(m - 1), f(m - 1 + 1), who(m - 1));
      if who(m - 1) >= |f(m - 1).q.threads| { return; }
      StopStaysSignalled(f(m - 1), f(m), who(m - 1));
      MeasureShrinks(f(m - 1), f(m), who(m - 1));
    }
  }

  lemma EnoughThreads(s: State)
    requires StopSignalled(s)
    ensures |s.q.threads| > MAIN
  {
  }

  /** After the signal, the workers and the main thread make only finitely many steps, whatever the schedule. */
  lemma {:induction false} FinallyQuiet(f: nat -> State, who: nat -> nat, n: nat) returns (quiet: nat)
    requires Schedule(f, who) && StopSignalled(f(n))
    ensures n <= quiet && forall m :: quiet <= m ==> who(m) > MAIN
    decreases Phases(f(n)), Distances(f(n))
  {
    hide Step, StopSignalled, Phases, Distances;
    if m: nat :| n <= m && who(m) <= MAIN {
      Later(f, who, n, m);
      assert Turn(f(m), f(m + 1), who(m));
      EnoughThreads(f(m));
      MeasureShrinks(f(m), f(m + 1), who(m));
      StopStaysSignalled(f(m), f(m + 1), who(m));
      quiet := FinallyQuiet(f, who, m + 1);
    } else {
      quiet := n;
    }
  }

  /** While a thread holds the queue's mutex and does not step, it keeps it. */
  lemma HolderStays(s: State, s': State, k: nat, j: nat)
    requires Inv(s) && Step(s, s', k) && s.q.holder == Some(j) && k != j
    ensures |s'.q.threads| == |s.q.threads| && j < |s.q.threads|
    ensures s'.q.holder == Some(j) && s'.q.threads[j] == s.q.threads[j]
  {
    SameCount(s, s', k);
    assert s.q.threads[j].Critical() <==> s.q.holder == Some(j);
    assert s.q.threads[k].Critical() <==> s.q.holder == Some(k);
    OthersStay(s, s', k, j);
    hide Q.Woken, Threads, ApiExclusive, Stopping, Q.Fifo, Q.NoLostWakeup, Q.Tested;
  }

  lemma {:induction false} HeldUntil(f: nat -> State, who: nat -> nat, n: nat, m: nat, j: nat)
    requires Schedule(f, who) && Inv(f(n)) && n <= m && f(n).q.holder == Some(j)
    requires forall l :: n <= l < m ==> who(l) != j
    ensures Inv(f(m)) && f(m).q.holder == Some(j) && j < |f(m).q.threads| == |f(n).q.threads|
    ensures f(m).q.threads[j] == f(n).q.threads[j]
    decreases m - n
  {
    hide Step;
    if n == m {
      hide Threads, ApiExclusive, Stopping;
    } else {
      hide Inv;
      HeldUntil(f, who, n, m - 1, j);
      assert Turn(f(m - 1), f(m - 1 + 1), who(m - 1));
      if who(m - 1) >= |f(m - 1).q.threads| { return; }
      HolderStays(f(m - 1), f(m), who(m - 1), j);
      InvKept(f(m - 1), f(m), who(m - 1));
    }
  }

  lemma FirstStep(who: nat -> nat, n: nat, m: nat, j: nat) returns (first: nat)
    requires n <= m && who(m) == j
    ensures n <= first <= m && who(first) == j && forall l :: n <= l < first ==> who(l) != j
  {
    first := n;
    while who(first) != j
      invariant n <= first <= m && forall l :: n <= l < first ==> who(l) != j
      decreases m - first
    {
      first := first + 1;
    }
  }

  /** How far a thread in the critical section is from its end. */
  function ToLeave(p: Place): nat {
    if p.PutPush? || p.GetTest? || p.StopSet? then 3
    else if p.PutNotify? || p.GetTake? || p.StopNotify? then 2
    else 1
  }

  /** The holder's own step: it is still inside, one place further, or it has let go. */
  lemma HolderGoesOn(s: State, s': State, j: nat)
    requires Inv(s) && Step(s, s', j) && s.q.holder == Some(j) && |s'.q.threads| == |s.q.threads|
    ensures s'.q.holder == None || (s'.q.holder == Some(j) && ToLeave(s'.q.threads[j]) < ToLeave(s.q.threads[j]))
  {
    assert s.q.threads[j].Critical() <==> s.q.holder == Some(j);
    hide Q.Woken, Threads, ApiExclusive, Stopping, Q.Fifo, Q.NoLostWakeup, Q.Tested;
  }

  /** Under a fair schedule whoever holds the queue's mutex lets it go. */
  lemma {:induction false} HolderLeaves(f: nat -> State, who: nat -> nat, n: nat, j: nat) returns (m: nat)
    requires Schedule(f, who) && Fair(f, who) && Inv(f(n)) && f(n).q.holder == Some(j)
    requires j < |f(n).q.threads| == |f(0).q.threads|
    ensures n <= m && Inv(f(m)) && f(m).q.holder == None
    decreases ToLeave(f(n).q.threads[j])
  {
    hide Step, Inv, ToLeave, CanStep;
    var first := HolderWillStep(f, who, n, j);
    HeldUntil(f, who, n, first, j);
    assert Turn(f(first), f(first + 1), who(first));
    SameCount(f(first), f(first + 1), j);
    HolderGoesOn(f(first), f(first + 1), j);
    InvKept(f(first), f(first + 1), j);
    if f(first + 1).q.holder == None {
      m := first + 1;
    } else {
      m := HolderLeaves(f, who, first + 1, j);
    }
  }

  lemma HolderWillStep(f: nat -> State, who: nat -> nat, n: nat, j: nat) returns (first: nat)
    requires Schedule(f, who) && Fair(f, who) && Inv(f(n)) && f(n).q.holder == Some(j)
    requires j < |f(n).q.threads| == |f(0).q.threads|
    ensures n <= first && who(first) == j && forall l :: n <= l < first ==> who(l) != j
  {
    hide Step, Inv, CanStep, HolderCanStep;
    assert Treated(f, who, j, n);
    var m: nat;
    if m' : nat :| n <= m' && who(m') == j {
      m := m';
    } else {
      var d: nat :| n <= d && DisabledFrom(f, j, d);
      HeldUntil(f, who, n, d, j);
      HolderEnabled(f(d));
      assert false;
    }
    first := FirstStep(who, n, m, j);
  }

  lemma HolderEnabled(s: State)
    requires Inv(s) && s.q.holder.Some?
    ensures s.q.holder.value < |s.q.threads| && CanStepAt(s, s.q.holder.value)
  {
    HolderSteps(s);
    hide Q.Inv, ApiExclusive, Stopping;
  }

  lemma InvHasMain(s: State)
    requires Inv(s)
    ensures |s.q.threads| > MAIN && Threads(s)
  {
  }

  /** The main thread stays where it is while it does not step: nobody else moves it. */
  lemma {:induction false} MainWaits(f: nat -> State, who: nat -> nat, n: nat, m: nat)
    requires Schedule(f, who) && Inv(f(n)) && n <= m && forall l :: n <= l < m ==> who(l) != MAIN
    ensures Inv(f(m)) && MAIN < |f(m).q.threads| == |f(n).q.threads| && f(m).q.threads[MAIN] == f(n).q.threads[MAIN]
    decreases m - n
  {
    hide Step, Inv, Threads;
    InvHasMain(f(n));
    if n < m {
      MainWaits(f, who, n, m - 1);
      assert Turn(f(m - 1), f(m - 1 + 1), who(m - 1));
      if who(m - 1) >= |f(m - 1).q.threads| { return; }
      InvHasMain(f(m - 1));
      InvKept(f(m - 1), f(m), who(m - 1));
      SameCount(f(m - 1), f(m), who(m - 1));
      OthersStay(f(m - 1), f(m), who(m - 1), MAIN);
    }
  }

  /** After the signal a stop that has not come to its end goes on waiting while the main thread does not step. */
  lemma StillWaiting(f: nat -> State, who: nat -> nat, n: nat, m: nat)
    requires Schedule(f, who) && StopSignalled(f(n)) && !JoinsReturned(f(n)) && n <= m
    requires forall l :: n <= l ==> who(l) > MAIN
    ensures Inv(f(m)) && StopSignalled(f(m)) && !JoinsReturned(f(m)) && |f(m).q.threads| == |f(n).q.threads|
  {
    hide Step, Inv, HasSignalled, Phases, Distances;
    MainWaits(f, who, n, m);
    Later(f, who, n, m);
  }

  lemma WorkersDisabled(f: nat -> State, who: nat -> nat, n: nat, k: nat) returns (m: nat)
    requires Fair(f, who) && (forall l :: n <= l ==> who(l) > MAIN) && k <= MAIN && |f(0).q.threads| > MAIN
    ensures n <= m && DisabledFrom(f, k, m)
  {
    assert Treated(f, who, k, n);
    m :| n <= m && DisabledFrom(f, k, m);
  }

  /** When nobody else can go on, it is a producer that holds the queue's mutex. */
  lemma ProducerHolds(s: State)
    requires StopSignalled(s) && !JoinsReturned(s) && forall k :: 0 <= k <= MAIN ==> !CanStepAt(s, k)
    ensures s.q.holder.Some? && MAIN < s.q.holder.value < |s.q.threads|
  {
    SomeoneCanGo(s);
    hide Inv, CanStep;
    assert forall k :: 0 <= k <= MAIN ==> (CanStepAt(s, k) <==> CanStep(s, k));
  }

  /**
   * Once the stop has signalled, under any fair schedule and however many others keep putting work, both
   * workers exit and both joins return.
   */
  lemma BothJoinsReturn(f: nat -> State, who: nat -> nat, n: nat) returns (end: nat)
    requires Schedule(f, who) && Fair(f, who) && StopSignalled(f(n)) && |f(n).q.threads| == |f(0).q.threads|
    ensures n <= end && JoinsReturned(f(end))
    ensures f(end).q.threads[WORK] == Q.Outside(Exited) && f(end).q.threads[NETWORK] == Q.Outside(Exited)
  {
    hide Step, Phases, Distances, HasSignalled, CanStep, DisabledFrom, CanStepAt;
    end := FinallyQuiet(f, who, n);
    Later(f, who, n, end);
    if !JoinsReturned(f(end)) {
      var a := WorkersDisabled(f, who, end, WORK);
      var b := WorkersDisabled(f, who, end, NETWORK);
      var c := WorkersDisabled(f, who, end, MAIN);
      var m := if a <= b <= c then c else if a <= b then (if b <= c then c else b) else if a <= c then c else a;
      NobodyCan(f, a, b, c, m);
      StillWaiting(f, who, end, m);
      ProducerHolds(f(m));
      var free := HolderLeaves(f, who, m, f(m).q.holder.value);
      NobodyCan(f, a, b, c, free);
      StillWaiting(f, who, end, free);
      ProducerHolds(f(free));
      assert false;
    }
  }

  lemma NobodyCan(f: nat -> State, a: nat, b: nat, c: nat, m: nat)
    requires DisabledFrom(f, WORK, a) && DisabledFrom(f, NETWORK, b)
    requires DisabledFrom(f, MAIN, c) && a <= m && b <= m && c <= m
    ensures forall k :: 0 <= k <= MAIN ==> !CanStepAt(f(m), k)
  {
    hide CanStepAt;
    assert !CanStepAt(f(m), WORK) && !CanStepAt(f(m), NETWORK) && !CanStepAt(f(m), MAIN);
  }

  // ----- the stop from its start -----

  /** How far the main thread is from having woken everybody. */
  function ToSignal(p: Place): nat {
    if p == Q.Outside(Running) then 5
    else if p == Q.Outside(Signalled) then 4
    else if p.StopLock? then 3
    else if p.StopSet? then 2
    else if p.StopNotify? then 1
    else 0
  }

  lemma MainNearsSignal(s: State, s': State)
    requires Threads(s) && Step(s, s', MAIN) && |s'.q.threads| == |s.q.threads| && !HasSignalled(s.q.threads[MAIN])
    ensures ToSignal(s'.q.threads[MAIN]) < ToSignal(s.q.threads[MAIN])
  {
    MoverGoes(s, s', MAIN);
    assert Fits(MAIN, s.q.threads[MAIN]);
    hide Step;
  }

  /** Before that, the main thread waits for nothing but the queue's mutex. */
  lemma OnlyTheLock(s: State)
    requires Inv(s) && !HasSignalled(s.q.threads[MAIN]) && !CanStepAt(s, MAIN)
    ensures s.q.holder.Some? && s.q.holder.value < |s.q.threads|
  {
    assert Fits(MAIN, s.q.threads[MAIN]);
    hide Stopping, ApiExclusive, Q.Fifo, Q.NoLostWakeup;
  }

  /** Under a fair schedule the main thread steps again as long as it has not woken everybody. */
  lemma MainWillStep(f: nat -> State, who: nat -> nat, n: nat) returns (first: nat)
    requires Schedule(f, who) && Fair(f, who) && Inv(f(n)) && |f(n).q.threads| == |f(0).q.threads|
    requires !HasSignalled(f(n).q.threads[MAIN])
    ensures n <= first && who(first) == MAIN && forall l :: n <= l < first ==> who(l) != MAIN
  {
    hide Step, Inv, HasSignalled, CanStepAt, Threads;
    InvHasMain(f(n));
    assert Treated(f, who, MAIN, n);
    var m: nat;
    if m' : nat :| n <= m' && who(m') == MAIN {
      m := m';
    } else {
      var d: nat :| n <= d && DisabledFrom(f, MAIN, d);
      MainWaits(f, who, n, d);
      OnlyTheLock(f(d));
      var free := HolderLeaves(f, who, d, f(d).q.holder.value);
      MainWaits(f, who, n, free);
      OnlyTheLock(f(free));
      assert false;
    }
    first := FirstStep(who, n, m, MAIN);
  }

  /** Under a fair schedule the main thread gets through shutdown(). */
  lemma {:induction false} MainSignals(f: nat -> State, who: nat -> nat, n: nat) returns (m: nat)
    requires Schedule(f, who) && Fair(f, who) && Inv(f(n)) && |f(n).q.threads| == |f(0).q.threads|
    ensures n <= m && StopSignalled(f(m)) && |f(m).q.threads| == |f(0).q.threads|
    decreases ToSignal(f(n).q.threads[MAIN])
  {
    hide Step, Inv, HasSignalled, ToSignal, Threads;
    InvHasMain(f(n));
    m := n;
    if !HasSignalled(f(n).q.threads[MAIN]) {
      var first := MainWillStep(f, who, n);
      MainWaits(f, who, n, first);
      assert Turn(f(first), f(first + 1), who(first));
      InvHasMain(f(first));
      InvKept(f(first), f(first + 1), MAIN);
      SameCount(f(first), f(first + 1), MAIN);
      MainNearsSignal(f(first), f(first + 1));
      m := MainSignals(f, who, first + 1);
    }
  }

  /**
   * From the start of the threads on, with any number of others putting work: under every fair schedule the main
   * thread gets through stopping, both workers exit, and both joins return.
   */
  lemma StopWorks(f: nat -> State, who: nat -> nat) returns (end: nat)
    requires Schedule(f, who) && Fair(f, who) && Starts(f(0))
    ensures JoinsReturned(f(end))
    ensures f(end).q.threads[WORK] == Q.Outside(Exited) && f(end).q.threads[NETWORK] == Q.Outside(Exited)
  {
    hide Step, Inv, Starts, StopSignalled;
    InvStarts(f(0));
    var n := MainSignals(f, who, 0);
    end := BothJoinsReturn(f, who, n);
  }
}
