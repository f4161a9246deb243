/**
 * The bridging work queue as a state machine: any number of threads inside `put`, `get` and `shutdown`,
 * one mutex, one condition variable, spurious wakeups included.
 */
module WorkQueue {
  import opened Bytes

  /**
   * Where a thread is. Outside the queue it is at `at`, which is the caller's business; every other place
   * remembers where the caller goes on.
   */
  datatype Place<T, K> =
    | Outside(at: K)
    | PutLock(item: T, back: K) | PutPush(item: T, back: K) | PutNotify(back: K) | PutUnlock(back: K)
    | GetLock(back: K) | GetTest(back: K) | Asleep(back: K) | GetRelock(back: K) | GetTake(back: K)
    | GetUnlock(result: Option<T>, back: K) | Returned(result: Option<T>, back: K)
    | StopLock(back: K) | StopSet(back: K) | StopNotify(back: K) | StopUnlock(back: K)
  {
    /** The thread owns the queue's mutex. */
    predicate Critical() {
      PutPush? || PutNotify? || PutUnlock? || GetTest? || GetTake? || GetUnlock?
      || StopSet? || StopNotify? || StopUnlock?
    }

    /** The thread waits for the queue's mutex. */
    predicate WantsLock() { PutLock? || GetLock? || GetRelock? || StopLock? }

    predicate AboutToNotify() { PutNotify? || StopNotify? }
  }

  /** `put` and `got` are histories: everything pushed, and everything popped, in order. */
  datatype State<T, K> = State(threads: seq<Place<T, K>>, holder: Option<nat>, queue: seq<T>, shut: bool,
                               put: seq<T>, got: seq<T>)

  function Init<T, K>(threads: seq<Place<T, K>>): State<T, K> {
    State(threads, None, [], false, [], [])
  }

  /** notify_all: every sleeper goes on to take the mutex again. */
  function Woken<T, K>(threads: seq<Place<T, K>>): (r: seq<Place<T, K>>)
    ensures |r| == |threads|
    ensures forall j :: 0 <= j < |threads| ==>
              r[j] == if threads[j].Asleep? then GetRelock(threads[j].back) else threads[j]
  {
    seq(|threads|, j requires 0 <= j < |threads| =>
          if threads[j].Asleep? then GetRelock(threads[j].back) else threads[j])
  }

  function At<T, K>(s: State<T, K>, k: nat, place: Place<T, K>): State<T, K>
    requires k < |s.threads|
  {
    s.(threads := s.threads[k := place])
  }

  /** What thread `k` does next inside the queue, if it can. */
  function Next<T, K>(s: State<T, K>, k: nat): Option<State<T, K>>
    requires k < |s.threads|
  {
    match s.threads[k]
    case PutLock(item, back) => if s.holder.None? then Some(At(s, k, PutPush(item, back)).(holder := Some(k))) else None
    case PutPush(item, back) => Some(At(s, k, PutNotify(back)).(queue := s.queue + [item], put := s.put + [item]))
    case PutNotify(back) => Some(At(s.(threads := Woken(s.threads)), k, PutUnlock(back)))
    case PutUnlock(back) => Some(At(s, k, Outside(back)).(holder := None))
    case GetLock(back) => if s.holder.None? then Some(At(s, k, GetTest(back)).(holder := Some(k))) else None
    case GetTest(back) =>
      if |s.queue| > 0 || s.shut then Some(At(s, k, GetTake(back))) else Some(At(s, k, Asleep(back)).(holder := None))
    case Asleep(back) => Some(At(s, k, GetRelock(back)))
    case GetRelock(back) => if s.holder.None? then Some(At(s, k, GetTest(back)).(holder := Some(k))) else None
    case GetTake(back) =>
      if s.shut then Some(At(s, k, GetUnlock(None, back)))
      else if s.queue == [] then None
      else Some(At(s, k, GetUnlock(Some(s.queue[0]), back)).(queue := s.queue[1..], got := s.got + [s.queue[0]]))
    case GetUnlock(result, back) => Some(At(s, k, Returned(result, back)).(holder := None))
    case StopLock(back) => if s.holder.None? then Some(At(s, k, StopSet(back)).(holder := Some(k))) else None
    case StopSet(back) => Some(At(s, k, StopNotify(back)).(shut := true))
    case StopNotify(back) => Some(At(s.(threads := Woken(s.threads)), k, StopUnlock(back)))
    case StopUnlock(back) => Some(At(s, k, Outside(back)).(holder := None))
    case _ => None
  }

  /** Where a step inside the queue takes the thread that makes it. */
  predicate Follows<T(==), K(==)>(p: Place<T, K>, p': Place<T, K>) {
    match p
    case PutLock(item, back) => p' == PutPush(item, back)
    case PutPush(item, back) => p' == PutNotify(back)
    case PutNotify(back) => p' == PutUnlock(back)
    case PutUnlock(back) => p' == Outside(back)
    case GetLock(back) => p' == GetTest(back)
    case GetTest(back) => p' == GetTake(back) || p' == Asleep(back)
    case Asleep(back) => p' == GetRelock(back)
    case GetRelock(back) => p' == GetTest(back)
    case GetTake(back) => p'.GetUnlock? && p'.back == back
    case GetUnlock(result, back) => p' == Returned(result, back)
    case StopLock(back) => p' == StopSet(back)
    case StopSet(back) => p' == StopNotify(back)
    case StopNotify(back) => p' == StopUnlock(back)
    case StopUnlock(back) => p' == Outside(back)
    case _ => false
  }

  lemma NextFollows<T, K>(s: State<T, K>, k: nat)
    requires k < |s.threads| && Next(s, k).Some?
    ensures |Next(s, k).value.threads| == |s.threads| && Follows(s.threads[k], Next(s, k).value.threads[k])
  {
    hide Woken;
  }

  /** A step of the caller: from outside the queue, or with a result of get, to anywhere else or into an operation. */
  predicate CallerStep<T(==), K(==)>(s: State<T, K>, s': State<T, K>, k: nat)
    requires k < |s.threads|
  {
    && |s'.threads| == |s.threads|
    && (s.threads[k].Outside? || s.threads[k].Returned?)
    && (s'.threads[k].Outside? || s'.threads[k].PutLock? || s'.threads[k].GetLock? || s'.threads[k].StopLock?)
    && s' == At(s, k, s'.threads[k])
  }

  predicate Step<T(==), K(==)>(s: State<T, K>, s': State<T, K>, k: nat) {
    k < |s.threads| && (Next(s, k) == Some(s') || CallerStep(s, s', k))
  }

  ghost predicate Moves<T, K>(s: State<T, K>, s': State<T, K>) {
    exists k: nat :: Step(s, s', k)
  }

  ghost predicate Starts<T, K>(s: State<T, K>) {
    s == Init(s.threads) && forall j :: 0 <= j < |s.threads| ==> s.threads[j].Outside?
  }

  /** A finite run from the start: each state is a step of some thread away from the one before. */
  ghost predicate Run<T, K>(run: seq<State<T, K>>) {
    run != [] && if |run| == 1 then Starts(run[0]) else Run(run[..|run| - 1]) && Moves(run[|run| - 2], run[|run| - 1])
  }

  // ----- the invariant -----

  /** Nothing is lost, invented or reordered. */
  ghost predicate Fifo<T, K>(s: State<T, K>) {
    s.put == s.got + s.queue
  }

  /** The threads in the critical section are exactly the holder. */
  ghost predicate Exclusive<T, K>(s: State<T, K>) {
    && (s.holder.Some? ==> s.holder.value < |s.threads|)
    && forall j :: 0 <= j < |s.threads| ==> (s.threads[j].Critical() <==> s.holder == Some(j))
  }

  /** While somebody sleeps there is nothing to do, unless the holder is about to say so. */
  ghost predicate NoLostWakeup<T, K>(s: State<T, K>) {
    forall j :: 0 <= j < |s.threads| && s.threads[j].Asleep? ==>
      (s.queue == [] && !s.shut)
      || (s.holder.Some? && s.holder.value < |s.threads| && s.threads[s.holder.value].AboutToNotify())
  }

  /** What get found when it tested still holds when it takes. */
  ghost predicate Tested<T, K>(s: State<T, K>) {
    forall j :: 0 <= j < |s.threads| && s.threads[j].GetTake? ==> |s.queue| > 0 || s.shut
  }

  ghost predicate Inv<T, K>(s: State<T, K>) {
    Fifo(s) && Exclusive(s) && NoLostWakeup(s) && Tested(s)
  }

  lemma FifoKept<T, K>(s: State<T, K>, s': State<T, K>, k: nat)
    requires Fifo(s) && Step(s, s', k)
    ensures Fifo(s')
  {
    if s.threads[k].GetTake? && s.queue != [] {
      assert s.queue == [s.queue[0]] + s.queue[1..];
    }
  }

  lemma ExclusiveKept<T, K>(s: State<T, K>, s': State<T, K>, k: nat)
    requires Exclusive(s) && Step(s, s', k)
    ensures Exclusive(s')
  {
    hide Woken;
    assert s.threads[k].Critical() <==> s.holder == Some(k);
    forall j | 0 <= j < |s'.threads| ensures s'.threads[j].Critical() <==> s'.holder == Some(j) {
      OthersStay(s, s', k, j);
    }
  }

  /** Another thread stays where it is, or is woken. */
  lemma OthersStay<T, K>(s: State<T, K>, s': State<T, K>, k: nat, j: nat)
    requires Step(s, s', k) && j < |s.threads|
    ensures |s'.threads| == |s.threads|
    ensures j != k ==> s'.threads[j] == s.threads[j]
                       || (s.threads[j].Asleep? && s.threads[k].AboutToNotify()
                           && s'.threads[j] == GetRelock(s.threads[j].back))
    ensures s.threads[k].AboutToNotify() ==> !s'.threads[j].Asleep?
  {
  }

  lemma NoLostWakeupKept<T, K>(s: State<T, K>, s': State<T, K>, k: nat)
    requires Exclusive(s) && NoLostWakeup(s) && Step(s, s', k)
    ensures NoLostWakeup(s')
  {
    forall j | 0 <= j < |s'.threads| && s'.threads[j].Asleep?
      ensures (s'.queue == [] && !s'.shut)
              || (s'.holder.Some? && s'.holder.value < |s'.threads| && s'.threads[s'.holder.value].AboutToNotify())
    {
      OthersStay(s, s', k, j);
      SleeperTurn(s, s', k, j);
    }
  }

  lemma SleeperTurn<T, K>(s: State<T, K>, s': State<T, K>, k: nat, j: nat)
    requires Exclusive(s) && NoLostWakeup(s) && Step(s, s', k)
    requires j < |s.threads| == |s'.threads| && s'.threads[j].Asleep?
    requires !s.threads[k].AboutToNotify()
    ensures (s'.queue == [] && !s'.shut)
            || (s'.holder.Some? && s'.holder.value < |s'.threads| && s'.threads[s'.holder.value].AboutToNotify())
  {
    hide Woken;
    assert s.threads[k].Critical() <==> s.holder == Some(k);
  }

  lemma TestedKept<T, K>(s: State<T, K>, s': State<T, K>, k: nat)
    requires Exclusive(s) && Tested(s) && Step(s, s', k)
    ensures Tested(s')
  {
    hide Woken;
    forall j | 0 <= j < |s'.threads| && s'.threads[j].GetTake? ensures |s'.queue| > 0 || s'.shut {
      OthersStay(s, s', k, j);
    }
  }

  lemma InvKept<T, K>(s: State<T, K>, s': State<T, K>, k: nat)
    requires Inv(s) && Step(s, s', k)
    ensures Inv(s')
  {
    hide Fifo, Exclusive, NoLostWakeup, Tested, Step;
    FifoKept(s, s', k);
    ExclusiveKept(s, s', k);
    NoLostWakeupKept(s, s', k);
    TestedKept(s, s', k);
  }

  lemma InvStarts<T, K>(s: State<T, K>)
    requires Starts(s)
    ensures Inv(s)
  {
  }

  lemma {:induction false} InvOverRun<T, K>(run: seq<State<T, K>>, i: nat)
    requires Run(run) && i < |run|
    ensures Inv(run[i])
    decreases |run|
  {
    hide Inv, Step, Starts;
    if |run| == 1 {
      InvStarts(run[0]);
    } else if i < |run| - 1 {
      InvOverRun(run[..|run| - 1], i);
    } else {
      InvOverRun(run[..i], i - 1);
      var k: nat :| Step(run[i - 1], run[i], k);
      InvKept(run[i - 1], run[i], k);
    }
  }

  // ----- what it means -----

  /**
   * Over every interleaving: the items put are the items fetched, in order, followed by those still queued;
   * and whenever the mutex is free, a sleeping consumer means an empty queue that is not shut down.
   */
  lemma QueueSafety<T, K>(run: seq<State<T, K>>, i: nat)
    requires Run(run) && i < |run|
    ensures run[i].put == run[i].got + run[i].queue
    ensures run[i].holder.None? && (exists j :: 0 <= j < |run[i].threads| && run[i].threads[j].Asleep?) ==>
              run[i].queue == [] && !run[i].shut
  {
    InvOverRun(run, i);
  }

  /** No two threads are ever in the critical section, and the one that is can always go on. */
  lemma HolderGoesOn<T, K>(run: seq<State<T, K>>, i: nat, j: nat)
    requires Run(run) && i < |run| && j < |run[i].threads| && run[i].threads[j].Critical()
    ensures Next(run[i], j).Some? && forall k :: 0 <= k < |run[i].threads| && run[i].threads[k].Critical() ==> k == j
  {
    InvOverRun(run, i);
    hide Fifo, NoLostWakeup, Woken;
  }

  lemma ShutStays<T, K>(s: State<T, K>, s': State<T, K>, k: nat)
    requires s.shut && Step(s, s', k)
    ensures s'.shut && s'.got == s.got
  {
  }

  /** No get succeeds after the shutdown: nothing is fetched any more. */
  lemma {:induction false} NothingFetchedAfterShutdown<T, K>(run: seq<State<T, K>>, i: nat, j: nat)
    requires Run(run) && i <= j < |run| && run[i].shut
    ensures run[j].shut && run[j].got == run[i].got
    decreases |run|
  {
    hide Step;
    if j < |run| - 1 {
      NothingFetchedAfterShutdown(run[..|run| - 1], i, j);
    } else if i < j {
      NothingFetchedAfterShutdown(run[..j], i, j - 1);
      var k: nat :| Step(run[j - 1], run[j], k);
      ShutStays(run[j - 1], run[j], k);
    }
  }

  // ----- what the callers see: read off the threads' places alone -----

  /** The items that threads got over pushing, between two states. */
  function PushedBetween<T, K>(before: seq<Place<T, K>>, after: seq<Place<T, K>>): seq<T>
    requires |before| == |after|
  {
    if before == [] then []
    else
      (if before[0].PutPush? && after[0].PutNotify? then [before[0].item] else [])
      + PushedBetween(before[1..], after[1..])
  }

  /** The answers with an item that threads were given, between two states. */
  function AnsweredBetween<T, K>(before: seq<Place<T, K>>, after: seq<Place<T, K>>): seq<T>
    requires |before| == |after|
  {
    if before == [] then []
    else
      (if before[0].GetTake? && after[0].GetUnlock? && after[0].result.Some? then [after[0].result.value] else [])
      + AnsweredBetween(before[1..], after[1..])
  }

  ghost function Pushed<T, K>(run: seq<State<T, K>>): seq<T> {
    if |run| < 2 then []
    else
      var s, s' := run[|run| - 2], run[|run| - 1];
      Pushed(run[..|run| - 1]) + (if |s.threads| == |s'.threads| then PushedBetween(s.threads, s'.threads) else [])
  }

  ghost function Answers<T, K>(run: seq<State<T, K>>): seq<T> {
    if |run| < 2 then []
    else
      var s, s' := run[|run| - 2], run[|run| - 1];
      Answers(run[..|run| - 1]) + (if |s.threads| == |s'.threads| then AnsweredBetween(s.threads, s'.threads) else [])
  }

  /** The thread neither got over a push nor got an answer. */
  predicate Idle<T, K>(p: Place<T, K>, p': Place<T, K>) {
    !(p.PutPush? && p'.PutNotify?) && !(p.GetTake? && p'.GetUnlock?)
  }

  lemma {:induction false} NothingBetween<T, K>(a: seq<Place<T, K>>, b: seq<Place<T, K>>)
    requires |a| == |b| && forall j :: 0 <= j < |a| ==> Idle(a[j], b[j])
    ensures PushedBetween(a, b) == [] && AnsweredBetween(a, b) == []
  {
    if a != [] {
      assert Idle(a[0], b[0]);
      assert forall j :: 0 <= j < |a| - 1 ==> Idle(a[1..][j], b[1..][j]) by {
        forall j | 0 <= j < |a| - 1 ensures Idle(a[1..][j], b[1..][j]) { assert Idle(a[j + 1], b[j + 1]); }
      }
      NothingBetween(a[1..], b[1..]);
    }
  }

  /** When one thread moves, what happened is what happened to it. */
  lemma {:induction false} OneBetween<T, K>(a: seq<Place<T, K>>, b: seq<Place<T, K>>, k: nat)
    requires k < |a| == |b| && forall j :: 0 <= j < |a| && j != k ==> Idle(a[j], b[j])
    ensures PushedBetween(a, b) == if a[k].PutPush? && b[k].PutNotify? then [a[k].item] else []
    ensures AnsweredBetween(a, b) ==
            if a[k].GetTake? && b[k].GetUnlock? && b[k].result.Some? then [b[k].result.value] else []
  {
    var x, y := a[1..], b[1..];
    forall j | 0 <= j < |x| && j + 1 != k ensures Idle(x[j], y[j]) { assert Idle(a[j + 1], b[j + 1]); }
    if k == 0 {
      NothingBetween(x, y);
    } else {
      assert Idle(a[0], b[0]);
      OneBetween(x, y, k - 1);
    }
  }

  /** The step puts into the queue what the thread pushes, and gives the thread what it takes from the queue. */
  lemma StepSeen<T, K>(s: State<T, K>, s': State<T, K>, k: nat)
    requires Step(s, s', k) && Tested(s)
    ensures |s'.threads| == |s.threads|
    ensures s.queue + PushedBetween(s.threads, s'.threads) == AnsweredBetween(s.threads, s'.threads) + s'.queue
  {
    forall j | 0 <= j < |s.threads|
      ensures |s'.threads| == |s.threads| && (j != k ==> Idle(s.threads[j], s'.threads[j]))
    {
      OthersStay(s, s', k, j);
    }
    OneBetween(s.threads, s'.threads, k);
    hide PushedBetween, AnsweredBetween, Idle, Step, Tested;
    MoverSeen(s, s', k);
  }

  /** The same of the thread that moves. */
  lemma MoverSeen<T, K>(s: State<T, K>, s': State<T, K>, k: nat)
    requires Step(s, s', k) && Tested(s) && |s'.threads| == |s.threads|
    ensures var p, p' := s.threads[k], s'.threads[k];
            s.queue + (if p.PutPush? && p'.PutNotify? then [p.item] else []) ==
            (if p.GetTake? && p'.GetUnlock? && p'.result.Some? then [p'.result.value] else []) + s'.queue
  {
    hide Woken;
    if s.threads[k].GetTake? && s.queue != [] { assert s.queue == [s.queue[0]] + s.queue[1..]; }
  }

  /**
   * Over every interleaving: the items pushed are the items that calls of `get` answered with, in that order and
   * once each, followed by those still queued.
   */
  lemma {:induction false} AnsweredInOrder<T, K>(run: seq<State<T, K>>, i: nat)
    requires Run(run) && i < |run|
    ensures Pushed(run[..i + 1]) == Answers(run[..i + 1]) + run[i].queue
    decreases i
  {
    hide Step, PushedBetween, AnsweredBetween, Inv;
    RunPrefix(run, i);
    var r := run[..i + 1];
    if i > 0 {
      AnsweredInOrder(run, i - 1);
      assert r[..i] == run[..i];
      RunPrefix(run, i - 1);
      var k: nat :| Step(run[i - 1], run[i], k);
      InvOverRun(run, i - 1);
      assert Tested(run[i - 1]) by { InvTested(run[i - 1]); }
      StepSeen(run[i - 1], run[i], k);
      var p := PushedBetween(run[i - 1].threads, run[i].threads);
      var a := AnsweredBetween(run[i - 1].threads, run[i].threads);
      assert Pushed(r) == Pushed(run[..i]) + p && Answers(r) == Answers(run[..i]) + a;
      var before := Answers(run[..i]);
      assert before + run[i - 1].queue + p == before + (a + run[i].queue);
    } else {
      assert Starts(run[0]);
    }
  }

  lemma InvTested<T, K>(s: State<T, K>)
    requires Inv(s)
    ensures Tested(s)
  {
  }

  lemma {:induction false} RunPrefix<T, K>(run: seq<State<T, K>>, i: nat)
    requires Run(run) && i < |run|
    ensures Run(run[..i + 1])
    ensures if i == 0 then Starts(run[0]) else Moves(run[i - 1], run[i])
    decreases |run|
  {
    hide Starts, Moves;
    if i == |run| - 1 {
      assert run[..i + 1] == run;
      if i == 0 { assert Starts(run[0]); }
    } else {
      var shorter := run[..|run| - 1];
      RunPrefix(shorter, i);
      assert shorter[..i + 1] == run[..i + 1];
    }
  }

  /** A `get` answers without an item exactly when the queue is shut down. */
  lemma NoItemIffShut<T, K>(run: seq<State<T, K>>, i: nat, k: nat)
    requires Run(run) && i + 1 < |run| && k < |run[i].threads| == |run[i + 1].threads|
    requires run[i].threads[k].GetTake? && run[i + 1].threads[k].GetUnlock?
    ensures run[i + 1].threads[k].result.None? <==> run[i].shut
  {
    RunPrefix(run, i + 1);
    hide Run;
    var s, s' := run[i], run[i + 1];
    var m: nat :| Step(s, s', m);
    OthersStay(s, s', m, k);
    hide Woken;
  }

  /** What `get` returns is the answer it was given. */
  lemma AnswerReturned<T, K>(s: State<T, K>, s': State<T, K>, k: nat, m: nat)
    requires Step(s, s', m) && k < |s.threads| && s.threads[k].GetUnlock?
    ensures |s'.threads| == |s.threads|
    ensures s'.threads[k] == s.threads[k] || s'.threads[k] == Returned(s.threads[k].result, s.threads[k].back)
  {
    OthersStay(s, s', m, k);
    hide Woken;
  }
}
