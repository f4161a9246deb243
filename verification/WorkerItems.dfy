/** What the two worker threads do over a run: every item fetched is processed, and nobody exits before the stop. */
module WorkerItems {
  import opened Bytes
  import Q = WorkQueue
  import opened WorkerProtocol

  // ----- every item fetched is processed, once and in order -----

  /** The item the worker has and has yet to process. */
  function Owing(p: Place): seq<Item> {
    if (p.GetUnlock? || p.Returned?) && p.result.Some? then [p.result.value]
    else if p.Outside? && p.at.WantApi? && p.at.role.Work? then [p.at.role.item]
    else []
  }

  /** The item with which the worker goes into process(). */
  function Entered(p: Place, p': Place): seq<Item> {
    if p.Outside? && p.at.WantApi? && p'.Outside? && p'.at.InApi? && p'.at.role.Work? then [p'.at.role.item] else []
  }

  /** The items calls of `get` have answered with. */
  ghost function Fetched(run: seq<State>): seq<Item> {
    if |run| < 2 then []
    else
      var s, s' := run[|run| - 2], run[|run| - 1];
      Fetched(run[..|run| - 1])
      + (if |s.q.threads| == |s'.q.threads| then Q.AnsweredBetween(s.q.threads, s'.q.threads) else [])
  }

  /** The items process() has been called for. */
  ghost function Processed(run: seq<State>): seq<Item> {
    if |run| < 2 then []
    else
      var s, s' := run[|run| - 2], run[|run| - 1];
      Processed(run[..|run| - 1])
      + (if |s.q.threads| > MAIN && |s'.q.threads| > MAIN then Entered(s.q.threads[WORK], s'.q.threads[WORK]) else [])
  }

  /** One step: an answer is an item to process, and going into process() is processing it. */
  lemma StepOwes(s: State, s': State, k: nat)
    requires Inv(s) && Step(s, s', k) && |s'.q.threads| == |s.q.threads|
    ensures Owing(s.q.threads[WORK]) + Q.AnsweredBetween(s.q.threads, s'.q.threads) ==
            Entered(s.q.threads[WORK], s'.q.threads[WORK]) + Owing(s'.q.threads[WORK])
  {
    assert Threads(s);
    forall j | 0 <= j < |s.q.threads| && j != k ensures Q.Idle(s.q.threads[j], s'.q.threads[j]) {
      OthersStay(s, s', k, j);
    }
    Q.OneBetween(s.q.threads, s'.q.threads, k);
    assert Fits(k, s.q.threads[k]);
    MoverGoes(s, s', k);
    hide Inv, Step, Q.AnsweredBetween, Threads;
    if k == WORK { WorkerOwes(s.q.threads[k], s'.q.threads[k]); } else { OthersOwe(s, s', k); }
  }

  lemma WorkerOwes(p: Place, p': Place)
    requires Fits(WORK, p) && (Departs(p, p') || Q.Follows(p, p'))
    ensures Owing(p) + (if p.GetTake? && p'.GetUnlock? && p'.result.Some? then [p'.result.value] else []) ==
            Entered(p, p') + Owing(p')
  {
  }

  lemma OthersOwe(s: State, s': State, k: nat)
    requires Threads(s) && Step(s, s', k) && |s'.q.threads| == |s.q.threads| && k != WORK
    requires Fits(k, s.q.threads[k])
    ensures !s.q.threads[k].GetTake? && Owing(s'.q.threads[WORK]) == Owing(s.q.threads[WORK])
    ensures Entered(s.q.threads[WORK], s'.q.threads[WORK]) == []
  {
    OthersStay(s, s', k, WORK);
    hide Step, Threads;
  }

  lemma RunStep(run: seq<State>)
    requires Run(run) && |run| > 1
    ensures Run(run[..|run| - 1]) && Moves(run[|run| - 2], run[|run| - 1]) && Inv(run[|run| - 2])
  {
    hide Inv, Moves, Starts;
    InvOverRun(run, |run| - 2);
  }

  /** Over every run: process() is called for the items fetched, in order, but for one the worker may have in hand. */
  lemma {:induction false} FetchedIsProcessed(run: seq<State>)
    requires Run(run)
    ensures |run[|run| - 1].q.threads| > MAIN
    ensures Fetched(run) == Processed(run) + Owing(run[|run| - 1].q.threads[WORK])
    decreases |run|
  {
    hide Inv, Step, Owing, Entered, Q.AnsweredBetween;
    if |run| == 1 {
      NothingOwed(run[0]);
    } else {
      RunStep(run);
      var s, s' := run[|run| - 2], run[|run| - 1];
      FetchedIsProcessed(run[..|run| - 1]);
      var k: nat :| Step(s, s', k);
      SameCount(s, s', k);
      StepOwes(s, s', k);
      var done, owing := Processed(run[..|run| - 1]), Owing(s.q.threads[WORK]);
      assert done + owing + Q.AnsweredBetween(s.q.threads, s'.q.threads) ==
             done + (owing + Q.AnsweredBetween(s.q.threads, s'.q.threads));
    }
  }

  lemma NothingOwed(s: State)
    requires Starts(s)
    ensures |s.q.threads| > MAIN && Owing(s.q.threads[WORK]) == []
  {
  }

  // ----- and what is fetched is what was put -----

  /** The items calls of `put` have pushed. */
  ghost function Put(run: seq<State>): seq<Item> {
    if |run| < 2 then []
    else
      var s, s' := run[|run| - 2], run[|run| - 1];
      Put(run[..|run| - 1])
      + (if |s.q.threads| == |s'.q.threads| then Q.PushedBetween(s.q.threads, s'.q.threads) else [])
  }

  /**
   * Over every run, handlers that put from inside process() included: what has been put is what has been processed, in
   * the same order, then the item the worker has in hand, then what is queued.
   */
  lemma {:induction false} PutIsProcessed(run: seq<State>)
    requires Run(run)
    ensures |run[|run| - 1].q.threads| > MAIN
    ensures var s := run[|run| - 1];
            Put(run) == Processed(run) + Owing(s.q.threads[WORK]) + s.q.queue
    decreases |run|
  {
    FetchedIsProcessed(run);
    PutIsFetched(run);
  }

  lemma {:induction false} PutIsFetched(run: seq<State>)
    requires Run(run)
    ensures Put(run) == Fetched(run) + run[|run| - 1].q.queue
    decreases |run|
  {
    hide Inv, Step, Q.AnsweredBetween, Q.PushedBetween;
    if |run| == 1 {
      QueueEmpty(run[0]);
    } else {
      RunStep(run);
      var s, s' := run[|run| - 2], run[|run| - 1];
      PutIsFetched(run[..|run| - 1]);
      var k: nat :| Step(s, s', k);
      StepIsQueueStep(s, s', k);
      InvIsTested(s);
      Q.StepSeen(s.q, s'.q, k);
      var got := Fetched(run[..|run| - 1]);
      assert got + s.q.queue + Q.PushedBetween(s.q.threads, s'.q.threads) ==
             got + (s.q.queue + Q.PushedBetween(s.q.threads, s'.q.threads));
    }
  }

  lemma QueueEmpty(s: State)
    requires Starts(s)
    ensures s.q.queue == []
  {
  }

  lemma InvIsTested(s: State)
    requires Inv(s)
    ensures Q.Tested(s.q)
  {
  }

  // ----- nobody exits before the stop -----

  /** The worker has been told that there is nothing more, or has left. */
  predicate Dismissed(p: Place) {
    p == Q.Outside(Exited) || ((p.GetUnlock? || p.Returned?) && p.result.None?)
  }

  ghost predicate ExitsAllowed(s: State) {
    && |s.q.threads| > MAIN && (Dismissed(s.q.threads[WORK]) ==> s.q.shut)
    && (s.q.threads[NETWORK] == Q.Outside(Exited) ==> s.flag)
  }

  lemma StepAllows(s: State, s': State, k: nat)
    requires Inv(s) && ExitsAllowed(s) && Step(s, s', k)
    ensures ExitsAllowed(s')
  {
    SameCount(s, s', k);
    FlagsMove(s, s', k);
    assert Fits(k, s.q.threads[k]);
    if k != WORK { OthersStay(s, s', k, WORK); } else { WorkerDismissed(s, s'); }
    if k != NETWORK { OthersStay(s, s', k, NETWORK); } else { NetworkExits(s, s'); }
    hide Inv, Step;
  }

  lemma WorkerDismissed(s: State, s': State)
    requires Inv(s) && Step(s, s', WORK) && |s'.q.threads| == |s.q.threads|
    ensures Dismissed(s'.q.threads[WORK]) ==> Dismissed(s.q.threads[WORK]) || s.q.shut
  {
    assert Fits(WORK, s.q.threads[WORK]);
    hide Q.Woken, Q.Inv, ApiExclusive, Stopping, Threads;
  }

  lemma NetworkExits(s: State, s': State)
    requires Inv(s) && Step(s, s', NETWORK) && |s'.q.threads| == |s.q.threads|
    ensures s'.q.threads[NETWORK] == Q.Outside(Exited) ==> s.flag
  {
    assert Fits(NETWORK, s.q.threads[NETWORK]);
    hide Q.Woken, Q.Inv, ApiExclusive, Stopping, Threads;
  }

  /** Over every run: the worker exits only after the queue is shut down, the network thread only after the flag. */
  lemma {:induction false} ExitsOnlyAfterStop(run: seq<State>)
    requires Run(run)
    ensures ExitsAllowed(run[|run| - 1])
    decreases |run|
  {
    hide Inv, Step, ExitsAllowed;
    if |run| == 1 {
      StartsAllowed(run[0]);
    } else {
      RunStep(run);
      ExitsOnlyAfterStop(run[..|run| - 1]);
      var k: nat :| Step(run[|run| - 2], run[|run| - 1], k);
      StepAllows(run[|run| - 2], run[|run| - 1], k);
    }
  }

  lemma StartsAllowed(s: State)
    requires Starts(s)
    ensures ExitsAllowed(s)
  {
  }
}
