/**
 * The parallel check queue (src/checkqueue.h) as a state machine: one atomic step per critical section
 * of Loop and Add, one per executed check, with explicit condition-variable waits and notifications.
 */
module CheckQueue {
  import opened Power
  import opened SetSum

  /** One verification, identified by the order in which it was added; ok is what running it returns. */
  datatype Check = Check(id: nat, ok: bool)

  /** Where a thread is between critical sections. */
  datatype Thread =
    | Outside                                          // not inside Loop
    | Blocked(notified: bool)                          // in cond.wait
    | Working(batch: seq<Check>, next: nat, fOk: bool) // running its batch without the lock

  const MASTER: nat := 0

  datatype Wait = Wait(result: bool, checks: set<Check>)

  /**
   * The fields of CCheckQueue, the threads, and the history that the properties speak of: the checks
   * added since the last Wait, every check executed so far, and the results of finished Waits.
   */
  datatype State = State(queue: seq<Check>, nIdle: int, nTotal: int, fAllOk: bool, nTodo: int,
                         threads: map<nat, Thread>,
                         added: set<Check>, ran: seq<Check>, nextId: nat, waits: seq<Wait>)

  datatype Step =
    | Add(oks: seq<bool>, woken: set<nat>)   // master: Add, notifying the workers in `woken`
    | Enter(t: nat)                          // first critical section of Loop (Wait for the master)
    | Wake(t: nat)                           // return from cond.wait, notified or spurious
    | RunCheck(t: nat)                       // one check of the batch
    | Finish(t: nat)                         // critical section after a finished batch

  // ----- sums over threads --------------------------------------------------------------------------

  ghost function PerThread(threads: map<nat, Thread>, m: Thread -> int): nat -> int {
    t => if t in threads then m(threads[t]) else 0
  }

  ghost function Total(threads: map<nat, Thread>, m: Thread -> int): int {
    Sum(threads.Keys, PerThread(threads, m))
  }

  lemma TotalUpdate(threads: map<nat, Thread>, t: nat, x: Thread, m: Thread -> int)
    requires t in threads
    ensures Total(threads[t := x], m) == Total(threads, m) - m(threads[t]) + m(x)
  {
    assert threads[t := x].Keys == threads.Keys;
    SumChange(threads.Keys, PerThread(threads, m), PerThread(threads[t := x], m), t);
  }

  lemma TotalSame(threads: map<nat, Thread>, threads': map<nat, Thread>, m: Thread -> int)
    requires threads.Keys == threads'.Keys
    requires forall t :: t in threads ==> m(threads[t]) == m(threads'[t])
    ensures Total(threads, m) == Total(threads', m)
  {
    SumSame(threads.Keys, PerThread(threads, m), PerThread(threads', m));
  }

  lemma TotalBounds(threads: map<nat, Thread>, t: nat, m: Thread -> int)
    requires t in threads && forall u :: u in threads ==> 0 <= m(threads[u])
    ensures 0 <= m(threads[t]) <= Total(threads, m)
  {
    SumTake(threads.Keys, PerThread(threads, m), t);
    SumNonNegative(threads.Keys - {t}, PerThread(threads, m));
  }

  /** A positive total has a positive term. */
  lemma TotalWitness(threads: map<nat, Thread>, m: Thread -> int) returns (t: nat)
    requires Total(threads, m) > 0
    ensures t in threads && m(threads[t]) > 0
  {
    if forall u :: u in threads ==> m(threads[u]) <= 0 {
      SumBound(threads.Keys, PerThread(threads, m), 0, PerThread(threads, m));
    }
    t :| t in threads && m(threads[t]) > 0;
  }

  function InFlight(): Thread -> int { (x: Thread) => if x.Working? then |x.batch| else 0 }
  function Idle(): Thread -> int { (x: Thread) => if x.Blocked? then 1 else 0 }
  function Inside(): Thread -> int { (x: Thread) => if x.Outside? then 0 else 1 }
  function Count(s: seq<Check>, c: Check): nat { multiset(s)[c] }
  function Unrun(c: Check): Thread -> int {
    (x: Thread) => if x.Working? && x.next <= |x.batch| then Count(x.batch[x.next..], c) else 0
  }

  // ----- the steps --------------------------------------------------------------------------------------

  /** Workers asleep on condWorker with no notification pending. */
  function Sleeping(s: State): set<nat> {
    set t | t in s.threads && t != MASTER && s.threads[t].Blocked? && !s.threads[t].notified
  }

  function NewChecks(oks: seq<bool>, nextId: nat): seq<Check> {
    seq(|oks|, i requires 0 <= i < |oks| => Check(nextId + i, oks[i]))
  }

  /** Set the notified flag of the blocked threads in `who`. */
  function Notified(threads: map<nat, Thread>, who: set<nat>): map<nat, Thread> {
    map t | t in threads :: if t in who && threads[t].Blocked? then Blocked(true) else threads[t]
  }

  function BatchSize(queue: seq<Check>, nTotal: int, nIdle: int, nBatchSize: nat): (n: nat)
    requires queue != [] && nTotal >= 0 && nIdle >= 0
    ensures 1 <= n <= |queue|
    ensures n <= nBatchSize || n == 1
  {
    var share := |queue| / (nTotal + nIdle + 1);
    assert share <= |queue|;
    var n := if nBatchSize < share then nBatchSize else share;
    if n < 1 then 1 else n
  }

  /** Every thread, with one to spare, could take a batch of k from the queue, and batches may be that large. */
  predicate Fair(queue: seq<Check>, nTotal: nat, nIdle: nat, nBatchSize: nat, k: nat) {
    k <= nBatchSize && k * (nTotal + nIdle + 1) <= |queue|
  }

  /** The batch is the largest fair one, but at least one check. */
  lemma BatchIff(queue: seq<Check>, nTotal: nat, nIdle: nat, nBatchSize: nat, k: nat)
    requires queue != []
    ensures k == BatchSize(queue, nTotal, nIdle, nBatchSize) <==>
              k >= 1 && (k == 1 || Fair(queue, nTotal, nIdle, nBatchSize, k)) && !Fair(queue, nTotal, nIdle, nBatchSize, k + 1)
  {
    ShareIff(|queue|, nTotal + nIdle + 1, k);
    ShareIff(|queue|, nTotal + nIdle + 1, k + 1);
  }

  lemma ShareIff(n: nat, d: nat, k: nat)
    requires d > 0
    ensures k * d <= n <==> k <= n / d
  {
    if k <= n / d {
      MulMonotone(k, n / d, d);
    } else {
      MulMonotone(n / d + 1, k, d);
    }
  }

  /** vChecks after popping n checks from the back of the queue. */
  function Popped(queue: seq<Check>, n: nat): seq<Check>
    requires n <= |queue|
  {
    seq(n, i requires 0 <= i < n => queue[|queue| - 1 - i])
  }

  /** The part of Loop's critical section after the clean-up: return, wait, or take a batch. */
  function LoopTop(s: State, t: nat, nBatchSize: nat): State
    requires s.nTotal >= 0 && s.nIdle >= 0
  {
    if s.queue == [] then
      if t == MASTER && s.nTodo == 0 then
        s.(nTotal := s.nTotal - 1, fAllOk := true, threads := s.threads[t := Outside],
           added := {}, waits := s.waits + [Wait(s.fAllOk, s.added)])
      else
        s.(nIdle := s.nIdle + 1, threads := s.threads[t := Blocked(false)])
    else
      Taken(s, t, BatchSize(s.queue, s.nTotal, s.nIdle, nBatchSize))
  }

  /** Move n checks from the queue into the batch of t; fOk starts from the shared result so far. */
  function Taken(s: State, t: nat, n: nat): State
    requires n <= |s.queue|
  {
    s.(queue := s.queue[..|s.queue| - n], threads := s.threads[t := Working(Popped(s.queue, n), 0, s.fAllOk)])
  }

  /** The clean-up after a batch: merge the result, count it off, tell the master when nothing is left. */
  function CleanUp(s: State, t: nat): State
    requires t in s.threads && s.threads[t].Working?
  {
    var x := s.threads[t];
    var nTodo := s.nTodo - |x.batch|;
    s.(fAllOk := s.fAllOk && x.fOk, nTodo := nTodo,
       threads := if nTodo == 0 && t != MASTER then Notified(s.threads, {MASTER}) else s.threads)
  }

  predicate Enabled(s: State, step: Step) {
    match step
    case Add(oks, woken) =>
      && MASTER in s.threads && s.threads[MASTER].Outside?
      && woken <= Sleeping(s)
      && (|oks| == 0 ==> woken == {})
      && (|oks| == 1 ==> |woken| <= 1 && (woken == {} ==> Sleeping(s) == {}))
      && (|oks| > 1 ==> woken == Sleeping(s))
    case Enter(t) => t in s.threads && s.threads[t].Outside?
    case Wake(t) => t in s.threads && s.threads[t].Blocked?
    case RunCheck(t) => t in s.threads && s.threads[t].Working? && s.threads[t].next < |s.threads[t].batch|
    case Finish(t) => t in s.threads && s.threads[t].Working? && s.threads[t].next == |s.threads[t].batch|
  }

  function Next(s: State, step: Step, nBatchSize: nat): State
    requires Enabled(s, step) && s.nTotal >= 0 && s.nIdle >= 0
    requires step.Wake? ==> s.nIdle > 0
  {
    match step
    case Add(oks, woken) =>
      var checks := NewChecks(oks, s.nextId);
      s.(queue := s.queue + checks, nTodo := s.nTodo + |oks|, threads := Notified(s.threads, woken),
         added := s.added + (set c | c in checks), nextId := s.nextId + |oks|)
    case Enter(t) => LoopTop(s.(nTotal := s.nTotal + 1), t, nBatchSize)
    case Wake(t) => LoopTop(s.(nIdle := s.nIdle - 1), t, nBatchSize)
    case RunCheck(t) =>
      var x := s.threads[t];
      var c := x.batch[x.next];
      if x.fOk then
        s.(ran := s.ran + [c], threads := s.threads[t := Working(x.batch, x.next + 1, c.ok)])
      else
        s.(threads := s.threads[t := Working(x.batch, x.next + 1, false)])
    case Finish(t) => LoopTop(CleanUp(s, t), t, nBatchSize)
  }

  /** Adding one check wakes one sleeping worker if there is any; adding more leaves no worker asleep. */
  lemma AddWakes(s: State, oks: seq<bool>, woken: set<nat>, nBatchSize: nat)
    requires Enabled(s, Add(oks, woken)) && s.nTotal >= 0 && s.nIdle >= 0
    ensures var threads := Next(s, Add(oks, woken), nBatchSize).threads;
      && (|oks| > 1 ==> forall t :: t in threads && t != MASTER && threads[t].Blocked? ==> threads[t].notified)
      && (|oks| == 1 ==> (exists t :: WokenOnly(s.threads, threads, t)) ||
                         (threads == s.threads && forall t :: t in threads && t != MASTER && threads[t].Blocked? ==> threads[t].notified))
      && (|oks| == 0 ==> threads == s.threads)
  {
    var threads := Next(s, Add(oks, woken), nBatchSize).threads;
    if |oks| == 1 && woken != {} {
      var t :| t in woken;
      assert woken == {t} by {
        assert |woken - {t}| == 0;
      }
      assert WokenOnly(s.threads, threads, t);
    } else if woken == {} {
      assert threads == s.threads;
      assert forall t :: t in Sleeping(s) <==> t in s.threads && t != MASTER && s.threads[t] == Blocked(false);
    }
  }

  /** One sleeping worker got a notification, and nothing else happened to the threads. */
  ghost predicate WokenOnly(before: map<nat, Thread>, after: map<nat, Thread>, t: nat) {
    t in before && t != MASTER && before[t] == Blocked(false) && after == before[t := Blocked(true)]
  }

  function Init(workers: set<nat>): State {
    State([], 0, 0, true, 0, map t | t in workers + {MASTER} :: Outside, {}, [], 0, [])
  }

  // ----- the invariant ------------------------------------------------------------------------------------

  ghost predicate ThreadsOk(s: State) {
    && MASTER in s.threads
    && (forall t :: t in s.threads && s.threads[t].Working? ==>
                      s.threads[t].batch != [] && s.threads[t].next <= |s.threads[t].batch|)
  }

  /** nTodo is what is queued plus what is in flight; nIdle and nTotal count the threads. */
  ghost predicate CountersOk(s: State) {
    && s.nTodo == |s.queue| + Total(s.threads, InFlight())
    && s.nIdle == Total(s.threads, Idle())
    && s.nTotal == Total(s.threads, Inside())
  }

  /** A sleeping master is told exactly when the last batch is done and nothing is queued. */
  lemma MasterTold(s: State, t: nat)
    requires ThreadsOk(s) && CountersOk(s) && t in s.threads && s.threads[t].Working? && s.threads[MASTER] == Blocked(false)
    ensures CleanUp(s, t).threads[MASTER] == Blocked(s.queue == [] && forall u :: u in s.threads && s.threads[u].Working? ==> u == t)
  {
    var rest := s.threads[t := Outside];
    TotalUpdate(s.threads, t, Outside, InFlight());
    if Total(rest, InFlight()) > 0 {
      var u := TotalWitness(rest, InFlight());
      assert u != t && s.threads[u].Working?;
    }
    forall u | u in rest
      ensures 0 <= InFlight()(rest[u]) <= Total(rest, InFlight())
    {
      TotalBounds(rest, u, InFlight());
    }
    assert forall u :: u in s.threads && s.threads[u].Working? && u != t ==> InFlight()(rest[u]) > 0;
  }

  ghost predicate AllOk(checks: set<Check>) {
    forall c :: c in checks ==> c.ok
  }

  ghost predicate BatchOk(added: set<Check>, x: Thread) {
    x.Working? ==>
      && (forall c :: c in x.batch ==> c in added)
      && (!x.fOk ==> !AllOk(added))
      && (x.fOk ==> forall i :: 0 <= i < x.next && i < |x.batch| ==> x.batch[i].ok)
  }

  /** c still waits in the queue or in a batch. */
  ghost predicate Outstanding(s: State, c: Check) {
    c in s.queue || exists t :: t in s.threads && s.threads[t].Working? && c in s.threads[t].batch
  }

  /** fAllOk and the local flags tell the truth about the checks of this round. */
  ghost predicate ResultsOk(s: State) {
    && (forall c :: c in s.queue ==> c in s.added)
    && (forall t :: t in s.threads ==> BatchOk(s.added, s.threads[t]))
    && (!s.fAllOk ==> !AllOk(s.added))
    && (s.fAllOk ==> forall c :: c in s.added ==> c.ok || Outstanding(s, c))
    && (forall w :: w in s.waits ==> (w.result <==> AllOk(w.checks)))
  }

  /** How often c was executed, plus how often it still can be. */
  ghost function Tokens(s: State, c: Check): int {
    Count(s.ran, c) + Count(s.queue, c) + Total(s.threads, Unrun(c))
  }

  ghost predicate OnceOk(s: State) {
    forall c :: Tokens(s, c) <= if c.id < s.nextId then 1 else 0
  }

  /** A sleeping master has nothing queued, and unless it was notified something is in flight. */
  ghost predicate MasterOk(s: State) {
    MASTER in s.threads && s.threads[MASTER].Blocked? ==>
      s.queue == [] && (!s.threads[MASTER].notified ==> s.nTodo > 0)
  }

  ghost predicate Inv(s: State) {
    ThreadsOk(s) && CountersOk(s) && ResultsOk(s) && OnceOk(s) && MasterOk(s)
  }

  /** Inside the critical section of t, with t itself set aside. */
  ghost predicate MidInv(s: State, t: nat) {
    && t in s.threads && s.threads[t] == Outside
    && ThreadsOk(s) && CountersOk(s.(nTotal := s.nTotal - 1)) && ResultsOk(s) && OnceOk(s)
    && (t != MASTER ==> MasterOk(s))
  }

  lemma CountersNonNegative(s: State)
    requires CountersOk(s)
    ensures s.nIdle >= 0 && s.nTotal >= 0 && s.nTodo >= |s.queue|
  {
    SumNonNegative(s.threads.Keys, PerThread(s.threads, Idle()));
    SumNonNegative(s.threads.Keys, PerThread(s.threads, Inside()));
    SumNonNegative(s.threads.Keys, PerThread(s.threads, InFlight()));
  }

  // ----- the shared end of every critical section ------------------------------------------------------------

  lemma {:induction false} PoppedCount(queue: seq<Check>, n: nat)
    requires n <= |queue|
    ensures multiset(queue) == multiset(queue[..|queue| - n]) + multiset(Popped(queue, n))
  {
    if n == 0 {
      assert queue[..|queue|] == queue;
    } else {
      PoppedCount(queue, n - 1);
      var k := |queue| - n;
      assert queue[..k + 1] == queue[..k] + [queue[k]];
      assert Popped(queue, n) == Popped(queue, n - 1) + [queue[k]];
    }
  }

  lemma PoppedMembers(queue: seq<Check>, n: nat, c: Check)
    requires n <= |queue|
    ensures c in queue <==> c in queue[..|queue| - n] || c in Popped(queue, n)
  {
    PoppedCount(queue, n);
    assert c in queue <==> c in multiset(queue);
    assert c in queue[..|queue| - n] <==> c in multiset(queue[..|queue| - n]);
    assert c in Popped(queue, n) <==> c in multiset(Popped(queue, n));
  }

  /** With nothing left to do, nobody is working. */
  lemma NothingInFlight(s: State)
    requires ThreadsOk(s) && Total(s.threads, InFlight()) == 0
    ensures forall t :: t in s.threads ==> !s.threads[t].Working?
  {
    forall t | t in s.threads
      ensures !s.threads[t].Working?
    {
      TotalBounds(s.threads, t, InFlight());
    }
  }

  /** A returning Wait reports exactly the conjunction of the checks added since the previous one. */
  lemma ReturnCorrect(s: State)
    requires ThreadsOk(s) && ResultsOk(s) && s.queue == [] && Total(s.threads, InFlight()) == 0
    ensures s.fAllOk <==> AllOk(s.added)
  {
    NothingInFlight(s);
  }

  lemma LoopTopReturns(s: State, nBatchSize: nat)
    requires MidInv(s, MASTER) && s.queue == [] && s.nTodo == 0 && s.nTotal >= 0 && s.nIdle >= 0
    ensures Inv(LoopTop(s, MASTER, nBatchSize))
  {
    var s' := LoopTop(s, MASTER, nBatchSize);
    assert s'.threads == s.threads;
    NothingInFlight(s);
    ReturnCorrect(s);
    assert forall c :: Tokens(s', c) == Tokens(s, c);
  }

  lemma BlockedCounters(s: State, t: nat)
    requires t in s.threads && s.threads[t] == Outside && CountersOk(s.(nTotal := s.nTotal - 1))
    ensures CountersOk(s.(nIdle := s.nIdle + 1, threads := s.threads[t := Blocked(false)]))
    ensures s.nTodo >= |s.queue|
  {
    TotalUpdate(s.threads, t, Blocked(false), InFlight());
    TotalUpdate(s.threads, t, Blocked(false), Idle());
    TotalUpdate(s.threads, t, Blocked(false), Inside());
    CountersNonNegative(s.(nTotal := s.nTotal - 1));
  }

  lemma BlockedResults(s: State, t: nat)
    requires t in s.threads && s.threads[t] == Outside && ResultsOk(s)
    ensures ResultsOk(s.(nIdle := s.nIdle + 1, threads := s.threads[t := Blocked(false)]))
  {
    var s' := s.(nIdle := s.nIdle + 1, threads := s.threads[t := Blocked(false)]);
    forall c | s.fAllOk && c in s.added
      ensures c.ok || Outstanding(s', c)
    {
      if !c.ok && c !in s.queue {
        var u :| u in s.threads && s.threads[u].Working? && c in s.threads[u].batch;
        assert s'.threads[u] == s.threads[u];
      }
    }
  }

  lemma BlockedTokens(s: State, t: nat)
    requires t in s.threads && s.threads[t] == Outside && OnceOk(s)
    ensures OnceOk(s.(nIdle := s.nIdle + 1, threads := s.threads[t := Blocked(false)]))
  {
    var s' := s.(nIdle := s.nIdle + 1, threads := s.threads[t := Blocked(false)]);
    forall c
      ensures Tokens(s', c) == Tokens(s, c)
    {
      TotalUpdate(s.threads, t, Blocked(false), Unrun(c));
    }
  }

  lemma LoopTopBlocks(s: State, t: nat, nBatchSize: nat)
    requires MidInv(s, t) && s.queue == [] && !(t == MASTER && s.nTodo == 0) && s.nTotal >= 0 && s.nIdle >= 0
    ensures Inv(LoopTop(s, t, nBatchSize))
  {
    hide CountersOk, ResultsOk, OnceOk;
    BlockedCounters(s, t);
    BlockedResults(s, t);
    BlockedTokens(s, t);
  }

  lemma TakenCounters(s: State, t: nat, n: nat)
    requires t in s.threads && s.threads[t] == Outside && CountersOk(s.(nTotal := s.nTotal - 1)) && n <= |s.queue|
    ensures CountersOk(Taken(s, t, n))
  {
    var x := Working(Popped(s.queue, n), 0, s.fAllOk);
    TotalUpdate(s.threads, t, x, InFlight());
    TotalUpdate(s.threads, t, x, Idle());
    TotalUpdate(s.threads, t, x, Inside());
  }

  lemma TakenTokens(s: State, t: nat, n: nat)
    requires t in s.threads && s.threads[t] == Outside && OnceOk(s) && n <= |s.queue|
    ensures OnceOk(Taken(s, t, n))
  {
    hide Tokens;
    forall c
      ensures Tokens(Taken(s, t, n), c) == Tokens(s, c)
    {
      TakenToken(s, t, n, c);
    }
  }

  lemma TakenToken(s: State, t: nat, n: nat, c: Check)
    requires t in s.threads && s.threads[t] == Outside && n <= |s.queue|
    ensures Tokens(Taken(s, t, n), c) == Tokens(s, c)
  {
    var x := Working(Popped(s.queue, n), 0, s.fAllOk);
    PoppedCount(s.queue, n);
    assert x.batch[0..] == x.batch;
    TotalUpdate(s.threads, t, x, Unrun(c));
  }

  lemma LoopTopTakes(s: State, t: nat, nBatchSize: nat)
    requires MidInv(s, t) && s.queue != [] && s.nTotal >= 0 && s.nIdle >= 0
    ensures Inv(LoopTop(s, t, nBatchSize))
  {
    hide CountersOk, ResultsOk, OnceOk;
    var n := BatchSize(s.queue, s.nTotal, s.nIdle, nBatchSize);
    TakenCounters(s, t, n);
    TakenTokens(s, t, n);
    TakenResults(s, t, n);
  }

  lemma TakenResults(s: State, t: nat, n: nat)
    requires t in s.threads && s.threads[t] == Outside && ResultsOk(s) && n <= |s.queue|
    ensures ResultsOk(Taken(s, t, n))
  {
    var x := Working(Popped(s.queue, n), 0, s.fAllOk);
    var s' := Taken(s, t, n);
    forall c
      ensures c in s.queue <==> c in s'.queue || c in x.batch
    {
      PoppedMembers(s.queue, n, c);
    }
    forall c | s.fAllOk && c in s.added
      ensures c.ok || Outstanding(s', c)
    {
      if !c.ok {
        if c in s.queue {
          assert s'.threads[t] == x;
        } else {
          var u :| u in s.threads && s.threads[u].Working? && c in s.threads[u].batch;
          assert s'.threads[u] == s.threads[u];
        }
      }
    }
  }

  lemma LoopTopInv(s: State, t: nat, nBatchSize: nat)
    requires MidInv(s, t) && s.nTotal >= 0 && s.nIdle >= 0
    ensures Inv(LoopTop(s, t, nBatchSize))
  {
    if s.queue != [] {
      LoopTopTakes(s, t, nBatchSize);
    } else if t == MASTER && s.nTodo == 0 {
      LoopTopReturns(s, nBatchSize);
    } else {
      LoopTopBlocks(s, t, nBatchSize);
    }
  }

  /** LoopTop overwrites the entry of t, so it does not matter what was there. */
  lemma LoopTopIgnores(s: State, t: nat, nBatchSize: nat)
    requires s.nTotal >= 0 && s.nIdle >= 0
    ensures LoopTop(s, t, nBatchSize) == LoopTop(s.(threads := s.threads[t := Outside]), t, nBatchSize)
  {
    var m := s.threads[t := Outside];
    assert m[t := Outside] == s.threads[t := Outside];
    assert m[t := Blocked(false)] == s.threads[t := Blocked(false)];
    if s.queue != [] {
      var x := Working(Popped(s.queue, BatchSize(s.queue, s.nTotal, s.nIdle, nBatchSize)), 0, s.fAllOk);
      assert m[t := x] == s.threads[t := x];
    }
  }

  // ----- every step keeps the invariant ---------------------------------------------------------------------------

  lemma EnteredMid(s: State, t: nat)
    requires Inv(s) && Enabled(s, Enter(t))
    ensures s.nTotal >= 0 && s.nIdle >= 0 && MidInv(s.(nTotal := s.nTotal + 1), t)
  {
    hide CountersOk, ResultsOk, OnceOk;
    CountersNonNegative(s);
    var s1 := s.(nTotal := s.nTotal + 1);
    assert s1.(nTotal := s1.nTotal - 1) == s;
    SameResults(s, s1);
  }

  lemma EnterInv(s: State, t: nat, nBatchSize: nat)
    requires Inv(s) && Enabled(s, Enter(t))
    ensures s.nTotal >= 0 && s.nIdle >= 0 && Inv(Next(s, Enter(t), nBatchSize))
  {
    hide Inv, MidInv, LoopTop;
    EnteredMid(s, t);
    LoopTopInv(s.(nTotal := s.nTotal + 1), t, nBatchSize);
  }

  lemma SameResults(s: State, s': State)
    requires s' == s.(nTotal := s'.nTotal, nIdle := s'.nIdle)
    ensures ResultsOk(s) ==> ResultsOk(s')
    ensures OnceOk(s) ==> OnceOk(s')
  {
    assert forall c :: Outstanding(s, c) ==> Outstanding(s', c);
    assert forall c :: Tokens(s', c) == Tokens(s, c);
  }

  /** Setting aside a thread that holds no checks. */
  lemma WokenMid(s: State, t: nat)
    requires Inv(s) && Enabled(s, Wake(t))
    ensures s.nIdle > 0 && s.nTotal >= 0
    ensures MidInv(s.(nIdle := s.nIdle - 1, threads := s.threads[t := Outside]), t)
  {
    hide CountersOk, ResultsOk, OnceOk;
    CountersNonNegative(s);
    WokenCounters(s, t);
    WokenResults(s, t);
    WokenTokens(s, t);
  }

  lemma WokenCounters(s: State, t: nat)
    requires CountersOk(s) && t in s.threads && s.threads[t].Blocked?
    ensures s.nIdle > 0
    ensures CountersOk(s.(nIdle := s.nIdle - 1, nTotal := s.nTotal - 1, threads := s.threads[t := Outside]))
  {
    TotalBounds(s.threads, t, Idle());
    TotalUpdate(s.threads, t, Outside, InFlight());
    TotalUpdate(s.threads, t, Outside, Idle());
    TotalUpdate(s.threads, t, Outside, Inside());
  }

  lemma WokenResults(s: State, t: nat)
    requires t in s.threads && s.threads[t].Blocked? && ResultsOk(s)
    ensures ResultsOk(s.(nIdle := s.nIdle - 1, threads := s.threads[t := Outside]))
  {
    var s1 := s.(nIdle := s.nIdle - 1, threads := s.threads[t := Outside]);
    forall c | s.fAllOk && c in s.added
      ensures c.ok || Outstanding(s1, c)
    {
      if !c.ok && c !in s.queue {
        var u :| u in s.threads && s.threads[u].Working? && c in s.threads[u].batch;
        assert s1.threads[u] == s.threads[u];
      }
    }
  }

  lemma WokenTokens(s: State, t: nat)
    requires t in s.threads && s.threads[t].Blocked? && OnceOk(s)
    ensures OnceOk(s.(nIdle := s.nIdle - 1, threads := s.threads[t := Outside]))
  {
    var s1 := s.(nIdle := s.nIdle - 1, threads := s.threads[t := Outside]);
    forall c
      ensures Tokens(s1, c) == Tokens(s, c)
    {
      TotalUpdate(s.threads, t, Outside, Unrun(c));
    }
  }

  lemma WakeInv(s: State, t: nat, nBatchSize: nat)
    requires Inv(s) && Enabled(s, Wake(t))
    ensures s.nTotal >= 0 && s.nIdle > 0 && Inv(Next(s, Wake(t), nBatchSize))
  {
    hide MidInv, Inv, LoopTop;
    WokenMid(s, t);
    LoopTopIgnores(s.(nIdle := s.nIdle - 1), t, nBatchSize);
    LoopTopInv(s.(nIdle := s.nIdle - 1, threads := s.threads[t := Outside]), t, nBatchSize);
  }

  lemma RunCheckResults(s: State, t: nat, nBatchSize: nat)
    requires ThreadsOk(s) && ResultsOk(s) && Enabled(s, RunCheck(t)) && s.nTotal >= 0 && s.nIdle >= 0
    ensures ResultsOk(Next(s, RunCheck(t), nBatchSize))
  {
    var s' := Next(s, RunCheck(t), nBatchSize);
    var x := s.threads[t];
    assert BatchOk(s.added, x);
    assert x.batch[x.next] in x.batch;
    forall c | s.fAllOk && c in s.added
      ensures c.ok || Outstanding(s', c)
    {
      if !c.ok && c !in s.queue {
        var u :| u in s.threads && s.threads[u].Working? && c in s.threads[u].batch;
        assert c in s'.threads[u].batch;
      }
    }
  }

  lemma RunCheckTokens(s: State, t: nat, nBatchSize: nat)
    requires ThreadsOk(s) && OnceOk(s) && Enabled(s, RunCheck(t)) && s.nTotal >= 0 && s.nIdle >= 0
    ensures OnceOk(Next(s, RunCheck(t), nBatchSize))
  {
    hide Tokens;
    var s' := Next(s, RunCheck(t), nBatchSize);
    forall c
      ensures Tokens(s', c) <= Tokens(s, c)
    {
      RunCheckToken(s, t, nBatchSize, c);
    }
  }

  lemma RunCheckToken(s: State, t: nat, nBatchSize: nat, c: Check)
    requires ThreadsOk(s) && Enabled(s, RunCheck(t)) && s.nTotal >= 0 && s.nIdle >= 0
    ensures Tokens(Next(s, RunCheck(t), nBatchSize), c) <= Tokens(s, c)
  {
    hide Sum, LoopTop;
    var s' := Next(s, RunCheck(t), nBatchSize);
    var x := s.threads[t];
    UnrunNext(x, s'.threads[t], c);
    TotalUpdate(s.threads, t, s'.threads[t], Unrun(c));
    assert s'.threads == s.threads[t := s'.threads[t]];
    CountNext(s.ran, x.batch[x.next], c);
  }

  lemma UnrunNext(x: Thread, x': Thread, c: Check)
    requires x.Working? && x'.Working? && x'.batch == x.batch && x.next < |x.batch| && x'.next == x.next + 1
    ensures Unrun(c)(x) == Unrun(c)(x') + if x.batch[x.next] == c then 1 else 0
  {
    assert x.batch[x.next..] == [x.batch[x.next]] + x.batch[x.next + 1..];
  }

  lemma CountNext(s: seq<Check>, x: Check, c: Check)
    ensures Count(s + [x], c) == Count(s, c) + if x == c then 1 else 0
  {}

  lemma RunCheckCounters(s: State, t: nat, nBatchSize: nat)
    requires CountersOk(s) && Enabled(s, RunCheck(t)) && s.nTotal >= 0 && s.nIdle >= 0
    ensures CountersOk(Next(s, RunCheck(t), nBatchSize))
  {
    var x := s.threads[t];
    var x' := Working(x.batch, x.next + 1, x.fOk && x.batch[x.next].ok);
    assert Next(s, RunCheck(t), nBatchSize).threads == s.threads[t := x'];
    TotalUpdate(s.threads, t, x', InFlight());
    TotalUpdate(s.threads, t, x', Idle());
    TotalUpdate(s.threads, t, x', Inside());
  }

  lemma RunCheckInv(s: State, t: nat, nBatchSize: nat)
    requires Inv(s) && Enabled(s, RunCheck(t))
    ensures s.nTotal >= 0 && s.nIdle >= 0 && Inv(Next(s, RunCheck(t), nBatchSize))
  {
    hide CountersOk, ResultsOk, OnceOk;
    CountersNonNegative(s);
    RunCheckCounters(s, t, nBatchSize);
    RunCheckResults(s, t, nBatchSize);
    RunCheckTokens(s, t, nBatchSize);
  }

  /** A notification changes no count and no result. */
  lemma NotifiedTotals(threads: map<nat, Thread>, who: set<nat>)
    ensures Total(Notified(threads, who), InFlight()) == Total(threads, InFlight())
    ensures Total(Notified(threads, who), Idle()) == Total(threads, Idle())
    ensures Total(Notified(threads, who), Inside()) == Total(threads, Inside())
    ensures forall c :: Total(Notified(threads, who), Unrun(c)) == Total(threads, Unrun(c))
  {
    TotalSame(Notified(threads, who), threads, InFlight());
    TotalSame(Notified(threads, who), threads, Idle());
    TotalSame(Notified(threads, who), threads, Inside());
    forall c
      ensures Total(Notified(threads, who), Unrun(c)) == Total(threads, Unrun(c))
    {
      TotalSame(Notified(threads, who), threads, Unrun(c));
    }
  }

  /** The clean-up with the finished thread set aside. */
  function Cleaned(s: State, t: nat): State
    requires t in s.threads && s.threads[t].Working?
  {
    var s1 := CleanUp(s, t);
    s1.(threads := s1.threads[t := Outside])
  }

  lemma NotifiedElsewhere(s: State, t: nat)
    requires t in s.threads && s.threads[t].Working?
    ensures t in CleanUp(s, t).threads && CleanUp(s, t).threads[t] == s.threads[t]
  {}

  lemma CleanedCounters(s: State, t: nat)
    requires CountersOk(s) && t in s.threads && s.threads[t].Working?
    ensures var s1 := Cleaned(s, t); CountersOk(s1.(nTotal := s1.nTotal - 1))
  {
    hide Total, Notified;
    var threads := CleanUp(s, t).threads;
    NotifiedTotals(s.threads, {MASTER});
    NotifiedElsewhere(s, t);
    TotalUpdate(threads, t, Outside, InFlight());
    TotalUpdate(threads, t, Outside, Idle());
    TotalUpdate(threads, t, Outside, Inside());
  }

  lemma CleanedTokens(s: State, t: nat)
    requires ThreadsOk(s) && OnceOk(s) && Enabled(s, Finish(t))
    ensures OnceOk(Cleaned(s, t))
  {
    hide Total, Notified;
    var s1 := CleanUp(s, t);
    NotifiedTotals(s.threads, {MASTER});
    NotifiedElsewhere(s, t);
    forall c
      ensures Tokens(Cleaned(s, t), c) == Tokens(s, c)
    {
      TotalUpdate(s1.threads, t, Outside, Unrun(c));
    }
  }

  lemma CleanedResults(s: State, t: nat)
    requires ThreadsOk(s) && ResultsOk(s) && Enabled(s, Finish(t))
    ensures ResultsOk(Cleaned(s, t))
  {
    var s' := Cleaned(s, t);
    var x := s.threads[t];
    assert BatchOk(s.added, x);
    forall u | u in s'.threads
      ensures BatchOk(s'.added, s'.threads[u])
    {
      assert BatchOk(s.added, s.threads[u]);
    }
    forall c | s'.fAllOk && c in s.added
      ensures c.ok || Outstanding(s', c)
    {
      if !c.ok && c !in s.queue {
        var u :| u in s.threads && s.threads[u].Working? && c in s.threads[u].batch;
        assert u != t;
        assert s'.threads[u] == s.threads[u];
      }
    }
  }

  lemma CleanedMid(s: State, t: nat)
    requires Inv(s) && Enabled(s, Finish(t))
    ensures s.nTotal >= 0 && s.nIdle >= 0 && MidInv(Cleaned(s, t), t)
    ensures CleanUp(s, t).nTotal == s.nTotal && CleanUp(s, t).nIdle == s.nIdle
  {
    hide CountersOk, ResultsOk, OnceOk;
    CountersNonNegative(s);
    CleanedCounters(s, t);
    CountersNonNegative(Cleaned(s, t).(nTotal := s.nTotal - 1));
    CleanedTokens(s, t);
    CleanedResults(s, t);
  }

  lemma FinishInv(s: State, t: nat, nBatchSize: nat)
    requires Inv(s) && Enabled(s, Finish(t))
    ensures s.nTotal >= 0 && s.nIdle >= 0 && Inv(Next(s, Finish(t), nBatchSize))
  {
    hide Inv, MidInv, LoopTop, CleanUp;
    CleanedMid(s, t);
    LoopTopIgnores(CleanUp(s, t), t, nBatchSize);
    LoopTopInv(Cleaned(s, t), t, nBatchSize);
  }

  /** Fresh checks are new and all different. */
  lemma {:induction false} NewChecksCount(oks: seq<bool>, nextId: nat, c: Check)
    ensures Count(NewChecks(oks, nextId), c) <= if nextId <= c.id < nextId + |oks| then 1 else 0
  {
    if oks != [] {
      var n := |oks| - 1;
      NewChecksCount(oks[..n], nextId, c);
      assert NewChecks(oks, nextId) == NewChecks(oks[..n], nextId) + [Check(nextId + n, oks[n])];
    }
  }

  lemma AddTokens(s: State, oks: seq<bool>, woken: set<nat>, nBatchSize: nat)
    requires OnceOk(s) && Enabled(s, Add(oks, woken)) && s.nTotal >= 0 && s.nIdle >= 0
    ensures OnceOk(Next(s, Add(oks, woken), nBatchSize))
  {
    hide Total, Notified;
    var s' := Next(s, Add(oks, woken), nBatchSize);
    NotifiedTotals(s.threads, woken);
    forall c
      ensures Tokens(s', c) <= if c.id < s'.nextId then 1 else 0
    {
      NewChecksCount(oks, s.nextId, c);
      assert Tokens(s', c) == Tokens(s, c) + Count(NewChecks(oks, s.nextId), c);
    }
  }

  lemma AddResults(s: State, oks: seq<bool>, woken: set<nat>, nBatchSize: nat)
    requires ResultsOk(s) && Enabled(s, Add(oks, woken)) && s.nTotal >= 0 && s.nIdle >= 0
    ensures ResultsOk(Next(s, Add(oks, woken), nBatchSize))
  {
    var s' := Next(s, Add(oks, woken), nBatchSize);
    forall t | t in s'.threads
      ensures BatchOk(s'.added, s'.threads[t])
    {
      assert BatchOk(s.added, s.threads[t]);
    }
    forall c | s.fAllOk && c in s'.added
      ensures c.ok || Outstanding(s', c)
    {
      if !c.ok && c !in s'.queue {
        var u :| u in s.threads && s.threads[u].Working? && c in s.threads[u].batch;
        assert s'.threads[u] == s.threads[u];
      }
    }
  }

  lemma AddInv(s: State, oks: seq<bool>, woken: set<nat>, nBatchSize: nat)
    requires Inv(s) && Enabled(s, Add(oks, woken))
    ensures s.nTotal >= 0 && s.nIdle >= 0 && Inv(Next(s, Add(oks, woken), nBatchSize))
  {
    hide ResultsOk, OnceOk, Total;
    CountersNonNegative(s);
    NotifiedTotals(s.threads, woken);
    AddTokens(s, oks, woken, nBatchSize);
    AddResults(s, oks, woken, nBatchSize);
  }

  // ----- runs ------------------------------------------------------------------------------------------------

  /** One step of the system; the counters' signs are what Next needs and what Inv provides. */
  ghost predicate Steps(s: State, step: Step, s': State, nBatchSize: nat) {
    && Enabled(s, step) && s.nTotal >= 0 && s.nIdle >= 0 && (step.Wake? ==> s.nIdle > 0)
    && s' == Next(s, step, nBatchSize)
  }

  ghost predicate IsRun(states: seq<State>, steps: seq<Step>, nBatchSize: nat) {
    && |states| == |steps| + 1
    && (forall i :: 0 <= i < |steps| ==> Steps(states[i], steps[i], states[i + 1], nBatchSize))
  }

  lemma StepInv(s: State, step: Step, nBatchSize: nat)
    requires Inv(s) && Enabled(s, step)
    ensures Steps(s, step, Next'(s, step, nBatchSize), nBatchSize) && Inv(Next'(s, step, nBatchSize))
  {
    hide Inv;
    match step
    case Add(oks, woken) => AddInv(s, oks, woken, nBatchSize);
    case Enter(t) => EnterInv(s, t, nBatchSize);
    case Wake(t) => WakeInv(s, t, nBatchSize);
    case RunCheck(t) => RunCheckInv(s, t, nBatchSize);
    case Finish(t) => FinishInv(s, t, nBatchSize);
  }

  /** Next, total on enabled steps of states that satisfy the invariant. */
  ghost function Next'(s: State, step: Step, nBatchSize: nat): State {
    if Enabled(s, step) && s.nTotal >= 0 && s.nIdle >= 0 && (step.Wake? ==> s.nIdle > 0)
    then Next(s, step, nBatchSize) else s
  }

  lemma InitInv(workers: set<nat>)
    ensures Inv(Init(workers))
  {
    var s := Init(workers);
    TotalZero(s.threads, InFlight());
    TotalZero(s.threads, Idle());
    TotalZero(s.threads, Inside());
    forall c
      ensures Tokens(s, c) == 0
    {
      TotalZero(s.threads, Unrun(c));
    }
  }

  lemma TotalZero(threads: map<nat, Thread>, m: Thread -> int)
    requires forall t :: t in threads ==> m(threads[t]) == 0
    ensures Total(threads, m) == 0
  {
    SumSame(threads.Keys, PerThread(threads, m), t => 0);
    SumBound(threads.Keys, t => 0, 0, t => 0);
    SumNonNegative(threads.Keys, t => 0);
  }

  /** Every interleaving of one master and any set of workers keeps the invariant. */
  lemma {:induction false} RunInv(workers: set<nat>, states: seq<State>, steps: seq<Step>, nBatchSize: nat, i: nat)
    requires IsRun(states, steps, nBatchSize) && states[0] == Init(workers) && i < |states|
    ensures Inv(states[i])
  {
    if i == 0 {
      InitInv(workers);
    } else {
      RunInv(workers, states, steps, nBatchSize, i - 1);
      assert Steps(states[i - 1], steps[i - 1], states[i - 1 + 1], nBatchSize);
      StepInv(states[i - 1], steps[i - 1], nBatchSize);
    }
  }

  /** In every run, every finished Wait returned the conjunction of the checks of its round. */
  lemma WaitReturnsConjunction(workers: set<nat>, states: seq<State>, steps: seq<Step>, nBatchSize: nat, w: nat)
    requires IsRun(states, steps, nBatchSize) && states[0] == Init(workers)
    requires w < |states[|steps|].waits|
    ensures var wait := states[|steps|].waits[w]; wait.result <==> forall c :: c in wait.checks ==> c.ok
  {
    RunInv(workers, states, steps, nBatchSize, |steps|);
    assert states[|steps|].waits[w] in states[|steps|].waits;
  }

  lemma CountTwice(s: seq<Check>, i: nat, j: nat)
    requires i < j < |s| && s[i] == s[j]
    ensures Count(s, s[i]) >= 2
  {
    assert s == s[..j] + s[j..];
    assert s[i] in s[..j] && s[j] in s[j..];
    assert multiset(s) == multiset(s[..j]) + multiset(s[j..]);
  }

  /** In every run no check is executed twice. */
  lemma ChecksRunAtMostOnce(workers: set<nat>, states: seq<State>, steps: seq<Step>, nBatchSize: nat, i: nat, j: nat)
    requires IsRun(states, steps, nBatchSize) && states[0] == Init(workers)
    requires i < j < |states[|steps|].ran|
    ensures states[|steps|].ran[i] != states[|steps|].ran[j]
  {
    var s := states[|steps|];
    RunInv(workers, states, steps, nBatchSize, |steps|);
    var c := s.ran[i];
    SumNonNegative(s.threads.Keys, PerThread(s.threads, Unrun(c)));
    assert Count(s.ran, c) <= Tokens(s, c) <= 1;
    if s.ran[i] == s.ran[j] {
      CountTwice(s.ran, i, j);
    }
  }

  // ----- a true result means that every check was executed ----------------------------------------------------------

  /** While no failure is known every check of the round was executed or still waits. */
  ghost predicate ExecutedOk(s: State) {
    && (s.fAllOk ==> forall c :: c in s.added ==> c in s.ran || Outstanding(s, c))
    && (forall t :: t in s.threads ==> BatchRan(s.ran, s.threads[t]))
    && (forall w :: w in s.waits && w.result ==> forall c :: c in w.checks ==> c in s.ran)
  }

  ghost predicate BatchRan(ran: seq<Check>, x: Thread) {
    x.Working? && x.fOk ==> forall i :: 0 <= i < x.next && i < |x.batch| ==> x.batch[i] in ran
  }

  /** Outstanding checks stay so when a thread that holds none changes, or the queue grows. */
  lemma StillOutstanding(s: State, s': State, t: nat, c: Check)
    requires Outstanding(s, c) && s'.queue == s.queue && t in s.threads && t in s'.threads && !s.threads[t].Working?
    requires s'.threads == s.threads[t := s'.threads[t]]
    ensures Outstanding(s', c)
  {
    if c !in s.queue {
      var u :| u in s.threads && s.threads[u].Working? && c in s.threads[u].batch;
      assert s'.threads[u] == s.threads[u];
    }
  }

  lemma TakenExecuted(s: State, t: nat, n: nat)
    requires ExecutedOk(s) && t in s.threads && s.threads[t] == Outside && n <= |s.queue|
    ensures ExecutedOk(Taken(s, t, n))
  {
    hide BatchRan;
    var s' := Taken(s, t, n);
    forall c | s.fAllOk && c in s.added && c !in s.ran
      ensures Outstanding(s', c)
    {
      if c in s.queue {
        PoppedMembers(s.queue, n, c);
        assert c in Popped(s.queue, n) ==> c in s'.threads[t].batch;
      } else {
        var u :| u in s.threads && s.threads[u].Working? && c in s.threads[u].batch;
        assert s'.threads[u] == s.threads[u];
      }
    }
    BatchStarts(s.ran, Popped(s.queue, n), s.fAllOk);
  }

  lemma BatchStarts(ran: seq<Check>, batch: seq<Check>, fOk: bool)
    ensures BatchRan(ran, Working(batch, 0, fOk)) && BatchRan(ran, Outside) && BatchRan(ran, Blocked(false)) && BatchRan(ran, Blocked(true))
  {}

  /** The shared end of a critical section; a returning Wait has nothing outstanding. */
  lemma LoopTopExecuted(s: State, t: nat, nBatchSize: nat)
    requires MidInv(s, t) && ExecutedOk(s) && s.nTotal >= 0 && s.nIdle >= 0
    ensures ExecutedOk(LoopTop(s, t, nBatchSize))
  {
    hide BatchRan;
    var s' := LoopTop(s, t, nBatchSize);
    BatchStarts(s.ran, [], true);
    if s.queue != [] {
      TakenExecuted(s, t, BatchSize(s.queue, s.nTotal, s.nIdle, nBatchSize));
    } else if t == MASTER && s.nTodo == 0 {
      NothingInFlight(s);
    } else {
      forall c | Outstanding(s, c)
        ensures Outstanding(s', c)
      {
        StillOutstanding(s, s', t, c);
      }
    }
  }

  /** Setting aside a thread that is not working. */
  lemma AsideExecuted(s: State, s1: State, t: nat)
    requires ExecutedOk(s) && t in s.threads && !s.threads[t].Working?
    requires s1 == s.(nTotal := s1.nTotal, nIdle := s1.nIdle, threads := s.threads[t := Outside])
    ensures ExecutedOk(s1)
  {
    hide BatchRan;
    BatchStarts(s.ran, [], true);
    forall c | Outstanding(s, c)
      ensures Outstanding(s1, c)
    {
      StillOutstanding(s, s1, t, c);
    }
  }

  lemma EnterExecuted(s: State, t: nat, nBatchSize: nat)
    requires Inv(s) && ExecutedOk(s) && Enabled(s, Enter(t)) && s.nTotal >= 0 && s.nIdle >= 0
    ensures ExecutedOk(Next(s, Enter(t), nBatchSize))
  {
    hide ExecutedOk, LoopTop, CountersOk, ResultsOk, OnceOk;
    var s1 := s.(nTotal := s.nTotal + 1);
    SameResults(s, s1);
    assert s1.(nTotal := s1.nTotal - 1) == s;
    assert s.threads[t := Outside] == s.threads;
    AsideExecuted(s, s1, t);
    LoopTopExecuted(s1, t, nBatchSize);
  }

  lemma WakeExecuted(s: State, t: nat, nBatchSize: nat)
    requires Inv(s) && ExecutedOk(s) && Enabled(s, Wake(t)) && s.nTotal >= 0 && s.nIdle > 0
    ensures ExecutedOk(Next(s, Wake(t), nBatchSize))
  {
    hide Inv, MidInv, ExecutedOk, LoopTop;
    WokenMid(s, t);
    var s1 := s.(nIdle := s.nIdle - 1, threads := s.threads[t := Outside]);
    AsideExecuted(s, s1, t);
    LoopTopIgnores(s.(nIdle := s.nIdle - 1), t, nBatchSize);
    LoopTopExecuted(s1, t, nBatchSize);
  }

  lemma RunCheckExecuted(s: State, t: nat, nBatchSize: nat)
    requires ThreadsOk(s) && ExecutedOk(s) && Enabled(s, RunCheck(t)) && s.nTotal >= 0 && s.nIdle >= 0
    ensures ExecutedOk(Next(s, RunCheck(t), nBatchSize))
  {
    var s' := Next(s, RunCheck(t), nBatchSize);
    forall c | Outstanding(s, c)
      ensures Outstanding(s', c)
    {
      if c !in s.queue {
        var u :| u in s.threads && s.threads[u].Working? && c in s.threads[u].batch;
        assert s'.threads[u].Working? && c in s'.threads[u].batch;
      }
    }
    forall u | u in s'.threads
      ensures BatchRan(s'.ran, s'.threads[u])
    {
      assert BatchRan(s.ran, s.threads[u]);
    }
  }

  lemma CleanedExecuted(s: State, t: nat)
    requires ThreadsOk(s) && ExecutedOk(s) && Enabled(s, Finish(t))
    ensures ExecutedOk(Cleaned(s, t))
  {
    var s' := Cleaned(s, t);
    assert BatchRan(s.ran, s.threads[t]);
    forall u | u in s'.threads
      ensures BatchRan(s'.ran, s'.threads[u])
    {
      assert BatchRan(s.ran, s.threads[u]);
    }
    forall c | s'.fAllOk && c in s.added && c !in s.ran
      ensures Outstanding(s', c)
    {
      if c !in s.queue {
        var u :| u in s.threads && s.threads[u].Working? && c in s.threads[u].batch;
        assert u != t;
        assert s'.threads[u] == s.threads[u];
      }
    }
  }

  lemma FinishExecuted(s: State, t: nat, nBatchSize: nat)
    requires Inv(s) && ExecutedOk(s) && Enabled(s, Finish(t)) && s.nTotal >= 0 && s.nIdle >= 0
    ensures ExecutedOk(Next(s, Finish(t), nBatchSize))
  {
    hide CountersOk, ResultsOk, OnceOk, MidInv, ExecutedOk, LoopTop, CleanUp;
    CleanedMid(s, t);
    CleanedExecuted(s, t);
    LoopTopIgnores(CleanUp(s, t), t, nBatchSize);
    LoopTopExecuted(Cleaned(s, t), t, nBatchSize);
  }

  lemma AddExecuted(s: State, oks: seq<bool>, woken: set<nat>, nBatchSize: nat)
    requires ExecutedOk(s) && Enabled(s, Add(oks, woken)) && s.nTotal >= 0 && s.nIdle >= 0
    ensures ExecutedOk(Next(s, Add(oks, woken), nBatchSize))
  {
    hide BatchRan;
    var s' := Next(s, Add(oks, woken), nBatchSize);
    BatchStarts(s.ran, [], true);
    forall u | u in s'.threads
      ensures BatchRan(s'.ran, s'.threads[u])
    {
      assert BatchRan(s.ran, s.threads[u]);
    }
    forall c | Outstanding(s, c)
      ensures Outstanding(s', c)
    {
      if c !in s.queue {
        var u :| u in s.threads && s.threads[u].Working? && c in s.threads[u].batch;
        assert s'.threads[u] == s.threads[u];
      }
    }
  }

  lemma {:induction false} RunExecuted(workers: set<nat>, states: seq<State>, steps: seq<Step>, nBatchSize: nat, i: nat)
    requires IsRun(states, steps, nBatchSize) && states[0] == Init(workers) && i < |states|
    ensures ExecutedOk(states[i])
  {
    hide Inv, Next, ExecutedOk;
    if i == 0 {
      InitExecuted(workers);
    } else {
      RunExecuted(workers, states, steps, nBatchSize, i - 1);
      RunInv(workers, states, steps, nBatchSize, i - 1);
      assert Steps(states[i - 1], steps[i - 1], states[i - 1 + 1], nBatchSize);
      StepExecuted(states[i - 1], steps[i - 1], nBatchSize);
    }
  }

  lemma InitExecuted(workers: set<nat>)
    ensures ExecutedOk(Init(workers))
  {}

  lemma StepExecuted(s: State, step: Step, nBatchSize: nat)
    requires Inv(s) && ExecutedOk(s) && Enabled(s, step) && s.nTotal >= 0 && s.nIdle >= 0 && (step.Wake? ==> s.nIdle > 0)
    ensures ExecutedOk(Next(s, step, nBatchSize))
  {
    hide ExecutedOk, Next, CountersOk, ResultsOk, OnceOk;
    match step
    case Add(oks, woken) => AddExecuted(s, oks, woken, nBatchSize);
    case Enter(t) => EnterExecuted(s, t, nBatchSize);
    case Wake(t) => WakeExecuted(s, t, nBatchSize);
    case RunCheck(t) => RunCheckExecuted(s, t, nBatchSize);
    case Finish(t) => FinishExecuted(s, t, nBatchSize);
  }

  /** In every run, a Wait that returned true has executed every check of its round. */
  lemma TrueWaitRanAll(workers: set<nat>, states: seq<State>, steps: seq<Step>, nBatchSize: nat, w: nat)
    requires IsRun(states, steps, nBatchSize) && states[0] == Init(workers)
    requires w < |states[|steps|].waits| && states[|steps|].waits[w].result
    ensures forall c :: c in states[|steps|].waits[w].checks ==> c in states[|steps|].ran
  {
    RunExecuted(workers, states, steps, nBatchSize, |steps|);
    assert states[|steps|].waits[w] in states[|steps|].waits;
  }

  // ----- progress ----------------------------------------------------------------------------------------------

  /** A wake-up nobody asked for. */
  predicate Spurious(s: State, step: Step) {
    step.Wake? && step.t in s.threads && s.threads[step.t] == Blocked(false)
  }

  /** Steps taken on behalf of a Wait in progress: not the master's own Add or entry into Loop. */
  predicate Internal(step: Step) {
    !step.Add? && step != Enter(MASTER)
  }

  /** A master asleep without a pending notification has a worker in flight that will finish. */
  lemma SleepingMasterHasWorker(s: State) returns (t: nat)
    requires Inv(s) && s.threads[MASTER] == Blocked(false)
    ensures t in s.threads && t != MASTER && s.threads[t].Working?
  {
    t := TotalWitness(s.threads, InFlight());
  }

  /** No deadlock: while the master is inside Wait, some non-spurious step is enabled. */
  lemma WaitNeverStuck(s: State) returns (step: Step)
    requires Inv(s) && !s.threads[MASTER].Outside?
    ensures Enabled(s, step) && Internal(step) && !Spurious(s, step)
  {
    var x := s.threads[MASTER];
    if x == Blocked(true) {
      step := Wake(MASTER);
    } else {
      var t := MASTER;
      if x.Blocked? {
        t := SleepingMasterHasWorker(s);
      }
      step := if s.threads[t].next < |s.threads[t].batch| then RunCheck(t) else Finish(t);
    }
  }

  function Weight(): Thread -> int {
    (x: Thread) => match x
      case Outside => 1
      case Blocked(notified) => if notified then 1 else 0
      case Working(batch, next, _) => 2 + if next <= |batch| then |batch| - next else 0
  }

  ghost function MasterInside(s: State): int {
    if MASTER in s.threads && s.threads[MASTER].Outside? then 0 else 1
  }

  /** Work left: queued checks weigh four, threads by what they can still do. */
  ghost function Measure(s: State): int {
    4 * |s.queue| + Total(s.threads, Weight()) + MasterInside(s)
  }

  /** The measure without the share of t. */
  ghost function Rest(s: State, t: nat): int
    requires t in s.threads
  {
    4 * |s.queue| + Total(s.threads, Weight()) - Weight()(s.threads[t])
  }

  lemma LoopTopMeasure(s: State, t: nat, nBatchSize: nat)
    requires MASTER in s.threads && t in s.threads && s.nTotal >= 0 && s.nIdle >= 0
    ensures Measure(LoopTop(s, t, nBatchSize)) <= Rest(s, t) + if t == MASTER then 1 else MasterInside(s)
  {
    hide Total;
    TotalUpdate(s.threads, t, Outside, Weight());
    TotalUpdate(s.threads, t, Blocked(false), Weight());
    if s.queue != [] {
      var x := Working(Popped(s.queue, BatchSize(s.queue, s.nTotal, s.nIdle, nBatchSize)), 0, s.fAllOk);
      TotalUpdate(s.threads, t, x, Weight());
    }
  }

  /** Telling the master weighs at most one. */
  lemma CleanUpMeasure(s: State, t: nat)
    requires MASTER in s.threads && t in s.threads && s.threads[t].Working?
    ensures Rest(CleanUp(s, t), t) <= Rest(s, t) + 1 && (t != MASTER ==> MasterInside(CleanUp(s, t)) == MasterInside(s))
  {
    hide Total;
    var told := Notified(s.threads, {MASTER});
    TotalUpdate(s.threads, MASTER, told[MASTER], Weight());
    assert told == s.threads[MASTER := told[MASTER]];
  }

  lemma EnterMeasure(s: State, t: nat, nBatchSize: nat)
    requires MASTER in s.threads && t in s.threads && s.threads[t].Outside? && t != MASTER && s.nTotal >= 0 && s.nIdle >= 0
    ensures Measure(Next(s, Enter(t), nBatchSize)) < Measure(s)
  {
    hide LoopTop, Total;
    LoopTopMeasure(s.(nTotal := s.nTotal + 1), t, nBatchSize);
  }

  lemma WakeMeasure(s: State, t: nat, nBatchSize: nat)
    requires MASTER in s.threads && t in s.threads && s.threads[t].Blocked? && s.nTotal >= 0 && s.nIdle > 0
    ensures Measure(Next(s, Wake(t), nBatchSize)) <= Measure(s) - if s.threads[t].notified then 1 else 0
  {
    hide LoopTop, Total;
    LoopTopMeasure(s.(nIdle := s.nIdle - 1), t, nBatchSize);
  }

  lemma RunCheckMeasure(s: State, t: nat, nBatchSize: nat)
    requires MASTER in s.threads && Enabled(s, RunCheck(t)) && s.nTotal >= 0 && s.nIdle >= 0
    ensures Measure(Next(s, RunCheck(t), nBatchSize)) < Measure(s)
  {
    hide Total;
    var x := s.threads[t];
    TotalUpdate(s.threads, t, Working(x.batch, x.next + 1, x.batch[x.next].ok), Weight());
    TotalUpdate(s.threads, t, Working(x.batch, x.next + 1, false), Weight());
  }

  lemma FinishMeasure(s: State, t: nat, nBatchSize: nat)
    requires MASTER in s.threads && Enabled(s, Finish(t)) && s.nTotal >= 0 && s.nIdle >= 0
    ensures Measure(Next(s, Finish(t), nBatchSize)) < Measure(s)
  {
    assert CleanUp(s, t).nTotal >= 0 && CleanUp(s, t).nIdle >= 0 && MASTER in CleanUp(s, t).threads;
    hide LoopTop, CleanUp, Total;
    CleanUpMeasure(s, t);
    NotifiedElsewhere(s, t);
    LoopTopMeasure(CleanUp(s, t), t, nBatchSize);
  }

  /** Every internal step that is not a spurious wake-up uses up some of the work left. */
  lemma StepMeasure(s: State, step: Step, s': State, nBatchSize: nat)
    requires MASTER in s.threads && Steps(s, step, s', nBatchSize) && Internal(step)
    ensures Measure(s') <= Measure(s) - if Spurious(s, step) then 0 else 1
  {
    hide Measure, LoopTop, CleanUp;
    match step
    case Enter(t) => EnterMeasure(s, t, nBatchSize);
    case Wake(t) => WakeMeasure(s, t, nBatchSize);
    case RunCheck(t) => RunCheckMeasure(s, t, nBatchSize);
    case Finish(t) => FinishMeasure(s, t, nBatchSize);
  }

  function NonSpurious(states: seq<State>, steps: seq<Step>): nat
    requires |steps| < |states|
  {
    if steps == [] then 0
    else NonSpurious(states[..|states| - 1], steps[..|steps| - 1]) + if Spurious(states[|steps| - 1], steps[|steps| - 1]) then 0 else 1
  }

  /**
   * Wait terminates under every scheduler: however the threads interleave, at most Measure steps other
   * than spurious wake-ups can follow, and WaitNeverStuck offers one more until the master has returned.
   */
  lemma {:induction false} InternalRunBounded(states: seq<State>, steps: seq<Step>, nBatchSize: nat)
    requires IsRun(states, steps, nBatchSize) && Inv(states[0])
    requires forall i :: 0 <= i < |steps| ==> Internal(steps[i])
    ensures Inv(states[|steps|])
    ensures NonSpurious(states, steps) <= Measure(states[0]) - Measure(states[|steps|])
    ensures Measure(states[|steps|]) >= 0
    decreases |steps|
  {
    hide Inv, Measure, Next, Next';
    var n := |steps| - 1;
    if steps != [] {
      InternalRunBounded(states[..n + 1], steps[..n], nBatchSize);
      var s := states[n];
      assert Steps(s, steps[n], states[n + 1], nBatchSize);
      NextSame(s, steps[n], states[n + 1], nBatchSize);
      StepMeasure(s, steps[n], states[n + 1], nBatchSize);
    }
    MeasureNonNegative(states[|steps|]);
  }

  lemma NextSame(s: State, step: Step, s': State, nBatchSize: nat)
    requires Inv(s) && Steps(s, step, s', nBatchSize)
    ensures Inv(s') && MASTER in s.threads
  {
    hide ResultsOk, OnceOk, CountersOk, LoopTop, CleanUp;
    StepInv(s, step, nBatchSize);
  }

  lemma MeasureNonNegative(s: State)
    ensures Measure(s) >= 0
  {
    SumNonNegative(s.threads.Keys, PerThread(s.threads, Weight()));
  }
}
