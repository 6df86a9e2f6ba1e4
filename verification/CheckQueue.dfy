/** The master/worker verification queue (`CCheckQueue`).

    Every critical section, and every piece of work done outside the lock, is one atomic step of
    a state machine.  Thread 0 is the master; all interleavings, and spurious wake-ups of the
    condition variables, are allowed.  No stop is requested. */
module CheckQueue {
  import Nonlinear

  /** A queued verification, and what calling it returns. */
  datatype Check = Check(id: nat, passes: bool)

  datatype Thread =
    /** Not inside Loop: the master between sessions, a worker not yet started. */
    | Outside
    /** About to take the lock; `batch` is the work just finished (empty on the first turn). */
    | Entering(batch: seq<Check>, ok: bool)
    /** Waiting on its condition variable. */
    | Asleep
    /** Working outside the lock; `done` checks of the batch are behind it. */
    | Working(batch: seq<Check>, done: nat, ok: bool)

  const MASTER: nat := 0

  /** The first five fields are the class's; the rest is the threads' local state, the state of
      the master's condition variable, the checks reported back in this session (kept for the
      specification only), and what the calls of Wait returned so far. */
  datatype State = State(
    queue: seq<Check>, nIdle: int, nTotal: int, allOk: bool, nTodo: int,
    threads: seq<Thread>, masterNotified: bool,
    accounted: multiset<Check>, answers: seq<bool>)

  datatype Step =
    | StartWorker(t: nat)
    | Add(checks: seq<Check>)
    | BeginWait
    | Enter(t: nat)
    | Wake(t: nat)
    | Execute(t: nat)
    | Finish(t: nat)

  predicate AllPass(checks: multiset<Check>) {
    forall c | c in checks :: c.passes
  }

  predicate Enabled(s: State, step: Step) {
    match step
    case StartWorker(t) => 0 < t < |s.threads| && s.threads[t].Outside?
    case Add(checks) => 0 < |s.threads| && s.threads[MASTER].Outside?
    case BeginWait => 0 < |s.threads| && s.threads[MASTER].Outside?
    case Enter(t) => t < |s.threads| && s.threads[t].Entering?
    case Wake(t) => t < |s.threads| && s.threads[t].Asleep?
    case Execute(t) => t < |s.threads| && s.threads[t].Working? && s.threads[t].done < |s.threads[t].batch|
    case Finish(t) => t < |s.threads| && s.threads[t].Working? && s.threads[t].done >= |s.threads[t].batch|
  }

  /** How many checks to take: a share of what is left, at least one, at most a batch. */
  function BatchSize(queued: nat, nTotal: int, nIdle: int, nBatchSize: nat): (n: nat)
    requires queued > 0 && nTotal + nIdle + 1 > 0
    ensures 1 <= n <= queued && (nBatchSize >= 1 ==> n <= nBatchSize)
  {
    var share := queued / (nTotal + nIdle + 1);
    assert share <= queued by { Nonlinear.DivAtMost(queued, nTotal + nIdle + 1); }
    var capped := if nBatchSize < share then nBatchSize else share;
    if capped < 1 then 1 else capped
  }

  /** The share: what is left, divided among the threads at work and one more, the idle ones counting twice; or else
      the configured size, or one. */
  lemma {:induction false} BatchShare(queued: nat, nTotal: int, nIdle: int, nBatchSize: nat)
    requires queued > 0 && nTotal + nIdle + 1 > 0
    ensures var n, shares := BatchSize(queued, nTotal, nIdle, nBatchSize), nTotal + nIdle + 1;
            && (n > 1 ==> n * shares <= queued)
            && (n < nBatchSize ==> (n + 1) * shares > queued)
  {
    var shares := nTotal + nIdle + 1;
    var share := queued / shares;
    Nonlinear.DivMul(queued, shares);
    Nonlinear.ModBelow(queued, shares);
    Nonlinear.MulNext(share, shares);
    var n := BatchSize(queued, nTotal, nIdle, nBatchSize);
    if n > 1 { Nonlinear.MulMono(n, share, shares); }
    if n < nBatchSize { Nonlinear.MulMono(share + 1, n + 1, shares); }
  }

  /** Pops from the back one at a time, as the loop over the stack does. */
  function Reverse(s: seq<Check>): (r: seq<Check>)
    ensures |r| == |s| && multiset(r) == multiset(s)
  {
    if s == [] then []
    else
      assert s == s[..|s| - 1] + [s[|s| - 1]];
      [s[|s| - 1]] + Reverse(s[..|s| - 1])
  }

  /** The clean-up of the previous turn.  Until the loop head decides, under the same lock, what
      the thread does next, its slot says Outside. */
  function CleanUp(s: State, t: nat): State
    requires MASTER < |s.threads| && t < |s.threads| && s.threads[t].Entering?
  {
    var n := |s.threads[t].batch|;
    if n > 0 then
      s.(threads := s.threads[t := Outside],
         allOk := s.allOk && s.threads[t].ok,
         nTodo := s.nTodo - n,
         masterNotified := s.masterNotified ||
                           (s.nTodo - n == 0 && t != MASTER && s.threads[MASTER].Asleep?),
         accounted := s.accounted + multiset(s.threads[t].batch))
    else s.(threads := s.threads[t := Outside], nTotal := s.nTotal + 1)
  }

  /** Back from the condition variable, holding the lock again. */
  function WakeUp(s: State, t: nat): State
    requires t < |s.threads|
  {
    s.(threads := s.threads[t := Outside], nIdle := s.nIdle - 1,
       masterNotified := if t == MASTER then false else s.masterNotified)
  }

  /** The head of the while loop: return, go to sleep, or take a batch.  Still under the lock. */
  function LoopHead(s: State, t: nat, nBatchSize: nat): State
    requires t < |s.threads|
    requires s.queue != [] ==> s.nTotal + s.nIdle + 1 > 0
  {
    if s.queue == [] then
      if t == MASTER && s.nTodo == 0 then
        s.(nTotal := s.nTotal - 1, allOk := true, threads := s.threads[t := Outside],
           accounted := multiset{}, answers := s.answers + [s.allOk])
      else
        s.(nIdle := s.nIdle + 1, threads := s.threads[t := Asleep],
           masterNotified := if t == MASTER then false else s.masterNotified)
    else
      var n := BatchSize(|s.queue|, s.nTotal, s.nIdle, nBatchSize);
      var rest := |s.queue| - n;
      s.(queue := s.queue[..rest],
         threads := s.threads[t := Working(Reverse(s.queue[rest..]), 0, s.allOk)])
  }

  /** The local effect of running the next check of a batch: after a failure the rest is skipped. */
  function ExecuteOne(w: Thread): Thread
    requires w.Working? && w.done < |w.batch|
  {
    Working(w.batch, w.done + 1, if w.ok then w.batch[w.done].passes else w.ok)
  }

  predicate CanRun(s: State, step: Step) {
    && Enabled(s, step)
    && (step.Enter? || step.Wake? ==> s.nTotal >= 0 && s.nIdle >= 0 && (step.Wake? ==> s.nIdle > 0))
  }

  function Apply(s: State, step: Step, nBatchSize: nat): State
    requires CanRun(s, step)
  {
    match step
    case StartWorker(t) => s.(threads := s.threads[t := Entering([], true)])
    case Add(checks) => s.(queue := s.queue + checks, nTodo := s.nTodo + |checks|)
    case BeginWait => s.(threads := s.threads[MASTER := Entering([], true)])
    case Enter(t) => LoopHead(CleanUp(s, t), t, nBatchSize)
    case Wake(t) =>
      LoopHead(WakeUp(s, t), t, nBatchSize)
    case Execute(t) => s.(threads := s.threads[t := ExecuteOne(s.threads[t])])
    case Finish(t) => s.(threads := s.threads[t := Entering(s.threads[t].batch, s.threads[t].ok)])
  }

  // ---- sums over the threads ----

  function Batch(w: Thread): seq<Check> {
    if w.Entering? || w.Working? then w.batch else []
  }

  /** Everything some thread has taken from the queue and not yet reported back. */
  function Held(ts: seq<Thread>): multiset<Check> {
    if ts == [] then multiset{} else Held(ts[..|ts| - 1]) + multiset(Batch(ts[|ts| - 1]))
  }

  lemma {:induction false} HeldUpdate(ts: seq<Thread>, i: nat, w: Thread)
    requires i < |ts|
    ensures multiset(Batch(ts[i])) <= Held(ts)
    ensures Held(ts[i := w]) == Held(ts) - multiset(Batch(ts[i])) + multiset(Batch(w))
  {
    var last := |ts| - 1;
    if i == last {
      assert ts[i := w][..last] == ts[..last];
    } else {
      HeldUpdate(ts[..last], i, w);
      assert ts[i := w][..last] == ts[..last][i := w];
      Regroup(Held(ts[..last]), multiset(Batch(ts[i])), multiset(Batch(w)), multiset(Batch(ts[last])));
    }
  }

  lemma {:induction false} Regroup(all: multiset<Check>, out: multiset<Check>, into: multiset<Check>,
      rest: multiset<Check>)
    requires out <= all
    ensures (all - out + into) + rest == (all + rest) - out + into
    ensures out <= all + rest
  {
  }

  lemma {:induction false} HeldMember(ts: seq<Thread>)
    requires |Held(ts)| > 0
    ensures exists i :: 0 <= i < |ts| && Batch(ts[i]) != []
  {
    var last := |ts| - 1;
    if Batch(ts[last]) == [] {
      HeldMember(ts[..last]);
      var i :| 0 <= i < last && Batch(ts[..last][i]) != [];
      assert Batch(ts[i]) != [];
    }
  }

  function Sum(ts: seq<Thread>, weight: Thread -> nat): nat {
    if ts == [] then 0 else Sum(ts[..|ts| - 1], weight) + weight(ts[|ts| - 1])
  }

  lemma {:induction false} SumUpdate(ts: seq<Thread>, i: nat, w: Thread, weight: Thread -> nat)
    requires i < |ts|
    ensures Sum(ts[i := w], weight) == Sum(ts, weight) - weight(ts[i]) + weight(w)
    ensures weight(ts[i]) <= Sum(ts, weight)
  {
    var last := |ts| - 1;
    if i == last {
      assert ts[i := w][..last] == ts[..last];
    } else {
      SumUpdate(ts[..last], i, w, weight);
      assert ts[i := w][..last] == ts[..last][i := w];
    }
  }

  function Idle(w: Thread): nat { if w.Asleep? then 1 else 0 }

  /** Counted in nTotal: inside Loop, past the first lock. */
  function Inside(w: Thread): nat {
    if w.Asleep? || w.Working? || (w.Entering? && w.batch != []) then 1 else 0
  }

  // ---- the invariant ----

  /** What a thread's private verdict stands for: `true` means everything it ran passed, `false`
      that some check of this session failed. */
  predicate ThreadOk(w: Thread, asked: multiset<Check>) {
    match w
    case Working(batch, done, ok) =>
      && 0 < |batch| && done <= |batch|
      && (ok ==> forall i | 0 <= i < done :: batch[i].passes)
      && (!ok ==> !AllPass(asked))
    case Entering(batch, ok) =>
      && (batch == [] ==> ok)
      && (ok ==> forall i | 0 <= i < |batch| :: batch[i].passes)
      && (!ok ==> !AllPass(asked))
    case _ => true
  }

  /** The checks asked for in this session, once `step` has led from s to s'. */
  function Asked(s: State, asked: multiset<Check>, step: Step, s': State): multiset<Check>
    requires 0 < |s.threads| && 0 < |s'.threads|
  {
    if Leaves(s, s') then multiset{} else if step.Add? then asked + multiset(step.checks) else asked
  }

  /** The master returns from Wait. */
  predicate Leaves(s: State, s': State)
    requires 0 < |s.threads| && 0 < |s'.threads|
  {
    !s.threads[MASTER].Outside? && s'.threads[MASTER].Outside?
  }

  /** `asked` are the checks asked for since the last return of Wait. */
  predicate Inv(s: State, asked: multiset<Check>) { InvWith(s, asked, 0) }

  /** The invariant while `extra` threads hold the lock between two of their states. */
  predicate InvWith(s: State, asked: multiset<Check>, extra: nat) {
    0 < |s.threads| && Counted(s, asked, extra) && Truthful(s, asked) && MasterWatched(s)
  }

  /** nTodo counts queued checks and checks in unfinished batches; nothing asked is lost. */
  predicate Counted(s: State, asked: multiset<Check>, extra: nat) {
    && s.nTodo == |s.queue| + |Held(s.threads)|
    && asked == multiset(s.queue) + Held(s.threads) + s.accounted
    && s.nIdle == Sum(s.threads, Idle)
    && s.nTotal == Sum(s.threads, Inside) + extra
  }

  predicate Truthful(s: State, asked: multiset<Check>) {
    && (s.allOk ==> AllPass(s.accounted))
    && (!s.allOk ==> !AllPass(asked))
    && (forall t | 0 <= t < |s.threads| :: ThreadOk(s.threads[t], asked))
  }

  /** A sleeping master has nothing to take, and unless it was notified there is work in flight. */
  predicate MasterWatched(s: State)
    requires 0 < |s.threads|
  {
    && (s.threads[MASTER].Asleep? ==> s.queue == [] && (s.nTodo > 0 || s.masterNotified))
    && (s.masterNotified ==> s.threads[MASTER].Asleep?)
  }

  function Init(workers: nat): State {
    State([], 0, 0, true, 0, seq(workers + 1, _ => Outside), false, multiset{}, [])
  }

  lemma {:induction false} OutsideSums(n: nat)
    ensures var ts := seq(n, _ => Outside);
            Held(ts) == multiset{} && Sum(ts, Idle) == 0 && Sum(ts, Inside) == 0
  {
    if n > 0 {
      OutsideSums(n - 1);
      assert seq(n, _ => Outside)[..n - 1] == seq(n - 1, _ => Outside);
    }
  }

  lemma {:induction false} InvInit(workers: nat)
    ensures Inv(Init(workers), multiset{})
  {
    OutsideSums(workers + 1);
  }

  lemma {:induction false} SetThread(s: State, t: nat, w: Thread)
    requires t < |s.threads|
    ensures var ts := s.threads[t := w];
            && multiset(Batch(s.threads[t])) <= Held(s.threads)
            && Held(ts) == Held(s.threads) - multiset(Batch(s.threads[t])) + multiset(Batch(w))
            && |Held(ts)| == |Held(s.threads)| - |Batch(s.threads[t])| + |Batch(w)|
            && Sum(ts, Idle) == Sum(s.threads, Idle) - Idle(s.threads[t]) + Idle(w)
            && Sum(ts, Inside) == Sum(s.threads, Inside) - Inside(s.threads[t]) + Inside(w)
            && Idle(s.threads[t]) <= Sum(s.threads, Idle)
  {
    HeldUpdate(s.threads, t, w);
    SumUpdate(s.threads, t, w, Idle);
    SumUpdate(s.threads, t, w, Inside);
  }

  lemma {:induction false} EnabledCanRun(s: State, asked: multiset<Check>, step: Step)
    requires Inv(s, asked) && Enabled(s, step)
    ensures CanRun(s, step)
  {
    if step.Wake? { SetThread(s, step.t, Asleep); }
  }

  lemma {:induction false} InvAdd(s: State, asked: multiset<Check>, checks: seq<Check>)
    requires Inv(s, asked) && Enabled(s, Add(checks))
    ensures Inv(s.(queue := s.queue + checks, nTodo := s.nTodo + |checks|), asked + multiset(checks))
  {
    var asked' := asked + multiset(checks);
    assert multiset(s.queue + checks) == multiset(s.queue) + multiset(checks);
    if !AllPass(asked) {
      var c :| c in asked && !c.passes;
      assert c in asked';
    }
    forall t | 0 <= t < |s.threads| ensures ThreadOk(s.threads[t], asked') {
      assert ThreadOk(s.threads[t], asked);
    }
  }

  lemma {:induction false} HeldIsAdded(s: State, asked: multiset<Check>, t: nat, c: Check)
    requires asked == multiset(s.queue) + Held(s.threads) + s.accounted
    requires t < |s.threads| && c in Batch(s.threads[t])
    ensures c in asked
  {
    SetThread(s, t, Outside);
    assert c in multiset(Batch(s.threads[t]));
  }

  lemma {:induction false} TruthfulSet(s: State, asked: multiset<Check>, t: nat, w: Thread)
    requires Truthful(s, asked) && t < |s.threads| && ThreadOk(w, asked)
    ensures Truthful(s.(threads := s.threads[t := w]), asked)
  {
  }

  lemma {:induction false} CountedSet(s: State, asked: multiset<Check>, extra: nat, t: nat, w: Thread, s': State,
      extra': nat)
    requires Counted(s, asked, extra) && t < |s.threads| && s'.threads == s.threads[t := w]
    requires s'.nTodo - |s'.queue| - |Batch(w)| == s.nTodo - |s.queue| - |Batch(s.threads[t])|
    requires multiset(s'.queue) + multiset(Batch(w)) + s'.accounted
          == multiset(s.queue) + multiset(Batch(s.threads[t])) + s.accounted
    requires s'.nIdle - Idle(w) == s.nIdle - Idle(s.threads[t])
    requires s'.nTotal - Inside(w) - extra' == s.nTotal - Inside(s.threads[t]) - extra
    ensures Counted(s', asked, extra')
  {
    SetThread(s, t, w);
    Rebalance(multiset(s.queue), Held(s.threads), multiset(Batch(s.threads[t])), s.accounted,
              multiset(s'.queue), multiset(Batch(w)), s'.accounted);
  }

  lemma {:induction false} Rebalance(queue: multiset<Check>, held: multiset<Check>, out: multiset<Check>,
      acc: multiset<Check>, queue': multiset<Check>, into: multiset<Check>, acc': multiset<Check>)
    requires out <= held && queue' + into + acc' == queue + out + acc
    ensures queue' + (held - out + into) + acc' == queue + held + acc
  {
    forall c ensures (queue' + (held - out + into) + acc')[c] == (queue + held + acc)[c] {
      assert (queue' + into + acc')[c] == (queue + out + acc)[c];
    }
  }

  lemma {:induction false} InvLocal(s: State, asked: multiset<Check>, t: nat, w: Thread)
    requires Inv(s, asked) && t < |s.threads| && ThreadOk(w, asked)
    requires Batch(w) == Batch(s.threads[t]) && Idle(w) == Idle(s.threads[t]) && Inside(w) == Inside(s.threads[t])
    ensures Inv(s.(threads := s.threads[t := w]), asked)
  {
    CountedSet(s, asked, 0, t, w, s.(threads := s.threads[t := w]), 0);
    TruthfulSet(s, asked, t, w);
  }

  lemma {:induction false} InvExecute(s: State, asked: multiset<Check>, t: nat)
    requires Inv(s, asked) && Enabled(s, Execute(t))
    ensures Inv(s.(threads := s.threads[t := ExecuteOne(s.threads[t])]), asked)
  {
    var w := s.threads[t];
    assert ThreadOk(w, asked);
    HeldIsAdded(s, asked, t, w.batch[w.done]);
    assert ThreadOk(ExecuteOne(w), asked);
    InvLocal(s, asked, t, ExecuteOne(w));
  }

  lemma {:induction false} InvEntered(s: State, asked: multiset<Check>, t: nat)
    requires Inv(s, asked) && Enabled(s, Enter(t))
    ensures InvWith(CleanUp(s, t), asked, 1)
  {
    CountedSet(s, asked, 0, t, Outside, CleanUp(s, t), 1);
    EnteredTruthful(s, asked, t);
  }

  lemma {:induction false} EnteredTruthful(s: State, asked: multiset<Check>, t: nat)
    requires Inv(s, asked) && Enabled(s, Enter(t))
    ensures Truthful(CleanUp(s, t), asked)
  {
    var w, s' := s.threads[t], CleanUp(s, t);
    assert ThreadOk(w, asked);
    TruthfulSet(s, asked, t, Outside);
    if s'.allOk {
      forall c | c in s'.accounted ensures c.passes {
        if c !in s.accounted { assert c in w.batch; }
      }
    }
  }

  lemma {:induction false} InvWoken(s: State, asked: multiset<Check>, t: nat)
    requires Inv(s, asked) && Enabled(s, Wake(t))
    ensures InvWith(WakeUp(s, t), asked, 1)
  {
    CountedSet(s, asked, 0, t, Outside, WakeUp(s, t), 1);
    TruthfulSet(s, asked, t, Outside);
  }

  /** When the master finds nothing left to do, no thread holds anything back, so what has been
      accounted for is everything that was asked. */
  lemma {:induction false} NothingLeft(s: State, asked: multiset<Check>)
    requires InvWith(s, asked, 1) && s.queue == [] && s.nTodo == 0
    ensures Held(s.threads) == multiset{} && s.accounted == asked
    ensures s.allOk <==> AllPass(asked)
    ensures forall u | 0 <= u < |s.threads| :: ThreadOk(s.threads[u], multiset{})
  {
    forall u | 0 <= u < |s.threads| ensures ThreadOk(s.threads[u], multiset{}) {
      assert ThreadOk(s.threads[u], asked);
      SetThread(s, u, Outside);
    }
  }

  lemma {:induction false} InvReturned(s: State, asked: multiset<Check>, nBatchSize: nat)
    requires InvWith(s, asked, 1) && s.threads[MASTER].Outside? && s.queue == [] && s.nTodo == 0
    ensures Inv(LoopHead(s, MASTER, nBatchSize), multiset{})
    ensures LoopHead(s, MASTER, nBatchSize).answers == s.answers + [AllPass(asked)]
  {
    var s' := LoopHead(s, MASTER, nBatchSize);
    NothingLeft(s, asked);
    SetThread(s, MASTER, Outside);
    assert s'.threads == s.threads;
  }

  lemma {:induction false} InvAsleep(s: State, asked: multiset<Check>, t: nat, nBatchSize: nat)
    requires InvWith(s, asked, 1) && t < |s.threads| && s.threads[t].Outside? && s.queue == []
    requires !(t == MASTER && s.nTodo == 0)
    ensures Inv(LoopHead(s, t, nBatchSize), asked)
  {
    CountedSet(s, asked, 1, t, Asleep, LoopHead(s, t, nBatchSize), 0);
    TruthfulSet(s, asked, t, Asleep);
  }

  lemma {:induction false} InvTook(s: State, asked: multiset<Check>, t: nat, nBatchSize: nat)
    requires InvWith(s, asked, 1) && t < |s.threads| && s.threads[t].Outside? && s.queue != []
    ensures Inv(LoopHead(s, t, nBatchSize), asked)
  {
    var s' := LoopHead(s, t, nBatchSize);
    var rest := |s'.queue|;
    assert s.queue == s.queue[..rest] + s.queue[rest..];
    CountedSet(s, asked, 1, t, s'.threads[t], s', 0);
    TruthfulSet(s, asked, t, s'.threads[t]);
  }

  /** Every step of every thread keeps the invariant: in particular no batch pops from an empty
      queue and the batch-size division is well defined.  Wait answers exactly when it is left,
      and with the truth about the checks asked for. */
  lemma {:induction false} InvStep(s: State, asked: multiset<Check>, step: Step, nBatchSize: nat)
    requires Inv(s, asked) && Enabled(s, step)
    ensures CanRun(s, step)
    ensures var s' := Apply(s, step, nBatchSize);
            && |s'.threads| == |s.threads| > 0
            && Inv(s', Asked(s, asked, step, s'))
            && s'.answers == (if Leaves(s, s') then s.answers + [AllPass(asked)] else s.answers)
            && (step.BeginWait? ==> !s'.threads[MASTER].Outside?)
  {
    hide InvWith, LoopHead, ThreadOk;
    EnabledCanRun(s, asked, step);
    match step
    case StartWorker(t) => InvLocal(s, asked, t, Entering([], true));
    case Add(checks) => InvAdd(s, asked, checks);
    case BeginWait => InvLocal(s, asked, MASTER, Entering([], true));
    case Execute(t) => InvExecute(s, asked, t);
    case Finish(t) =>
      FinishedOk(s, asked, t);
      InvLocal(s, asked, t, Entering(s.threads[t].batch, s.threads[t].ok));
    case Enter(t) =>
      InvEntered(s, asked, t);
      InvLoopHead(CleanUp(s, t), asked, t, nBatchSize);
    case Wake(t) =>
      InvWoken(s, asked, t);
      InvLoopHead(WakeUp(s, t), asked, t, nBatchSize);
  }

  lemma {:induction false} FinishedOk(s: State, asked: multiset<Check>, t: nat)
    requires Inv(s, asked) && Enabled(s, Finish(t))
    ensures ThreadOk(Entering(s.threads[t].batch, s.threads[t].ok), asked)
    ensures |s.threads[t].batch| > 0
  {
    assert ThreadOk(s.threads[t], asked);
  }

  lemma {:induction false} InvLoopHead(s: State, asked: multiset<Check>, t: nat, nBatchSize: nat)
    requires InvWith(s, asked, 1) && t < |s.threads| && s.threads[t].Outside?
    ensures var s' := LoopHead(s, t, nBatchSize);
            if t == MASTER && s'.threads[t].Outside?
            then Inv(s', multiset{}) && s'.answers == s.answers + [AllPass(asked)]
            else Inv(s', asked) && s'.answers == s.answers && !s'.threads[t].Outside?
    ensures var ts := LoopHead(s, t, nBatchSize).threads;
            |ts| == |s.threads| && (t != MASTER ==> ts[MASTER] == s.threads[MASTER])
  {
    if s.queue != [] {
      InvTook(s, asked, t, nBatchSize);
    } else if t == MASTER && s.nTodo == 0 {
      InvReturned(s, asked, nBatchSize);
    } else {
      InvAsleep(s, asked, t, nBatchSize);
    }
  }

  // ---- whole runs ----

  /** A run: the states passed through, each reached from the one before by an enabled step. */
  ghost predicate IsRun(states: seq<State>, steps: seq<Step>, nBatchSize: nat) {
    && |states| == |steps| + 1
    && (exists workers: nat :: states[0] == Init(workers))
    && (forall i | 0 <= i < |steps| ::
          CanRun(states[i], steps[i]) && states[i + 1] == Apply(states[i], steps[i], nBatchSize))
  }

  /** Wait returns at step k. */
  predicate ReturnsAt(states: seq<State>, k: nat) {
    k + 1 < |states| && 0 < |states[k].threads| && 0 < |states[k + 1].threads| && Leaves(states[k], states[k + 1])
  }

  /** Wait does not return between steps i and j. */
  predicate SameSession(states: seq<State>, i: nat, j: nat) {
    forall k | i <= k < j :: !ReturnsAt(states, k)
  }

  /** Everything added before step n, in the session of step n, passes. */
  predicate SessionPasses(states: seq<State>, steps: seq<Step>, n: nat)
    requires n <= |steps|
  {
    forall j, c | 0 <= j < n && steps[j].Add? && SameSession(states, j, n) && c in steps[j].checks :: c.passes
  }

  /** In every run the invariant holds after n steps, of checks that pass if those added pass. */
  lemma {:induction false} InvRun(states: seq<State>, steps: seq<Step>, nBatchSize: nat, n: nat)
    returns (asked: multiset<Check>)
    requires IsRun(states, steps, nBatchSize) && n <= |steps|
    ensures Inv(states[n], asked)
    ensures AllPass(asked) <==> SessionPasses(states, steps, n)
  {
    if n == 0 {
      var workers: nat :| states[0] == Init(workers);
      InvInit(workers);
      asked := multiset{};
    } else {
      var before := InvRun(states, steps, nBatchSize, n - 1);
      InvStep(states[n - 1], before, steps[n - 1], nBatchSize);
      asked := Asked(states[n - 1], before, steps[n - 1], states[n]);
      SessionStep(states, steps, n - 1, before);
    }
  }

  lemma {:induction false} SessionStep(states: seq<State>, steps: seq<Step>, n: nat, asked: multiset<Check>)
    requires n < |steps| < |states| && 0 < |states[n].threads| && 0 < |states[n + 1].threads|
    requires AllPass(asked) <==> SessionPasses(states, steps, n)
    ensures AllPass(Asked(states[n], asked, steps[n], states[n + 1])) <==> SessionPasses(states, steps, n + 1)
  {
    hide Leaves;
    var m := n + 1;
    if Leaves(states[n], states[m]) {
      assert ReturnsAt(states, n);
    } else {
      assert SameSession(states, n, m);
      forall j: nat | j < n ensures SameSession(states, j, m) == SameSession(states, j, n) {
        Extend(states, j, n);
      }
    }
  }

  lemma {:induction false} Extend(states: seq<State>, j: nat, n: nat)
    requires j <= n && !ReturnsAt(states, n)
    ensures SameSession(states, j, n + 1) == SameSession(states, j, n)
  {
  }

  /** In every run, at every step: Wait gives its answer exactly when the master leaves it, and the answer
      is true exactly when every check added since it was last left passes.  A master found asleep has
      either been notified or some worker holds an unfinished batch. */
  lemma {:induction false} WaitTellsTheTruth(states: seq<State>, steps: seq<Step>, nBatchSize: nat, n: nat)
    requires IsRun(states, steps, nBatchSize) && n < |steps|
    ensures var s, s' := states[n], states[n + 1];
            && 0 < |s.threads| == |s'.threads|
            && s'.answers == (if Leaves(s, s') then s.answers + [SessionPasses(states, steps, n)] else s.answers)
            && (steps[n].BeginWait? ==> !s'.threads[MASTER].Outside?)
            && (s.threads[MASTER].Asleep? ==>
                  s.masterNotified || exists t :: 0 < t < |s.threads| && Batch(s.threads[t]) != [])
  {
    var asked := InvRun(states, steps, nBatchSize, n);
    InvStep(states[n], asked, steps[n], nBatchSize);
    var s := states[n];
    if s.threads[MASTER].Asleep? && !s.masterNotified { MasterNeverStuck(s, asked); }
  }

  lemma {:induction false} MasterNeverStuck(s: State, asked: multiset<Check>)
    requires Inv(s, asked) && s.threads[MASTER].Asleep? && !s.masterNotified
    ensures exists t :: 0 < t < |s.threads| && Batch(s.threads[t]) != []
  {
    HeldMember(s.threads);
    var t :| 0 <= t < |s.threads| && Batch(s.threads[t]) != [];
    assert t != MASTER;
  }

  // ---- Wait terminates ----

  /** What is left to do, weighted so that every step of a thread costs something. */
  function Weight(w: Thread): nat {
    match w
    case Outside => 0
    case Asleep => 0
    case Entering(_, _) => 2
    case Working(batch, done, _) => 3 + if done < |batch| then |batch| - done else 0
  }

  function Remaining(s: State): nat {
    5 * |s.queue| + Sum(s.threads, Weight) + if s.masterNotified then 1 else 0
  }

  /** A wake-up that found nothing to do and went back to sleep. */
  predicate Idling(s: State, step: Step) {
    step.Wake? && s.queue == [] && !(step.t == MASTER && s.masterNotified)
  }

  predicate OfThread(step: Step) { step.Enter? || step.Wake? || step.Execute? || step.Finish? }

  /** While the master is inside Wait, some thread can take a step that is not idling... */
  lemma {:induction false} WaitCanProceed(s: State, asked: multiset<Check>) returns (step: Step)
    requires Inv(s, asked) && !s.threads[MASTER].Outside?
    ensures OfThread(step) && CanRun(s, step) && !Idling(s, step)
  {
    var t: nat := MASTER;
    if s.threads[MASTER].Asleep? && !s.masterNotified {
      MasterNeverStuck(s, asked);
      t :| 0 < t < |s.threads| && Batch(s.threads[t]) != [];
    }
    match s.threads[t]
    case Entering(_, _) => step := Enter(t);
    case Working(batch, done, _) => step := if done < |batch| then Execute(t) else Finish(t);
    case Asleep => step := Wake(t);
    EnabledCanRun(s, asked, step);
  }

  lemma {:induction false} LoopHeadCost(s: State, asked: multiset<Check>, t: nat, nBatchSize: nat)
    requires InvWith(s, asked, 1) && t < |s.threads| && s.threads[t].Outside?
    ensures Remaining(LoopHead(s, t, nBatchSize)) <= Remaining(s)
    ensures s.queue != [] ==> Remaining(LoopHead(s, t, nBatchSize)) < Remaining(s)
  {
    SumUpdate(s.threads, t, LoopHead(s, t, nBatchSize).threads[t], Weight);
  }

  lemma {:induction false} EnterCost(s: State, asked: multiset<Check>, t: nat, nBatchSize: nat)
    requires Inv(s, asked) && CanRun(s, Enter(t))
    ensures Remaining(Apply(s, Enter(t), nBatchSize)) < Remaining(s)
  {
    InvEntered(s, asked, t);
    SumUpdate(s.threads, t, Outside, Weight);
    LoopHeadCost(CleanUp(s, t), asked, t, nBatchSize);
  }

  lemma {:induction false} WakeCost(s: State, asked: multiset<Check>, t: nat, nBatchSize: nat)
    requires Inv(s, asked) && CanRun(s, Wake(t)) && !Idling(s, Wake(t))
    ensures Remaining(Apply(s, Wake(t), nBatchSize)) < Remaining(s)
  {
    InvWoken(s, asked, t);
    SumUpdate(s.threads, t, Outside, Weight);
    LoopHeadCost(WakeUp(s, t), asked, t, nBatchSize);
  }

  lemma {:induction false} IdlingIsFree(s: State, asked: multiset<Check>, t: nat, nBatchSize: nat)
    requires Inv(s, asked) && CanRun(s, Wake(t)) && Idling(s, Wake(t))
    ensures Apply(s, Wake(t), nBatchSize) == s
  {
    assert s.threads[t := Outside][t := Asleep] == s.threads;
  }

  /** ... and every such step brings Wait closer to its end, whoever takes it; idling changes
      nothing. */
  lemma {:induction false} StepsCost(s: State, asked: multiset<Check>, step: Step, nBatchSize: nat)
    requires Inv(s, asked) && OfThread(step) && CanRun(s, step)
    ensures var s' := Apply(s, step, nBatchSize);
            if Idling(s, step) then s' == s else Remaining(s') < Remaining(s)
  {
    match step
    case Execute(t) => SumUpdate(s.threads, t, ExecuteOne(s.threads[t]), Weight);
    case Finish(t) => SumUpdate(s.threads, t, Entering(s.threads[t].batch, s.threads[t].ok), Weight);
    case Enter(t) => EnterCost(s, asked, t, nBatchSize);
    case Wake(t) =>
      if Idling(s, step) { IdlingIsFree(s, asked, t, nBatchSize); } else { WakeCost(s, asked, t, nBatchSize); }
  }

  /** The steps of `steps`, taken one after the other from `s`, that are not idling. */
  function Effort(s: State, steps: seq<Step>, nBatchSize: nat): nat
    decreases |steps|
  {
    if steps == [] || !CanRun(s, steps[0]) then 0
    else (if Idling(s, steps[0]) then 0 else 1) + Effort(Apply(s, steps[0], nBatchSize), steps[1..], nBatchSize)
  }

  /** However the scheduler picks, Wait is over after at most Remaining(s) steps that do anything:
      since WaitCanProceed always offers one, it returns. */
  lemma {:induction false} WaitIsBounded(s: State, asked: multiset<Check>, steps: seq<Step>, nBatchSize: nat)
    requires Inv(s, asked) && forall i | 0 <= i < |steps| :: OfThread(steps[i])
    ensures Effort(s, steps, nBatchSize) <= Remaining(s)
    decreases |steps|
  {
    if steps != [] && CanRun(s, steps[0]) {
      StepsCost(s, asked, steps[0], nBatchSize);
      InvStep(s, asked, steps[0], nBatchSize);
      var s' := Apply(s, steps[0], nBatchSize);
      WaitIsBounded(s', Asked(s, asked, steps[0], s'), steps[1..], nBatchSize);
    }
  }
}
