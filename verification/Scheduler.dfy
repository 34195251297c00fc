/**
  The thread pool of ctbrowser/lib/Core/scheduler.cpp, until a stop is requested, as a
  machine whose steps interleave freely. Workers run the loop of `run`; callers are the
  threads inside `submit` or `run_one`, a task that submits or helps included. The mutex
  is explicit: a thread that holds it is between taking it and giving it back, and the
  steps in between are steps of their own where it matters what slips in.
 */
module Scheduler {
  import opened Lists

  /** A task, by its place in the order of submission. */
  type Ticket = nat

  datatype Worker =
    | AtTop                    // of the loop, about to take the lock for a task
    | Popping                  // lock held: about to look at the queue
    | Taken(ticket: Ticket)    // a task in hand, not started
    | Running(ticket: Ticket)
    | BeforeCheck              // found nothing, or was woken: about to take the lock
    | Checking                 // lock held: about to evaluate the predicate
    | Deciding                 // lock held: saw an empty queue, about to sleep
    | Asleep

  datatype Caller =
    | Idle
    | Submitting
    | Pushing                  // lock held
    | Notifying                // pushed, not yet notified
    | Helping                  // about to take the lock in run_one
    | HelperPopping            // lock held
    | HelperTaken(ticket: Ticket)
    | HelperRunning(ticket: Ticket)

  datatype Owner = Free | ByWorker(worker: nat) | ByCaller(caller: nat)

  datatype Pool = Pool(
    queue: seq<Ticket>,
    issued: nat,
    popped: seq<Ticket>,
    started: seq<Ticket>,
    workers: seq<Worker>,
    callers: seq<Caller>,
    owner: Owner)

  datatype Action =
    | Work(worker: nat)               // the next step of a worker
    | Go(caller: nat)                 // the next step of a call, a notification that wakes nobody included
    | Wake(caller: nat, worker: nat)  // a notification that wakes this worker
    | CallSubmit(caller: nat)
    | CallRunOne(caller: nat)
    | SpuriousWake(worker: nat)

  // --- Steps --------------------------------------------------------------------------

  predicate HoldsLock(w: Worker) { w.Popping? || w.Checking? || w.Deciding? }

  predicate CallerHoldsLock(c: Caller) { c.Pushing? || c.HelperPopping? }

  predicate WantsLock(w: Worker) { w.AtTop? || w.BeforeCheck? }

  predicate CallerWantsLock(c: Caller) { c.Submitting? || c.Helping? }

  predicate SomeAsleep(workers: seq<Worker>) { exists i :: 0 <= i < |workers| && workers[i].Asleep? }

  predicate WorkerCanStep(s: Pool, i: nat) {
    i < |s.workers| && !s.workers[i].Asleep? && (WantsLock(s.workers[i]) ==> s.owner == Free)
  }

  predicate CallerCanStep(s: Pool, j: nat) {
    && j < |s.callers| && !s.callers[j].Idle?
    && (CallerWantsLock(s.callers[j]) ==> s.owner == Free)
    && (s.callers[j].Notifying? ==> !SomeAsleep(s.workers))
  }

  predicate CanDo(s: Pool, a: Action) {
    match a
    case Work(i) => WorkerCanStep(s, i)
    case Go(j) => CallerCanStep(s, j)
    case Wake(j, i) => j < |s.callers| && s.callers[j].Notifying? && i < |s.workers| && s.workers[i].Asleep?
    case CallSubmit(j) => j < |s.callers| && s.callers[j].Idle?
    case CallRunOne(j) => j < |s.callers| && s.callers[j].Idle?
    case SpuriousWake(i) => i < |s.workers| && s.workers[i].Asleep?
  }

  function Put(s: Pool, i: nat, w: Worker): Pool
    requires i < |s.workers|
  {
    s.(workers := s.workers[i := w])
  }

  function PutCaller(s: Pool, j: nat, c: Caller): Pool
    requires j < |s.callers|
  {
    s.(callers := s.callers[j := c])
  }

  function PopFront(s: Pool): Pool
    requires s.queue != []
  {
    s.(queue := s.queue[1..], popped := s.popped + [s.queue[0]])
  }

  function WorkerStep(s: Pool, i: nat): Pool
    requires WorkerCanStep(s, i)
  {
    match s.workers[i]
    case AtTop => Put(s, i, Popping).(owner := ByWorker(i))
    case Popping =>
      if s.queue == [] then Put(s, i, BeforeCheck).(owner := Free)
      else Put(PopFront(s), i, Taken(s.queue[0])).(owner := Free)
    case Taken(t) => Put(s, i, Running(t)).(started := s.started + [t])
    case Running(t) => Put(s, i, AtTop)
    case BeforeCheck => Put(s, i, Checking).(owner := ByWorker(i))
    case Checking =>
      if s.queue == [] then Put(s, i, Deciding) else Put(s, i, AtTop).(owner := Free)
    case Deciding => Put(s, i, Asleep).(owner := Free)
  }

  function CallerStep(s: Pool, j: nat): Pool
    requires CallerCanStep(s, j)
  {
    match s.callers[j]
    case Submitting => PutCaller(s, j, Pushing).(owner := ByCaller(j))
    case Pushing =>
      PutCaller(s, j, Notifying).(queue := s.queue + [s.issued], issued := s.issued + 1, owner := Free)
    case Notifying => PutCaller(s, j, Idle)
    case Helping => PutCaller(s, j, HelperPopping).(owner := ByCaller(j))
    case HelperPopping =>
      if s.queue == [] then PutCaller(s, j, Idle).(owner := Free)
      else PutCaller(PopFront(s), j, HelperTaken(s.queue[0])).(owner := Free)
    case HelperTaken(t) => PutCaller(s, j, HelperRunning(t)).(started := s.started + [t])
    case HelperRunning(t) => PutCaller(s, j, Idle)
  }

  function Do(s: Pool, a: Action): (r: Pool)
    requires CanDo(s, a)
  {
    match a
    case Work(i) => WorkerStep(s, i)
    case Go(j) => CallerStep(s, j)
    case Wake(j, i) => Put(PutCaller(s, j, Idle), i, BeforeCheck)
    case CallSubmit(j) => PutCaller(s, j, Submitting)
    case CallRunOne(j) => PutCaller(s, j, Helping)
    case SpuriousWake(i) => Put(s, i, BeforeCheck)
  }

  predicate CanRun(s: Pool, run: seq<Action>)
    decreases |run|
  {
    run == [] || (CanDo(s, run[0]) && CanRun(Do(s, run[0]), run[1..]))
  }

  function Run(s: Pool, run: seq<Action>): (r: Pool)
    requires CanRun(s, run)
    decreases |run|
  {
    if run == [] then s else Run(Do(s, run[0]), run[1..])
  }

  /** The pool the constructor builds, and as many threads outside it as there may be. */
  function Fresh(workers: nat, callers: nat): Pool {
    Pool([], 0, [], [], seq(workers, i => AtTop), seq(callers, j => Idle), Free)
  }

  // --- Counting -------------------------------------------------------------------------

  function Total<T>(items: seq<T>, weight: T -> nat): nat {
    if items == [] then 0 else weight(items[0]) + Total(items[1..], weight)
  }

  lemma {:induction false} TotalUpdate<T>(items: seq<T>, i: nat, item: T, weight: T -> nat)
    requires i < |items|
    ensures Total(items[i := item], weight) + weight(items[i]) == Total(items, weight) + weight(item)
    decreases |items|
  {
    if i == 0 {
      assert items[i := item][1..] == items[1..];
    } else {
      assert items[i := item][1..] == items[1..][i - 1 := item];
      TotalUpdate(items[1..], i - 1, item, weight);
    }
  }

  /** Awake and not running a task: such a worker looks at the queue before it sleeps. */
  function AwakeMark(w: Worker): nat {
    if w.Asleep? || w.Taken? || w.Running? then 0 else 1
  }

  function NotifyMark(c: Caller): nat { if c.Notifying? then 1 else 0 }

  function AwakeCount(workers: seq<Worker>): nat { Total(workers, AwakeMark) }

  function NotifyCount(callers: seq<Caller>): nat { Total(callers, NotifyMark) }

  // --- The invariant --------------------------------------------------------------------

  /** The first `n` tickets, in order. */
  function Tickets(n: nat): (r: seq<Ticket>) { seq(n, i => i) }

  /** The tickets leave in the order they were issued, none lost, none twice. */
  ghost predicate InOrder(s: Pool) { s.popped + s.queue == Tickets(s.issued) }

  /** The lock has one owner: the one thread inside a critical section. */
  ghost predicate LockAgrees(s: Pool) {
    && (forall i :: 0 <= i < |s.workers| ==> (HoldsLock(s.workers[i]) <==> s.owner == ByWorker(i)))
    && (forall j :: 0 <= j < |s.callers| ==> (CallerHoldsLock(s.callers[j]) <==> s.owner == ByCaller(j)))
    && (s.owner.ByWorker? ==> s.owner.worker < |s.workers|)
    && (s.owner.ByCaller? ==> s.owner.caller < |s.callers|)
  }

  /** What a worker about to sleep saw is still so. */
  ghost predicate StillEmpty(s: Pool) {
    forall i :: 0 <= i < |s.workers| && s.workers[i].Deciding? ==> s.queue == []
  }

  /** A thread has this ticket's task in hand and has not started it. */
  predicate Holds(s: Pool, who: Owner, t: Ticket) {
    match who
    case Free => false
    case ByWorker(i) => i < |s.workers| && s.workers[i] == Taken(t)
    case ByCaller(j) => j < |s.callers| && s.callers[j] == HelperTaken(t)
  }

  /** A ticket that left the queue is in one hand, or started once, and not both. */
  ghost predicate OneHand(s: Pool) {
    && NoRepeats(s.started)
    && (forall t :: t in s.started ==> t in s.popped)
    && (forall t :: t in s.popped ==> t in s.started || exists who :: Holds(s, who, t))
    && (forall who, t :: Holds(s, who, t) ==> t in s.popped && t !in s.started)
    && (forall who, other, t :: Holds(s, who, t) && Holds(s, other, t) ==> who == other)
  }

  /** While a worker sleeps, every queued task has a thread that is about to see to it. */
  ghost predicate NoLostWakeup(s: Pool) {
    SomeAsleep(s.workers) ==> |s.queue| <= AwakeCount(s.workers) + NotifyCount(s.callers)
  }

  ghost predicate Safe(s: Pool) {
    InOrder(s) && LockAgrees(s) && StillEmpty(s) && OneHand(s) && NoLostWakeup(s)
  }

  lemma FreshIsSafe(workers: nat, callers: nat)
    ensures Safe(Fresh(workers, callers))
  {
  }

  // --- Each step keeps it ---------------------------------------------------------------

  lemma StepKeepsOrder(s: Pool, a: Action)
    requires CanDo(s, a) && InOrder(s)
    ensures InOrder(Do(s, a))
  {
    var r := Do(s, a);
    if r.issued != s.issued {
      assert r.popped + r.queue == (s.popped + s.queue) + [s.issued];
    } else if |r.queue| < |s.queue| {
      assert s.queue == [s.queue[0]] + s.queue[1..];
      assert r.popped + r.queue == s.popped + s.queue;
    }
  }

  lemma WorkKeepsLock(s: Pool, i: nat)
    requires WorkerCanStep(s, i) && LockAgrees(s)
    ensures LockAgrees(WorkerStep(s, i))
  {
  }

  lemma CallKeepsLock(s: Pool, j: nat)
    requires CallerCanStep(s, j) && LockAgrees(s)
    ensures LockAgrees(CallerStep(s, j))
  {
  }

  lemma StepKeepsLock(s: Pool, a: Action)
    requires CanDo(s, a) && LockAgrees(s)
    ensures LockAgrees(Do(s, a))
  {
    hide WorkerStep, CallerStep;
    match a
    case Work(i) => WorkKeepsLock(s, i);
    case Go(j) => CallKeepsLock(s, j);
    case _ =>
  }

  lemma StepKeepsEmpty(s: Pool, a: Action)
    requires CanDo(s, a) && LockAgrees(s) && StillEmpty(s)
    ensures StillEmpty(Do(s, a))
  {
  }

  lemma WorkKeepsWakeups(s: Pool, i: nat)
    requires WorkerCanStep(s, i) && StillEmpty(s) && NoLostWakeup(s)
    ensures NoLostWakeup(WorkerStep(s, i))
  {
    TotalUpdate(s.workers, i, WorkerStep(s, i).workers[i], AwakeMark);
  }

  lemma CallKeepsWakeups(s: Pool, j: nat)
    requires CallerCanStep(s, j) && NoLostWakeup(s)
    ensures NoLostWakeup(CallerStep(s, j))
  {
    TotalUpdate(s.callers, j, CallerStep(s, j).callers[j], NotifyMark);
  }

  lemma StepKeepsWakeups(s: Pool, a: Action)
    requires CanDo(s, a) && StillEmpty(s) && NoLostWakeup(s)
    ensures NoLostWakeup(Do(s, a))
  {
    hide WorkerStep, CallerStep, StillEmpty;
    match a
    case Work(i) => WorkKeepsWakeups(s, i);
    case Go(j) => CallKeepsWakeups(s, j);
    case SpuriousWake(i) =>
      TotalUpdate(s.workers, i, BeforeCheck, AwakeMark);
    case Wake(j, i) =>
      TotalUpdate(s.workers, i, BeforeCheck, AwakeMark);
      TotalUpdate(s.callers, j, Idle, NotifyMark);
    case CallSubmit(j) => TotalUpdate(s.callers, j, Submitting, NotifyMark);
    case CallRunOne(j) => TotalUpdate(s.callers, j, Helping, NotifyMark);
  }

  // --- One hand --------------------------------------------------------------------------

  lemma OrderIsDistinct(s: Pool)
    requires InOrder(s)
    ensures s.queue != [] ==> s.queue[0] !in s.popped
  {
    if s.queue != [] {
      var all := s.popped + s.queue;
      assert all[|s.popped|] == s.queue[0];
      forall k | 0 <= k < |s.popped| ensures s.popped[k] != s.queue[0] {
        assert all[k] == s.popped[k];
      }
    }
  }

  /** What one thread may change of the hands and the tasks started. */
  ghost predicate OnlyHandOf(s: Pool, r: Pool, mine: Owner) {
    forall who, t :: who != mine ==> (Holds(r, who, t) <==> Holds(s, who, t))
  }

  /** Nothing taken or started. */
  lemma SameHands(s: Pool, r: Pool)
    requires OneHand(s) && r.popped == s.popped && r.started == s.started
    requires forall who, t :: Holds(r, who, t) <==> Holds(s, who, t)
    ensures OneHand(r)
  {
  }

  lemma TakeKeepsOneHand(s: Pool, r: Pool, mine: Owner)
    requires OneHand(s) && s.queue != [] && s.queue[0] !in s.popped
    requires r.popped == s.popped + [s.queue[0]] && r.started == s.started
    requires OnlyHandOf(s, r, mine)
    requires forall t :: !Holds(s, mine, t) && (Holds(r, mine, t) <==> t == s.queue[0])
    ensures OneHand(r)
  {
    assert Holds(r, mine, s.queue[0]);
    forall t | t in r.popped ensures t in r.started || exists who :: Holds(r, who, t) {
      if t in s.popped && t !in s.started {
        var who :| Holds(s, who, t);
        assert Holds(r, who, t);
      }
    }
  }

  lemma StartKeepsOneHand(s: Pool, r: Pool, mine: Owner, ticket: Ticket)
    requires OneHand(s) && r.popped == s.popped && r.started == s.started + [ticket]
    requires OnlyHandOf(s, r, mine)
    requires forall t :: !Holds(r, mine, t) && (Holds(s, mine, t) <==> t == ticket)
    ensures OneHand(r)
  {
    assert Holds(s, mine, ticket);
    forall t | t in r.popped ensures t in r.started || exists who :: Holds(r, who, t) {
      if t !in s.started && t != ticket {
        var who :| Holds(s, who, t);
        assert Holds(r, who, t);
      }
    }
  }

  lemma WorkKeepsOneHand(s: Pool, i: nat)
    requires WorkerCanStep(s, i) && InOrder(s) && OneHand(s)
    ensures OneHand(WorkerStep(s, i))
  {
    hide InOrder, NoRepeats, Tickets, OneHand;
    OrderIsDistinct(s);
    var r := WorkerStep(s, i);
    match s.workers[i] {
      case Popping =>
        if s.queue == [] { SameHands(s, r); } else { TakeKeepsOneHand(s, r, ByWorker(i)); }
      case Taken(t) => StartKeepsOneHand(s, r, ByWorker(i), t);
      case _ => SameHands(s, r);
    }
  }

  lemma CallKeepsOneHand(s: Pool, j: nat)
    requires CallerCanStep(s, j) && InOrder(s) && OneHand(s)
    ensures OneHand(CallerStep(s, j))
  {
    hide InOrder, NoRepeats, Tickets, OneHand;
    OrderIsDistinct(s);
    var r := CallerStep(s, j);
    match s.callers[j] {
      case HelperPopping =>
        if s.queue == [] { SameHands(s, r); } else { TakeKeepsOneHand(s, r, ByCaller(j)); }
      case HelperTaken(t) => StartKeepsOneHand(s, r, ByCaller(j), t);
      case _ => SameHands(s, r);
    }
  }

  lemma StepKeepsOneHand(s: Pool, a: Action)
    requires CanDo(s, a) && InOrder(s) && OneHand(s)
    ensures OneHand(Do(s, a))
  {
    hide InOrder, NoRepeats, OneHand, WorkerStep, CallerStep;
    match a
    case Work(i) => WorkKeepsOneHand(s, i);
    case Go(j) => CallKeepsOneHand(s, j);
    case _ => SameHands(s, Do(s, a));
  }

  // --- Over whole runs -------------------------------------------------------------------

  lemma StepKeepsSafe(s: Pool, a: Action)
    requires CanDo(s, a) && Safe(s)
    ensures Safe(Do(s, a))
  {
    StepKeepsOrder(s, a);
    StepKeepsLock(s, a);
    StepKeepsEmpty(s, a);
    StepKeepsWakeups(s, a);
    StepKeepsOneHand(s, a);
  }

  lemma {:induction false} RunKeepsSafe(s: Pool, run: seq<Action>)
    requires CanRun(s, run) && Safe(s)
    ensures Safe(Run(s, run))
    decreases |run|
  {
    hide *;
    RunUnfolds(s, run);
    if run != [] {
      StepKeepsSafe(s, run[0]);
      RunKeepsSafe(Do(s, run[0]), run[1..]);
    }
  }

  lemma RunUnfolds(s: Pool, run: seq<Action>)
    requires CanRun(s, run)
    ensures run == [] ==> Run(s, run) == s
    ensures run != [] ==>
      CanDo(s, run[0]) && CanRun(Do(s, run[0]), run[1..]) && Run(s, run) == Run(Do(s, run[0]), run[1..])
  {
  }

  /**
    In every interleaving the tasks leave the queue in the order of submission, each of
    them is started at most once, by the one thread that took it, and none is lost.
   */
  lemma TasksStartOnceInOrder(workers: nat, callers: nat, run: seq<Action>)
    requires CanRun(Fresh(workers, callers), run)
    ensures var s := Run(Fresh(workers, callers), run);
            && s.popped + s.queue == Tickets(s.issued) && OneHand(s)
            && forall t: Ticket :: t < s.issued ==>
                 t in s.queue || (t in s.started && t in s.popped) || exists who :: Holds(s, who, t)
  {
    FreshIsSafe(workers, callers);
    RunKeepsSafe(Fresh(workers, callers), run);
    var s := Run(Fresh(workers, callers), run);
    forall t: Ticket | t < s.issued
      ensures t in s.queue || (t in s.started && t in s.popped) || exists who :: Holds(s, who, t)
    {
      assert (s.popped + s.queue)[t] == t;
    }
  }

  /**
    In every interleaving, while a worker sleeps the queued tasks number at most the
    workers that will look at the queue before they sleep and the submitters that have
    still to notify.
   */
  lemma NoWakeupIsLost(workers: nat, callers: nat, run: seq<Action>)
    requires CanRun(Fresh(workers, callers), run)
    ensures NoLostWakeup(Run(Fresh(workers, callers), run))
  {
    FreshIsSafe(workers, callers);
    RunKeepsSafe(Fresh(workers, callers), run);
  }

  // --- Draining ----------------------------------------------------------------------------

  /** How many steps a worker is from sleep when the queue is empty, tasks in hand weighing most. */
  function RankEmpty(w: Worker): nat {
    match w
    case Asleep => 0
    case Deciding => 1
    case Checking => 2
    case BeforeCheck => 3
    case Popping => 4
    case AtTop => 5
    case Running(_) => 6
    case Taken(_) => 7
  }

  /** How many steps a worker is from the front of the queue when there is one. */
  function RankQueued(w: Worker): nat {
    match w
    case Asleep => 0
    case Deciding => 1
    case Popping => 1
    case AtTop => 2
    case Checking => 3
    case BeforeCheck => 4
    case Running(_) => 6
    case Taken(_) => 7
  }

  /** The steps left of a call. */
  function CallRank(c: Caller): nat {
    match c
    case Idle => 0
    case Notifying => 1
    case Pushing => 2
    case Submitting => 3
    case HelperRunning(_) => 1
    case HelperTaken(_) => 2
    case HelperPopping => 3
    case Helping => 4
  }

  function Ranks(workers: seq<Worker>, empty: bool): nat {
    if empty then Total(workers, RankEmpty) else Total(workers, RankQueued)
  }

  function TaskCost(n: nat): nat { 7 + 3 * n }

  function CallCost(n: nat): nat { 12 + 6 * n }

  function Scaled(cost: nat, times: nat): nat { if times == 0 then 0 else cost + Scaled(cost, times - 1) }

  lemma {:induction false} ScaledDrops(cost: nat, more: nat, fewer: nat)
    requires fewer < more
    ensures Scaled(cost, fewer) + cost <= Scaled(cost, more)
  {
    if fewer < more - 1 {
      ScaledDrops(cost, more - 1, fewer);
    }
  }

  /** A bound on the steps left when nobody calls again. */
  function Budget(s: Pool): nat {
    var n := |s.workers|;
    Scaled(CallCost(n), Total(s.callers, CallRank)) + Scaled(TaskCost(n), |s.queue|)
      + Ranks(s.workers, s.queue == [])
  }

  /** A step nobody outside has to call for, and no spurious wakeup. */
  predicate IsQuiet(a: Action) { a.Work? || a.Go? || a.Wake? }

  lemma {:induction false} RanksDiffer(workers: seq<Worker>)
    ensures Ranks(workers, true) <= Ranks(workers, false) + 3 * |workers|
    ensures Ranks(workers, false) <= Ranks(workers, true) + 3 * |workers|
    decreases |workers|
  {
    if workers != [] {
      RanksDiffer(workers[1..]);
    }
  }

  lemma RanksUpdate(workers: seq<Worker>, i: nat, w: Worker, empty: bool)
    requires i < |workers|
    ensures empty ==>
      Ranks(workers[i := w], empty) + RankEmpty(workers[i]) == Ranks(workers, empty) + RankEmpty(w)
    ensures !empty ==>
      Ranks(workers[i := w], empty) + RankQueued(workers[i]) == Ranks(workers, empty) + RankQueued(w)
  {
    TotalUpdate(workers, i, w, RankEmpty);
    TotalUpdate(workers, i, w, RankQueued);
  }

  lemma WorkSpends(s: Pool, i: nat)
    requires WorkerCanStep(s, i) && StillEmpty(s)
    ensures Budget(WorkerStep(s, i)) < Budget(s)
  {
    hide StillEmpty;
    var r := WorkerStep(s, i);
    RanksUpdate(s.workers, i, r.workers[i], s.queue == []);
    RanksDiffer(r.workers);
    if s.workers[i].Deciding? {
      AsleepSawEmpty(s, i);
    }
  }

  lemma AsleepSawEmpty(s: Pool, i: nat)
    requires i < |s.workers| && s.workers[i].Deciding? && StillEmpty(s)
    ensures s.queue == []
  {
  }

  lemma CallSpends(s: Pool, j: nat)
    requires CallerCanStep(s, j)
    ensures Budget(CallerStep(s, j)) < Budget(s)
  {
    hide CallerStep, Scaled, Ranks, CallRank;
    var r := CallerStep(s, j);
    CallStepFacts(s, j);
    TotalUpdate(s.callers, j, r.callers[j], CallRank);
    RanksDiffer(s.workers);
    ScaledDrops(CallCost(|s.workers|), Total(s.callers, CallRank), Total(r.callers, CallRank));
    if |r.queue| < |s.queue| {
      ScaledDrops(TaskCost(|s.workers|), |s.queue|, |r.queue|);
    } else if |r.queue| > |s.queue| {
      ScaledOneMore(TaskCost(|s.workers|), |s.queue|);
    }
  }

  /** A call's step brings the call on, and moves the queue by one task at most. */
  lemma CallStepFacts(s: Pool, j: nat)
    requires CallerCanStep(s, j)
    ensures var r := CallerStep(s, j);
            && r.workers == s.workers && |r.callers| == |s.callers| && r.callers == s.callers[j := r.callers[j]]
            && CallRank(r.callers[j]) < CallRank(s.callers[j])
            && |r.queue| <= |s.queue| + 1
  {
  }

  lemma ScaledOneMore(cost: nat, times: nat)
    ensures Scaled(cost, times + 1) == cost + Scaled(cost, times)
  {
  }

  lemma WakeSpends(s: Pool, j: nat, i: nat)
    requires CanDo(s, Wake(j, i))
    ensures Budget(Do(s, Wake(j, i))) < Budget(s)
  {
    TotalUpdate(s.callers, j, Idle, CallRank);
    RanksUpdate(s.workers, i, BeforeCheck, s.queue == []);
  }

  /** Until somebody calls again, a run is no longer than the budget it starts with. */
  lemma {:induction false} QuietRunSpends(s: Pool, run: seq<Action>)
    requires CanRun(s, run) && Safe(s) && forall a :: a in run ==> IsQuiet(a)
    ensures |run| + Budget(Run(s, run)) <= Budget(s)
    decreases |run|
  {
    hide Budget, WorkerStep, CallerStep, Safe, Run;
    RunUnfolds(s, run);
    if run != [] {
      var a := run[0];
      assert IsQuiet(a);
      SafeStillEmpty(s);
      match a {
        case Work(i) => WorkSpends(s, i);
        case Go(j) => CallSpends(s, j);
        case Wake(j, i) => WakeSpends(s, j, i);
      }
      StepKeepsSafe(s, a);
      QuietRunSpends(Do(s, a), run[1..]);
    }
  }

  lemma SafeStillEmpty(s: Pool)
    requires Safe(s)
    ensures StillEmpty(s)
  {
  }

  /** Nothing left to do: no thread is in a call, every worker sleeps, every task was started. */
  ghost predicate Drained(s: Pool) {
    && AtRest(s) && s.queue == []
    && (forall t: Ticket :: t < s.issued ==> t in s.started)
  }

  lemma {:induction false} TotalZero<T>(items: seq<T>, weight: T -> nat)
    requires forall i :: 0 <= i < |items| ==> weight(items[i]) == 0
    ensures Total(items, weight) == 0
    decreases |items|
  {
    if items != [] {
      TotalZero(items[1..], weight);
    }
  }

  predicate AtRest(s: Pool) {
    && s.owner == Free
    && (forall i :: 0 <= i < |s.workers| ==> s.workers[i].Asleep?)
    && (forall j :: 0 <= j < |s.callers| ==> s.callers[j].Idle?)
  }

  /** A pool that is not at rest can go on: the lock never deadlocks it. */
  lemma SomeThreadCanStep(s: Pool)
    requires LockAgrees(s)
    ensures AtRest(s) || exists a :: IsQuiet(a) && CanDo(s, a)
  {
    match s.owner
    case ByWorker(i) => assert CanDo(s, Work(i));
    case ByCaller(j) => assert CanDo(s, Go(j));
    case Free =>
      if i: nat :| i < |s.workers| && !s.workers[i].Asleep? {
        assert CanDo(s, Work(i));
      } else if j: nat :| j < |s.callers| && !s.callers[j].Idle? {
        if s.callers[j].Notifying? && SomeAsleep(s.workers) {
          var i: nat :| i < |s.workers| && s.workers[i].Asleep?;
          assert CanDo(s, Wake(j, i));
        } else {
          assert CanDo(s, Go(j));
        }
      }
  }

  /** A safe pool where only a new call could make a step has started every task. */
  lemma StuckIsDrained(s: Pool)
    requires Safe(s) && |s.workers| > 0
    requires forall a :: IsQuiet(a) ==> !CanDo(s, a)
    ensures Drained(s)
  {
    SomeThreadCanStep(s);
    TotalZero(s.workers, AwakeMark);
    TotalZero(s.callers, NotifyMark);
    assert s.workers[0].Asleep?;
    forall t: Ticket | t < s.issued ensures t in s.started {
      assert s.popped + s.queue == s.popped && s.popped[t] == t;
      assert forall who :: !Holds(s, who, t);
    }
  }

  /**
    No task is slept through: after any run at all, once nobody calls any more, the pool
    comes to rest within the budget, and at rest every task submitted has been started.
   */
  lemma PoolDrains(workers: nat, callers: nat, before: seq<Action>, run: seq<Action>)
    requires workers > 0 && CanRun(Fresh(workers, callers), before)
    requires CanRun(Run(Fresh(workers, callers), before), run) && forall a :: a in run ==> IsQuiet(a)
    ensures var s := Run(Fresh(workers, callers), before);
            && |run| <= Budget(s)
            && ((forall a :: IsQuiet(a) ==> !CanDo(Run(s, run), a)) ==> Drained(Run(s, run)))
  {
    hide Safe, Budget, Drained, Do, CanDo;
    FreshIsSafe(workers, callers);
    RunKeepsSafe(Fresh(workers, callers), before);
    var s := Run(Fresh(workers, callers), before);
    RunKeepsSafe(s, run);
    QuietRunSpends(s, run);
    RunKeepsWorkers(Fresh(workers, callers), before);
    RunKeepsWorkers(s, run);
    if forall a :: IsQuiet(a) ==> !CanDo(Run(s, run), a) {
      StuckIsDrained(Run(s, run));
    }
  }

  lemma {:induction false} RunKeepsWorkers(s: Pool, run: seq<Action>)
    requires CanRun(s, run)
    ensures |Run(s, run).workers| == |s.workers|
    decreases |run|
  {
    RunUnfolds(s, run);
    if run != [] {
      RunKeepsWorkers(Do(s, run[0]), run[1..]);
    }
  }

  // --- Whole calls ---------------------------------------------------------------------------

  lemma ThreeSteps(s: Pool, a: Action, b: Action, c: Action)
    requires CanDo(s, a) && CanDo(Do(s, a), b) && CanDo(Do(Do(s, a), b), c)
    ensures CanRun(s, [a, b, c]) && Run(s, [a, b, c]) == Do(Do(Do(s, a), b), c)
  {
    hide CanDo, Do;
    assert [a, b, c][1..] == [b, c] && [b, c][1..] == [c] && [c][1..] == [];
    var t := Do(Do(s, a), b);
    assert CanRun(t, [c]) && Run(t, [c]) == Do(t, c);
    assert CanRun(Do(s, a), [b, c]) && Run(Do(s, a), [b, c]) == Do(t, c);
  }

  /** `submit`, with nothing in between, puts one task behind all others, and is then about to notify. */
  lemma SubmitQueuesLast(s: Pool, j: nat)
    requires j < |s.callers| && s.callers[j].Idle? && s.owner == Free
    ensures var run := [CallSubmit(j), Go(j), Go(j)];
            && CanRun(s, run)
            && Run(s, run) == s.(queue := s.queue + [s.issued], issued := s.issued + 1,
                                 callers := s.callers[j := Notifying])
  {
    var callers := s.callers;
    assert callers[j := Submitting][j := Pushing][j := Notifying] == callers[j := Notifying];
    ThreeSteps(s, CallSubmit(j), Go(j), Go(j));
  }

  /** `run_one`, with nothing in between, starts the first task there is. */
  lemma HelperStartsFirst(s: Pool, j: nat)
    requires j < |s.callers| && s.callers[j].Helping? && s.owner == Free && s.queue != []
    ensures var run := [Go(j), Go(j), Go(j)];
            && CanRun(s, run)
            && Run(s, run) == s.(queue := s.queue[1..], popped := s.popped + [s.queue[0]],
                                 started := s.started + [s.queue[0]],
                                 callers := s.callers[j := HelperRunning(s.queue[0])])
  {
    var callers, t := s.callers, s.queue[0];
    assert callers[j := HelperPopping][j := HelperTaken(t)][j := HelperRunning(t)] == callers[j := HelperRunning(t)];
    ThreeSteps(s, Go(j), Go(j), Go(j));
  }

  /** So does a worker at the top of its loop; with an empty queue it goes to look again before it sleeps. */
  lemma WorkerStartsFirst(s: Pool, i: nat)
    requires i < |s.workers| && s.workers[i].AtTop? && s.owner == Free
    ensures var run := [Work(i), Work(i), Work(i)];
            && CanRun(s, run)
            && (s.queue != [] ==>
                  Run(s, run) == s.(queue := s.queue[1..], popped := s.popped + [s.queue[0]],
                                    started := s.started + [s.queue[0]],
                                    workers := s.workers[i := Running(s.queue[0])]))
            && (s.queue == [] ==> Run(s, run) == s.(workers := s.workers[i := Checking], owner := ByWorker(i)))
  {
    var workers := s.workers;
    if s.queue != [] {
      var t := s.queue[0];
      assert workers[i := Popping][i := Taken(t)][i := Running(t)] == workers[i := Running(t)];
    } else {
      assert workers[i := Popping][i := BeforeCheck][i := Checking] == workers[i := Checking];
    }
    ThreeSteps(s, Work(i), Work(i), Work(i));
  }

  // --- No submission is dropped ------------------------------------------------------------------

  /** How often `submit` was called. */
  function Submissions(run: seq<Action>): (n: nat) {
    if run == [] then 0 else (if run[0].CallSubmit? then 1 else 0) + Submissions(run[1..])
  }

  /** A call of `submit` whose task is not in the queue yet. */
  function PendingMark(c: Caller): nat { if c.Submitting? || c.Pushing? then 1 else 0 }

  lemma StepIssues(s: Pool, a: Action)
    requires CanDo(s, a)
    ensures Do(s, a).issued + Total(Do(s, a).callers, PendingMark)
         == s.issued + Total(s.callers, PendingMark) + if a.CallSubmit? then 1 else 0
  {
    var r := Do(s, a);
    if a.Go? || a.Wake? || a.CallSubmit? || a.CallRunOne? {
      var j := a.caller;
      hide Total;
      assert r.callers == s.callers[j := r.callers[j]];
      TotalUpdate(s.callers, j, r.callers[j], PendingMark);
    }
  }

  lemma {:induction false} RunIssues(s: Pool, run: seq<Action>)
    requires CanRun(s, run)
    ensures Run(s, run).issued + Total(Run(s, run).callers, PendingMark)
         == s.issued + Total(s.callers, PendingMark) + Submissions(run)
    decreases |run|
  {
    hide Do, CanDo, Total;
    if run != [] {
      StepIssues(s, run[0]);
      RunIssues(Do(s, run[0]), run[1..]);
    }
  }

  lemma {:induction false} NonePending(callers: seq<Caller>)
    requires forall j :: 0 <= j < |callers| ==> callers[j].Idle?
    ensures Total(callers, PendingMark) == 0
  {
    if callers != [] {
      assert forall j :: 0 <= j < |callers| - 1 ==> callers[1..][j] == callers[j + 1];
      NonePending(callers[1..]);
    }
  }

  /** Every call of `submit` issues one task: but for calls on their way, as many as were made. */
  lemma SubmissionsAreIssued(workers: nat, callers: nat, run: seq<Action>)
    requires CanRun(Fresh(workers, callers), run)
    ensures var s := Run(Fresh(workers, callers), run);
            && s.issued + Total(s.callers, PendingMark) == Submissions(run)
            && ((forall j :: 0 <= j < |s.callers| ==> s.callers[j].Idle?) ==> s.issued == Submissions(run))
  {
    var start := Fresh(workers, callers);
    NonePending(start.callers);
    RunIssues(start, run);
    var s := Run(start, run);
    if forall j :: 0 <= j < |s.callers| ==> s.callers[j].Idle? {
      NonePending(s.callers);
    }
  }

  /** So a pool left to itself comes to rest with every task it was ever given started. */
  lemma EverySubmissionStarts(workers: nat, callers: nat, before: seq<Action>, run: seq<Action>)
    requires workers > 0 && CanRun(Fresh(workers, callers), before)
    requires CanRun(Run(Fresh(workers, callers), before), run) && forall a :: a in run ==> IsQuiet(a)
    ensures var s := Run(Run(Fresh(workers, callers), before), run);
            (forall a :: IsQuiet(a) ==> !CanDo(s, a)) ==>
              s.issued == Submissions(before) && forall t: Ticket :: t < Submissions(before) ==> t in s.started
  {
    hide CanDo, Do, Fresh, Budget;
    PoolDrains(workers, callers, before, run);
    SubmissionsAreIssued(workers, callers, before);
    var s := Run(Fresh(workers, callers), before);
    RunIssues(s, run);
    QuietSubmitsNothing(run);
    var r := Run(s, run);
    if forall a :: IsQuiet(a) ==> !CanDo(r, a) {
      NonePending(r.callers);
    }
  }

  lemma {:induction false} QuietSubmitsNothing(run: seq<Action>)
    requires forall a :: a in run ==> IsQuiet(a)
    ensures Submissions(run) == 0
  {
    if run != [] {
      assert IsQuiet(run[0]);
      QuietSubmitsNothing(run[1..]);
    }
  }
}
