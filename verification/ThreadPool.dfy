/** tools::ThreadPool of sp_vision_25/tools/thread_pool.hpp: every critical section and every wake-up is one atomic
    step, and the steps of all threads interleave freely. */
module ThreadPool {

  /** Where a worker is: about to test the wait predicate under the lock, asleep in the wait, executing a task, or
      returned. */
  datatype Worker = Checking | Asleep | Running | Exited

  /** `pending` counts the callers that have queued a task and not yet called notify_one; `notified` says that the
      destructor's notify_all has happened. The last three fields are history. */
  datatype Pool<T> = Pool(
    workers: seq<Worker>, tasks: seq<T>, stop: bool, pending: nat, notified: bool,
    accepted: seq<T>, started: seq<T>, discarded: seq<T>)

  datatype Action<T> =
    | Enqueue(task: T)
    | NotifyOne(who: nat)
    | Check(who: nat)
    | Finish(who: nat)
    | SpuriousWake(who: nat)
    | Stop
    | NotifyAll

  predicate SomeAsleep(ws: seq<Worker>) {
    exists i :: 0 <= i < |ws| && ws[i] == Asleep
  }

  /** notify_one wakes some sleeping worker; with none asleep it does nothing, whoever is named. */
  predicate Enabled<T>(p: Pool<T>, a: Action<T>) {
    match a
    case Enqueue(_) => true
    case NotifyOne(i) => p.pending > 0 && (SomeAsleep(p.workers) ==> i < |p.workers| && p.workers[i] == Asleep)
    case Check(i) => i < |p.workers| && p.workers[i] == Checking
    case Finish(i) => i < |p.workers| && p.workers[i] == Running
    case SpuriousWake(i) => i < |p.workers| && p.workers[i] == Asleep
    case Stop => !p.stop
    case NotifyAll => p.stop && !p.notified
  }

  function WakeAll(ws: seq<Worker>): (r: seq<Worker>)
    ensures |r| == |ws|
    ensures forall i | 0 <= i < |ws| :: r[i] == if ws[i] == Asleep then Checking else ws[i]
  {
    seq(|ws|, i requires 0 <= i < |ws| => if ws[i] == Asleep then Checking else ws[i])
  }

  function Step<T>(p: Pool<T>, a: Action<T>): Pool<T>
    requires Enabled(p, a)
  {
    match a
    case Enqueue(task) =>
      if p.stop then p  // throws
      else p.(tasks := p.tasks + [task], pending := p.pending + 1, accepted := p.accepted + [task])
    case NotifyOne(i) =>
      var q := p.(pending := p.pending - 1);
      if SomeAsleep(p.workers) then q.(workers := p.workers[i := Checking]) else q
    case Check(i) =>
      if !p.stop && p.tasks == [] then p.(workers := p.workers[i := Asleep])
      else if p.tasks == [] then p.(workers := p.workers[i := Exited])
      else p.(workers := p.workers[i := Running], tasks := p.tasks[1..], started := p.started + [p.tasks[0]])
    case Finish(i) => p.(workers := p.workers[i := Checking])
    case SpuriousWake(i) => p.(workers := p.workers[i := Checking])
    case Stop => p.(stop := true, tasks := [], discarded := p.discarded + p.tasks)
    case NotifyAll => p.(workers := WakeAll(p.workers), notified := true)
  }

  predicate Init<T(==)>(p: Pool<T>) {
    && (forall i | 0 <= i < |p.workers| :: p.workers[i] == Checking)
    && p.tasks == [] && !p.stop && p.pending == 0 && !p.notified
    && p.accepted == [] && p.started == [] && p.discarded == []
  }

  // --------------------------------------------------------------- the class

  /** The pool itself: one method per critical section or condition-variable call. */
  class Workers<T> {
    var workers: seq<Worker>
    var tasks: seq<T>
    var stop: bool
    ghost var pending: nat
    ghost var notified: bool
    ghost var accepted: seq<T>
    ghost var started: seq<T>
    ghost var discarded: seq<T>

    ghost function View(): Pool<T>
      reads this
    {
      Pool(workers, tasks, stop, pending, notified, accepted, started, discarded)
    }

    constructor (threads: nat)
      ensures Init(View()) && |workers| == threads
    {
      workers := seq(threads, _ => Checking);
      tasks, stop := [], false;
      pending, notified := 0, false;
      accepted, started, discarded := [], [], [];
    }

    method EnqueueLocked(task: T) returns (thrown: bool)
      modifies this
      ensures View() == Step(old(View()), Enqueue(task)) && thrown == old(stop)
    {
      if stop {
        return true;
      }
      tasks := tasks + [task];
      pending := pending + 1;
      accepted := accepted + [task];
      thrown := false;
    }

    /** The scheduler's choice of whom notify_one wakes is the caller's `who`. */
    method NotifyOne(who: nat)
      requires Enabled(View(), Action<T>.NotifyOne(who))
      modifies this
      ensures View() == Step(old(View()), Action<T>.NotifyOne(who))
    {
      if who < |workers| && workers[who] == Asleep {
        assert SomeAsleep(workers);
        workers := workers[who := Checking];
      }
      pending := pending - 1;
    }

    /** A worker holding the lock: tests the predicate and sleeps, returns, or takes the front task. */
    method CheckLocked(who: nat) returns (ghost taken: seq<T>)
      requires Enabled(View(), Check(who))
      modifies this
      ensures View() == Step(old(View()), Check(who))
      ensures started == old(started) + taken
    {
      taken := [];
      if !(stop || |tasks| > 0) {
        workers := workers[who := Asleep];
      } else if stop && |tasks| == 0 {
        workers := workers[who := Exited];
      } else {
        taken := [tasks[0]];
        started := started + taken;
        tasks := tasks[1..];
        workers := workers[who := Running];
      }
    }

    method Wake(who: nat)
      requires Enabled(View(), SpuriousWake(who))
      modifies this
      ensures View() == Step(old(View()), SpuriousWake(who))
    {
      workers := workers[who := Checking];
    }

    method TaskReturns(who: nat)
      requires Enabled(View(), Finish(who))
      modifies this
      ensures View() == Step(old(View()), Finish(who))
    {
      workers := workers[who := Checking];
    }

    /** The destructor's critical section. */
    method StopLocked()
      requires !stop
      modifies this
      ensures View() == Step(old(View()), Action<T>.Stop)
    {
      stop := true;
      discarded := discarded + tasks;
      tasks := [];
    }

    method NotifyAll()
      requires stop && !notified
      modifies this
      ensures View() == Step(old(View()), Action<T>.NotifyAll)
    {
      workers := WakeAll(workers);
      notified := true;
    }
  }

  // ----------------------------------------------------------- the invariant

  function Count(ws: seq<Worker>, w: Worker): nat {
    if ws == [] then 0 else (if ws[0] == w then 1 else 0) + Count(ws[1..], w)
  }

  lemma CountUpdate(ws: seq<Worker>, i: nat, v: Worker, w: Worker)
    requires i < |ws|
    ensures Count(ws[i := v], w) == Count(ws, w) - (if ws[i] == w then 1 else 0) + (if v == w then 1 else 0)
  {
    if i == 0 {
      assert ws[i := v][1..] == ws[1..];
    } else {
      assert ws[i := v][1..] == ws[1..][i - 1 := v];
      CountUpdate(ws[1..], i - 1, v, w);
    }
  }

  lemma CountWitness(ws: seq<Worker>, w: Worker)
    ensures Count(ws, w) > 0 <==> exists i :: 0 <= i < |ws| && ws[i] == w
  {
    if ws != [] {
      CountWitness(ws[1..], w);
      if exists i :: 0 <= i < |ws| && ws[i] == w {
        var i :| 0 <= i < |ws| && ws[i] == w;
        assert i > 0 ==> ws[1..][i - 1] == w;
      }
      if exists i :: 0 <= i < |ws[1..]| && ws[1..][i] == w {
        var i :| 0 <= i < |ws[1..]| && ws[1..][i] == w;
        assert ws[i + 1] == w;
      }
    }
  }

  /** No task lost or duplicated; no wake-up lost; nobody left asleep by the destructor. */
  predicate Inv<T(==)>(p: Pool<T>) {
    && p.accepted == p.started + p.discarded + p.tasks
    && (p.stop ==> p.tasks == []) && (!p.stop ==> p.discarded == [])
    && (!p.stop && SomeAsleep(p.workers) ==> |p.tasks| <= p.pending + Count(p.workers, Checking))
    && (p.notified ==> p.stop && !SomeAsleep(p.workers))
    && (!p.stop ==> forall i | 0 <= i < |p.workers| :: p.workers[i] != Exited)
  }

  lemma InitInv<T>(p: Pool<T>)
    requires Init(p)
    ensures Inv(p)
  {
  }

  lemma StepInv<T>(p: Pool<T>, a: Action<T>)
    requires Inv(p) && Enabled(p, a)
    ensures Inv(Step(p, a))
  {
    if a.Check? {
      CheckInv(p, a.who);
    } else if a.NotifyOne? {
      if SomeAsleep(p.workers) {
        CountUpdate(p.workers, a.who, Checking, Checking);
      }
    } else if a.Finish? || a.SpuriousWake? {
      CountUpdate(p.workers, a.who, Checking, Checking);
      if a.Finish? {
        SleepersKept(p.workers, a.who, Checking);
      }
    }
  }

  lemma CheckInv<T>(p: Pool<T>, i: nat)
    requires Inv(p) && Enabled(p, Check(i))
    ensures Inv(Step(p, Check(i)))
  {
    var v := Step(p, Check(i)).workers[i];
    CountUpdate(p.workers, i, v, Checking);
    if v != Asleep {
      SleepersKept(p.workers, i, v);
    }
    if p.tasks != [] {
      assert p.tasks == [p.tasks[0]] + p.tasks[1..];
    }
  }

  lemma SleepersKept(ws: seq<Worker>, i: nat, v: Worker)
    requires i < |ws| && v != Asleep && ws[i] != Asleep
    ensures SomeAsleep(ws[i := v]) <==> SomeAsleep(ws)
  {
    if SomeAsleep(ws) {
      var j :| 0 <= j < |ws| && ws[j] == Asleep;
      assert ws[i := v][j] == Asleep;
    }
  }

  // ---------------------------------------------------------------- all runs

  /** The actions can happen one after the other. */
  predicate Possible<T(==)>(p: Pool<T>, run: seq<Action<T>>)
    decreases |run|
  {
    run == [] || (Enabled(p, run[0]) && Possible(Step(p, run[0]), run[1..]))
  }

  function After<T(==)>(p: Pool<T>, run: seq<Action<T>>): Pool<T>
    requires Possible(p, run)
    decreases |run|
  {
    if run == [] then p else After(Step(p, run[0]), run[1..])
  }

  lemma {:induction false} RunInv<T>(p: Pool<T>, run: seq<Action<T>>)
    requires Inv(p) && Possible(p, run)
    ensures Inv(After(p, run))
    decreases |run|
  {
    if run != [] {
      StepInv(p, run[0]);
      RunInv(Step(p, run[0]), run[1..]);
    }
  }

  lemma StepGrows<T>(p: Pool<T>, a: Action<T>)
    requires Enabled(p, a)
    ensures p.started <= Step(p, a).started && p.accepted <= Step(p, a).accepted
  {
  }

  /** What has started stays started, in the same order. */
  lemma {:induction false} StartedGrows<T>(p: Pool<T>, run: seq<Action<T>>)
    requires Possible(p, run)
    ensures p.started <= After(p, run).started && p.accepted <= After(p, run).accepted
    decreases |run|
  {
    if run != [] {
      StepGrows(p, run[0]);
      StartedGrows(Step(p, run[0]), run[1..]);
    }
  }

  /** After any run: the started tasks are the first accepted ones, in order, each once; the rest are queued or were
      discarded when the pool was destroyed. */
  lemma FirstInFirstOut<T>(p: Pool<T>, run: seq<Action<T>>)
    requires Init(p) && Possible(p, run)
    ensures var q := After(p, run);
            q.accepted == q.started + q.discarded + q.tasks &&
            q.started <= q.accepted && |q.accepted| == |q.started| + |q.discarded| + |q.tasks|
  {
    InitInv(p);
    RunInv(p, run);
  }

  /** While the pool is not stopped, a sleeping worker never faces more tasks than there are wake-ups on their way
      and workers about to look. */
  lemma NoWakeUpLost<T>(p: Pool<T>, run: seq<Action<T>>)
    requires Init(p) && Possible(p, run)
    ensures var q := After(p, run);
            !q.stop && SomeAsleep(q.workers) ==> |q.tasks| <= q.pending + Count(q.workers, Checking)
  {
    InitInv(p);
    RunInv(p, run);
  }

  /** Queued tasks never wait for nothing: some worker is running or about to look, or a wake-up is on its way. */
  lemma NoDeadlock<T>(p: Pool<T>, run: seq<Action<T>>)
    requires Init(p) && Possible(p, run)
    requires var q := After(p, run); !q.stop && q.tasks != [] && q.workers != []
    ensures var q := After(p, run); exists a :: Enabled(q, a) && (a.Check? || a.Finish? || a.NotifyOne?)
  {
    InitInv(p);
    RunInv(p, run);
    var q := After(p, run);
    CountWitness(q.workers, Checking);
    if i :| 0 <= i < |q.workers| && q.workers[i] == Checking {
      assert Enabled(q, Check(i));
    } else if i :| 0 <= i < |q.workers| && q.workers[i] == Running {
      assert Enabled(q, Finish(i));
    } else {
      assert q.workers[0] == Asleep;
      assert Enabled(q, Action<T>.NotifyOne(0));
    }
  }

  // ------------------------------------------------------ what a run has done

  /** The task a step hands over, if it does. */
  function Handed<T>(a: Action<T>): seq<T> {
    if a.Enqueue? then [a.task] else []
  }

  /** The tasks handed to the pool before it was stopped, in order. */
  function Submitted<T>(run: seq<Action<T>>): seq<T> {
    if run == [] || run[0].Stop? then []
    else Handed(run[0]) + Submitted(run[1..])
  }

  function Finishes<T>(run: seq<Action<T>>): nat {
    if run == [] then 0 else (if run[0].Finish? then 1 else 0) + Finishes(run[1..])
  }

  function Notifications<T>(run: seq<Action<T>>): nat {
    if run == [] then 0 else (if run[0].NotifyOne? then 1 else 0) + Notifications(run[1..])
  }

  lemma StepCounts<T>(p: Pool<T>, a: Action<T>)
    requires Enabled(p, a)
    ensures var q := Step(p, a);
            && |q.started| + Count(p.workers, Running) ==
               |p.started| + Count(q.workers, Running) + (if a.Finish? then 1 else 0)
            && q.pending + |p.accepted| + (if a.NotifyOne? then 1 else 0) == p.pending + |q.accepted|
  {
    match a
    case NotifyOne(i) => CountUpdateIfAsleep(p.workers, i);
    case Check(i) => CountUpdate(p.workers, i, Step(p, a).workers[i], Running);
    case Finish(i) => CountUpdate(p.workers, i, Checking, Running);
    case SpuriousWake(i) => CountUpdate(p.workers, i, Checking, Running);
    case NotifyAll => WakeAllKeepsRunning(p.workers);
    case _ =>
  }

  lemma CountUpdateIfAsleep(ws: seq<Worker>, i: nat)
    ensures i < |ws| && ws[i] == Asleep ==> Count(ws[i := Checking], Running) == Count(ws, Running)
  {
    if i < |ws| {
      CountUpdate(ws, i, Checking, Running);
    }
  }

  lemma {:induction false} WakeAllKeepsRunning(ws: seq<Worker>)
    ensures Count(WakeAll(ws), Running) == Count(ws, Running)
  {
    if ws != [] {
      WakeAllKeepsRunning(ws[1..]);
      assert WakeAll(ws)[1..] == WakeAll(ws[1..]);
    }
  }

  lemma StepAccepts<T>(p: Pool<T>, a: Action<T>)
    requires Enabled(p, a)
    ensures Step(p, a).accepted == p.accepted + if p.stop then [] else Handed(a)
    ensures Step(p, a).stop <==> p.stop || a.Stop?
    ensures Step(p, a).notified <==> p.notified || a.NotifyAll?
  {
  }

  lemma {:induction false} RunAccepts<T>(p: Pool<T>, run: seq<Action<T>>)
    requires Possible(p, run)
    ensures After(p, run).accepted == p.accepted + if p.stop then [] else Submitted(run)
    decreases |run|
  {
    if run != [] {
      var before, handed, later := p.accepted, Handed(run[0]), Submitted(run[1..]);
      StepAccepts(p, run[0]);
      RunAccepts(Step(p, run[0]), run[1..]);
      assert before + handed + later == before + (handed + later);
      assert run[0].Stop? ==> handed == [];
    }
  }

  lemma {:induction false} RunStops<T>(p: Pool<T>, run: seq<Action<T>>)
    requires Possible(p, run)
    ensures After(p, run).stop <==> p.stop || Action<T>.Stop in run
    ensures After(p, run).notified <==> p.notified || Action<T>.NotifyAll in run
    decreases |run|
  {
    if run != [] {
      StepAccepts(p, run[0]);
      RunStops(Step(p, run[0]), run[1..]);
    }
  }

  lemma {:induction false} RunCounts<T>(p: Pool<T>, run: seq<Action<T>>)
    requires Possible(p, run)
    ensures var q := After(p, run);
            && |q.started| + Count(p.workers, Running) == |p.started| + Count(q.workers, Running) + Finishes(run)
            && q.pending + |p.accepted| + Notifications(run) == p.pending + |q.accepted|
    decreases |run|
  {
    if run != [] {
      StepCounts(p, run[0]);
      RunCounts(Step(p, run[0]), run[1..]);
    }
  }

  /** In every run exactly the tasks handed over before the stop are accepted, in order, and every task that has started
      has either finished or is being executed by a worker of its own; every accepted task is followed by one call of
      notify_one. */
  lemma TasksAccountedFor<T>(p: Pool<T>, run: seq<Action<T>>)
    requires Init(p) && Possible(p, run)
    ensures var q := After(p, run);
            && q.accepted == Submitted(run)
            && (q.stop <==> Action<T>.Stop in run) && (q.notified <==> Action<T>.NotifyAll in run)
            && |q.started| == Finishes(run) + Count(q.workers, Running)
            && |q.accepted| == Notifications(run) + q.pending
  {
    RunAccepts(p, run);
    RunStops(p, run);
    RunCounts(p, run);
    CountWitness(p.workers, Running);
  }

  /** A step changes no worker but the one it names, and a new task or the stop none at all; only notify_all wakes more
      than one. */
  lemma OthersStay<T>(p: Pool<T>, a: Action<T>, j: nat)
    requires Enabled(p, a) && j < |p.workers| && Step(p, a).workers[j] != p.workers[j]
    ensures || (a.NotifyAll? && p.workers[j] == Asleep && Step(p, a).workers[j] == Checking)
            || (a.NotifyOne? && a.who == j) || (a.Check? && a.who == j) || (a.Finish? && a.who == j)
            || (a.SpuriousWake? && a.who == j)
    ensures p.workers[j] == Asleep ==> Step(p, a).workers[j] == Checking
  {
  }

  /** A worker that looks at a non-empty queue starts the oldest accepted task that has not started. */
  lemma OldestIsStarted<T>(p: Pool<T>, run: seq<Action<T>>, i: nat)
    requires Init(p) && Possible(p, run)
    requires var q := After(p, run); Enabled(q, Check(i)) && q.tasks != []
    ensures var q, r := After(p, run), Step(After(p, run), Check(i));
            && |q.started| < |q.accepted| && r.started == q.accepted[..|q.started| + 1]
            && r.workers == q.workers[i := Running]
  {
    InitInv(p);
    RunInv(p, run);
    var q := After(p, run);
    assert q.accepted == q.started + q.tasks;
  }

  // ------------------------------------------------------- coming to rest

  /** A step that the pool takes of itself, without a new task, a stop or a spurious wake-up. */
  predicate OwnStep<T>(a: Action<T>) {
    a.Check? || a.Finish? || a.NotifyOne?
  }

  /** Own steps still to come, at most. */
  function Work<T>(p: Pool<T>): nat {
    3 * |p.tasks| + 2 * p.pending + 2 * Count(p.workers, Running) + Count(p.workers, Checking)
  }

  lemma OwnStepWorks<T>(p: Pool<T>, a: Action<T>)
    requires !p.stop && Enabled(p, a) && OwnStep(a)
    ensures !Step(p, a).stop && Work(Step(p, a)) < Work(p)
    ensures |Step(p, a).workers| == |p.workers| && Step(p, a).accepted == p.accepted
  {
    if a.NotifyOne? {
      if SomeAsleep(p.workers) {
        CountUpdate(p.workers, a.who, Checking, Running);
        CountUpdate(p.workers, a.who, Checking, Checking);
      }
    } else {
      var v := Step(p, a).workers[a.who];
      CountUpdate(p.workers, a.who, v, Running);
      CountUpdate(p.workers, a.who, v, Checking);
    }
  }

  /** All accepted tasks have been started, no wake-up is on its way and every worker sleeps. */
  predicate AtRest<T(==)>(p: Pool<T>) {
    p.tasks == [] && p.started == p.accepted && p.pending == 0 && forall i | 0 <= i < |p.workers| :: p.workers[i] == Asleep
  }

  /** Where no own step is possible, the pool is at rest. */
  lemma StuckIsAtRest<T(!new)>(p: Pool<T>)
    requires Inv(p) && !p.stop && p.workers != [] && forall a | OwnStep(a) :: !Enabled(p, a)
    ensures AtRest(p)
  {
    forall i | 0 <= i < |p.workers| ensures p.workers[i] == Asleep {
      assert !Enabled(p, Action<T>.Check(i)) && !Enabled(p, Action<T>.Finish(i));
    }
    assert p.workers[0] == Asleep && !Enabled(p, Action<T>.NotifyOne(0));
    CountWitness(p.workers, Checking);
  }

  lemma {:induction false} RestFrom<T(!new)>(p: Pool<T>) returns (more: seq<Action<T>>)
    requires Inv(p) && !p.stop && p.workers != []
    ensures Possible(p, more) && (forall a | a in more :: OwnStep(a)) && AtRest(After(p, more))
    ensures After(p, more).accepted == p.accepted
    decreases Work(p)
  {
    if a :| OwnStep(a) && Enabled(p, a) {
      StepInv(p, a);
      OwnStepWorks(p, a);
      var rest := RestFrom(Step(p, a));
      more := [a] + rest;
      assert more[1..] == rest;
    } else {
      StuckIsAtRest(p);
      more := [];
    }
  }

  /** From wherever a run has brought a pool that is not stopped, its own steps bring it to rest, with every accepted task
      started; each of them brings it closer, whichever is taken, and only at rest none is left. */
  lemma ComesToRest<T(!new)>(p: Pool<T>, run: seq<Action<T>>) returns (more: seq<Action<T>>)
    requires Init(p) && Possible(p, run) && !After(p, run).stop && p.workers != []
    ensures var q := After(p, run);
            && Possible(q, more) && (forall a | a in more :: OwnStep(a)) && AtRest(After(q, more))
            && After(q, more).accepted == q.accepted
            && (forall a | OwnStep(a) && Enabled(q, a) :: Work(Step(q, a)) < Work(q))
            && ((forall a | OwnStep(a) :: !Enabled(q, a)) ==> AtRest(q))
  {
    InitInv(p);
    RunInv(p, run);
    SameWorkers(p, run);
    var q := After(p, run);
    more := RestFrom(q);
    forall a | OwnStep(a) && Enabled(q, a) ensures Work(Step(q, a)) < Work(q) {
      OwnStepWorks(q, a);
    }
    if forall a | OwnStep(a) :: !Enabled(q, a) {
      StuckIsAtRest(q);
    }
  }

  lemma {:induction false} SameWorkers<T>(p: Pool<T>, run: seq<Action<T>>)
    requires Possible(p, run)
    ensures |After(p, run).workers| == |p.workers|
    decreases |run|
  {
    if run != [] {
      SameWorkers(Step(p, run[0]), run[1..]);
    }
  }

  // ------------------------------------------------------------ destruction

  /** Worker steps still to come before every join returns. */
  function Remaining<T>(p: Pool<T>): nat {
    2 * Count(p.workers, Running) + Count(p.workers, Checking)
  }

  predicate WorkerStep<T>(a: Action<T>) {
    a.Check? || a.Finish? || a.SpuriousWake?
  }

  lemma StepAfterNotify<T>(p: Pool<T>, a: Action<T>)
    requires Inv(p) && p.notified && Enabled(p, a)
    ensures if WorkerStep(a) then Remaining(Step(p, a)) < Remaining(p) else Remaining(Step(p, a)) == Remaining(p)
  {
    if a.Check? || a.Finish? {
      CountUpdate(p.workers, a.who, Step(p, a).workers[a.who], Running);
      CountUpdate(p.workers, a.who, Step(p, a).workers[a.who], Checking);
    }
  }

  /** After notify_all nobody is asleep, every worker step brings the joins closer and nothing sets them back, and
      until all workers have returned some worker can step: the destructor's joins return once running tasks do. */
  lemma JoinsReturn<T(!new)>(p: Pool<T>, run: seq<Action<T>>)
    requires Init(p) && Possible(p, run) && After(p, run).notified
    ensures var q := After(p, run);
            && !SomeAsleep(q.workers)
            && (forall a | Enabled(q, a) ::
                  if WorkerStep(a) then Remaining(Step(q, a)) < Remaining(q) else Remaining(Step(q, a)) == Remaining(q))
            && ((forall i | 0 <= i < |q.workers| :: q.workers[i] == Exited) || exists a :: Enabled(q, a) && WorkerStep(a))
  {
    InitInv(p);
    RunInv(p, run);
    var q := After(p, run);
    forall a | Enabled(q, a)
      ensures if WorkerStep(a) then Remaining(Step(q, a)) < Remaining(q) else Remaining(Step(q, a)) == Remaining(q)
    {
      StepAfterNotify(q, a);
    }
    if i :| 0 <= i < |q.workers| && q.workers[i] != Exited {
      assert Enabled(q, if q.workers[i] == Checking then Check(i) else Finish(i));
    }
  }
}
