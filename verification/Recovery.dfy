/** The retrying control node of pb2025_sentry_behavior/plugins/control/recovery_node.cpp. What the two children answer
    is an arbitrary sequence: `reply(i)` is the answer to the i-th execution of a child. */
module Recovery {

  datatype Status = Idle | Running | Success | Failure | Skipped

  datatype Result = Returned(status: Status) | LogicError | BehaviorTreeException

  datatype Event = Executed(child: nat, answer: Status) | ChildHalted(child: nat) | Halted

  /** An input port of the node. */
  datatype Port = Missing | Given(value: nat)

  /** The node's fields, what happened to its children, and how many answers were read. */
  datatype State = State(child: nat, retries: nat, log: seq<Event>, at: nat)

  datatype Turn = Turn(result: Result, state: State)

  datatype Move = Next(state: State) | Stop(result: Result, state: State)

  function Logged(s: State, e: Event): State {
    s.(log := s.log + [e])
  }

  function Reset(s: State): State {
    Logged(s, Halted).(child := 0, retries := 0)
  }

  function Execute(s: State, answer: Status): State {
    Logged(s, Executed(s.child, answer)).(at := s.at + 1)
  }

  /** What the node does with one answer. */
  function React(n: nat, s: State, answer: Status): Move
    requires s.child <= 1
  {
    var e := Execute(s, answer);
    match answer
    case Success =>
      if s.child == 0 then Stop(Returned(Success), Reset(e))
      else Next(Logged(e, ChildHalted(1)).(child := 0, retries := s.retries + 1))
    case Failure =>
      if s.child == 0 && s.retries < n then Next(Logged(e, ChildHalted(0)).(child := 1))
      else Stop(Returned(Failure), Reset(e))
    case Running => Stop(Returned(Running), e)
    case _ => Stop(LogicError, e)
  }

  function Left(n: nat, s: State): int {
    2 * (if s.retries <= n then n + 1 - s.retries else 0) - s.child
  }

  /** One tick. */
  function TickFrom(n: nat, reply: nat -> Status, s: State): (t: Turn)
    requires s.child <= 1
    ensures t.state.child <= 1
    decreases Left(n, s)
  {
    if s.retries > n then Turn(Returned(Failure), Reset(s))
    else
      match React(n, s, reply(s.at))
      case Next(u) => TickFrom(n, reply, u)
      case Stop(result, u) => Turn(result, u)
  }

  class RecoveryNode {
    const children: nat
    var child: nat
    var attempts: nat
    var retries: nat
    var log: seq<Event>
    var executions: nat

    ghost function Now(): State
      reads this
    {
      State(child, retries, log, executions)
    }

    constructor (children: nat)
      ensures Now() == State(0, 0, [], 0) && attempts == 1 && this.children == children
    {
      this.children := children;
      child, attempts, retries, log, executions := 0, 1, 0, [], 0;
    }

    method ExecuteTick(reply: nat -> Status) returns (answer: Status)
      modifies `log, `executions
      ensures answer == reply(old(executions)) && Now() == Execute(old(Now()), answer)
    {
      answer := reply(executions);
      executions := executions + 1;
      log := log + [Executed(child, answer)];
    }

    method HaltChild(index: nat)
      modifies `log
      ensures Now() == Logged(old(Now()), ChildHalted(index))
    {
      log := log + [ChildHalted(index)];
    }

    method Halt()
      modifies `log, `child, `retries
      ensures Now() == Reset(old(Now()))
    {
      log := log + [Halted];
      retries := 0;
      child := 0;
    }

    /** `input` is the port num_attempts; without it the number read last stays. */
    method Tick(input: Port, reply: nat -> Status) returns (result: Result)
      requires child <= 1
      modifies this
      ensures attempts == if input.Given? then input.value else old(attempts)
      ensures children != 2 ==> result == BehaviorTreeException && Now() == old(Now())
      ensures children == 2 ==> Turn(result, Now()) == TickFrom(attempts, reply, old(Now()))
    {
      if input.Given? {
        attempts := input.value;
      }
      if children != 2 {
        return BehaviorTreeException;
      }
      ghost var n, t := attempts, TickFrom(attempts, reply, Now());
      while child < children && retries <= attempts
        invariant child <= 1 && attempts == n
        invariant t == TickFrom(n, reply, Now())
        decreases Left(attempts, Now())
      {
        ghost var move := React(n, Now(), reply(executions));
        assert t == if move.Next? then TickFrom(n, reply, move.state) else Turn(move.result, move.state);
        var answer := ExecuteTick(reply);
        if child == 0 {
          match answer
          case Success =>
            Halt();
            return Returned(Success);
          case Failure =>
            if retries < attempts {
              HaltChild(0);
              child := child + 1;
              assert move == Next(Now());
            } else {
              Halt();
              return Returned(Failure);
            }
          case Running =>
            return Returned(Running);
          case _ =>
            return LogicError;
        } else {
          match answer
          case Success =>
            HaltChild(1);
            retries := retries + 1;
            child := child - 1;
            assert move == Next(Now());
          case Failure =>
            Halt();
            return Returned(Failure);
          case Running =>
            return Returned(Running);
          case _ =>
            return LogicError;
        }
      }
      Halt();
      return Returned(Failure);
    }
  }

  // ------------------------------------------------ runs

  /** Ticks until one returns something else than RUNNING, at most `m` of them. */
  function Run(n: nat, reply: nat -> Status, s: State, m: nat): Turn
    requires s.child <= 1 && m > 0
    decreases m
  {
    var t := TickFrom(n, reply, s);
    if t.result == Returned(Running) && m > 1 then Run(n, reply, t.state, m - 1) else t
  }

  datatype Answer = Answer(child: nat, status: Status)

  function Noted(w: seq<Answer>, e: Event): seq<Answer> {
    if e.Executed? && e.answer != Running then w + [Answer(e.child, e.answer)] else w
  }

  /** The finished executions in a log: those whose answer is not RUNNING. */
  function Finished(log: seq<Event>): seq<Answer> {
    if log == [] then [] else Noted(Finished(log[..|log| - 1]), log[|log| - 1])
  }

  lemma FinishedMore(log: seq<Event>, e: Event)
    ensures Finished(log + [e]) == Noted(Finished(log), e)
  {
    assert (log + [e])[..|log|] == log;
  }

  /** `k` failed attempts of the first child, each followed by a successful recovery. */
  function Rounds(k: nat): (r: seq<Answer>)
    ensures |r| == 2 * k
  {
    if k == 0 then [] else Rounds(k - 1) + [Answer(0, Failure)] + [Answer(1, Success)]
  }

  /** What must have been answered for the node to have these fields. */
  function Behind(child: nat, retries: nat): (r: seq<Answer>)
    ensures |r| == 2 * retries + if child == 0 then 0 else 1
  {
    Rounds(retries) + if child == 0 then [] else [Answer(0, Failure)]
  }

  predicate Reachable(n: nat, s: State) {
    s.child <= 1 && s.retries + s.child <= n && Finished(s.log) == Behind(s.child, s.retries)
  }

  predicate Idles(s: State) {
    s.child == 0 && s.retries == 0
  }

  /** The finished executions that lead to a result. */
  ghost predicate Explains(n: nat, t: Turn) {
    var w := Finished(t.state.log);
    match t.result
    case Returned(Running) => Reachable(n, t.state)
    case Returned(Success) => Idles(t.state) && Succeeds(n, w)
    case Returned(Failure) => Idles(t.state) && (GivesUp(n, w) || RecoveryFails(n, w))
    case LogicError => t.state.child <= 1 && t.state.retries + t.state.child <= n && Breaks(t.state, w)
    case _ => false
  }

  predicate Succeeds(n: nat, w: seq<Answer>) {
    |w| <= 2 * n + 1 && w == Rounds(|w| / 2) + [Answer(0, Success)]
  }

  predicate GivesUp(n: nat, w: seq<Answer>) {
    w == Rounds(n) + [Answer(0, Failure)]
  }

  predicate RecoveryFails(n: nat, w: seq<Answer>) {
    2 <= |w| <= 2 * n && w == Rounds(|w| / 2 - 1) + [Answer(0, Failure)] + [Answer(1, Failure)]
  }

  predicate Breaks(s: State, w: seq<Answer>) {
    || w == Behind(s.child, s.retries) + [Answer(s.child, Idle)]
    || w == Behind(s.child, s.retries) + [Answer(s.child, Skipped)]
  }

  lemma FinalWords(n: nat, k: nat)
    ensures k <= n ==> Succeeds(n, Behind(0, k) + [Answer(0, Success)])
    ensures GivesUp(n, Behind(0, n) + [Answer(0, Failure)])
    ensures k < n ==> RecoveryFails(n, Behind(1, k) + [Answer(1, Failure)])
    ensures Behind(0, k + 1) == Behind(1, k) + [Answer(1, Success)]
  {
  }

  /** One answer: it moves on to a reachable state, or explains the result. */
  lemma ReactExplained(n: nat, s: State, answer: Status)
    requires Reachable(n, s)
    ensures match React(n, s, answer)
            case Next(u) => Reachable(n, u)
            case Stop(result, u) => Explains(n, Turn(result, u))
  {
    ReactFinishes(n, s, answer);
    if answer in {Success, Failure} {
      FinalWords(n, s.retries);
    }
  }

  /** One answer adds at most one finished execution. */
  lemma ReactFinishes(n: nat, s: State, answer: Status)
    requires s.child <= 1
    ensures Finished(React(n, s, answer).state.log) == Noted(Finished(s.log), Executed(s.child, answer))
  {
    var log := s.log + [Executed(s.child, answer)];
    FinishedMore(s.log, Executed(s.child, answer));
    FinishedMore(log, if React(n, s, answer).Next? then ChildHalted(s.child) else Halted);
  }

  /** One tick, from any state reachable with this number of attempts. */
  lemma {:induction false} TickExplained(n: nat, reply: nat -> Status, s: State)
    requires Reachable(n, s)
    ensures Explains(n, TickFrom(n, reply, s))
    decreases Left(n, s)
  {
    ReactExplained(n, s, reply(s.at));
    if React(n, s, reply(s.at)).Next? {
      TickExplained(n, reply, React(n, s, reply(s.at)).state);
    }
  }

  /** A whole run with a fixed number of attempts, over any number of ticks: the finished executions are alternating
      rounds followed by exactly the answer that ends the run, and a final result leaves the node as it started. */
  lemma {:induction false} RunExplained(n: nat, reply: nat -> Status, s: State, m: nat)
    requires Reachable(n, s) && m > 0
    ensures Explains(n, Run(n, reply, s, m))
    decreases m
  {
    TickExplained(n, reply, s);
    var t := TickFrom(n, reply, s);
    if t.result == Returned(Running) && m > 1 {
      RunExplained(n, reply, t.state, m - 1);
    }
  }

  predicate IsFirst(s: State) {
    s.child == 0 && s.retries == 0 && s.log == []
  }

  /** The j-th finished execution of a run that goes on. */
  function Alternate(j: nat): Answer {
    if j % 2 == 0 then Answer(0, Failure) else Answer(1, Success)
  }

  lemma {:induction false} RoundsAlternate(k: nat, j: nat)
    requires j < 2 * k
    ensures Rounds(k)[j] == Alternate(j)
  {
    if j < 2 * k - 2 {
      RoundsAlternate(k - 1, j);
    }
  }

  lemma RoundsAllAlternate(k: nat)
    ensures forall j: nat | j < 2 * k :: Rounds(k)[j] == Alternate(j)
  {
    forall j: nat | j < 2 * k ensures Rounds(k)[j] == Alternate(j) {
      RoundsAlternate(k, j);
    }
  }

  /** Alternating answers, whatever the last one says. */
  ghost predicate Alternates(n: nat, w: seq<Answer>) {
    && |w| <= 2 * n + 1
    && (forall j: nat | j < |w| - 1 :: w[j] == Alternate(j))
    && (|w| > 0 ==> w[|w| - 1].child == (|w| - 1) % 2)
  }

  predicate EndsIn(w: seq<Answer>, a: Answer) {
    |w| > 0 && w[|w| - 1] == a
  }

  lemma FinalShape(n: nat, w: seq<Answer>)
    ensures Succeeds(n, w) ==> Alternates(n, w) && EndsIn(w, Answer(0, Success))
    ensures GivesUp(n, w) ==> Alternates(n, w) && EndsIn(w, Answer(0, Failure)) && |w| == 2 * n + 1
    ensures RecoveryFails(n, w) ==> Alternates(n, w) && EndsIn(w, Answer(1, Failure))
  {
    RoundsAllAlternate(|w| / 2);
    if |w| >= 2 {
      RoundsAllAlternate(|w| / 2 - 1);
    }
  }

  lemma OpenShape(n: nat, child: nat, retries: nat, w: seq<Answer>)
    requires child <= 1 && retries + child <= n
    ensures w == Behind(child, retries) ==>
              Alternates(n, w) && (w == [] || EndsIn(w, Alternate(|w| - 1))) && |w| <= 2 * n
    ensures forall status | w == Behind(child, retries) + [Answer(child, status)] ::
              Alternates(n, w) && EndsIn(w, Answer(child, status))
  {
    RoundsAllAlternate(retries);
  }

  /** What a run's finished executions say about its result. */
  ghost predicate Tells(n: nat, result: Result, w: seq<Answer>) {
    && (result == Returned(Success) <==> EndsIn(w, Answer(0, Success)))
    && (result == Returned(Failure) <==>
        EndsIn(w, Answer(1, Failure)) || (EndsIn(w, Answer(0, Failure)) && |w| == 2 * n + 1))
    && (result == LogicError <==> |w| > 0 && w[|w| - 1].status in {Idle, Skipped})
  }

  lemma ExplainedTells(n: nat, t: Turn)
    requires Explains(n, t)
    ensures Alternates(n, Finished(t.state.log)) && Tells(n, t.result, Finished(t.state.log))
  {
    var w := Finished(t.state.log);
    FinalShape(n, w);
    if t.result in {Returned(Running), LogicError} {
      OpenShape(n, t.state.child, t.state.retries, w);
    }
  }

  /** The children finish in strict alternation, the first at most n + 1 times and the second at most n times, and the
      result can be read off the finished executions: SUCCESS exactly when the first child succeeded, FAILURE exactly
      when the second failed or the first failed for the (n + 1)-st time, an error exactly when a child answered with
      something it must not. */
  lemma ResultOfRun(n: nat, reply: nat -> Status, s: State, m: nat)
    requires IsFirst(s) && m > 0
    ensures var t := Run(n, reply, s, m);
            var w := Finished(t.state.log);
            && Alternates(n, w) && Tells(n, t.result, w)
            && (t.result in {Returned(Success), Returned(Failure)} ==> Idles(t.state))
  {
    RunExplained(n, reply, s, m);
    ExplainedTells(n, Run(n, reply, s, m));
  }

  /** SUCCESS is returned exactly when an execution of the first child returned SUCCESS. */
  lemma SuccessIff(n: nat, reply: nat -> Status, s: State, m: nat)
    requires IsFirst(s) && m > 0
    ensures Run(n, reply, s, m).result == Returned(Success) <==>
            Answer(0, Success) in Finished(Run(n, reply, s, m).state.log)
  {
    ResultOfRun(n, reply, s, m);
  }

  function Executions(w: seq<Answer>, child: nat): nat {
    if w == [] then 0 else Executions(w[..|w| - 1], child) + if w[|w| - 1].child == child then 1 else 0
  }

  lemma {:induction false} AlternatingCounts(w: seq<Answer>)
    requires forall j: nat | j < |w| :: w[j].child == j % 2
    ensures Executions(w, 0) == (|w| + 1) / 2 && Executions(w, 1) == |w| / 2
  {
    if w != [] {
      AlternatingCounts(w[..|w| - 1]);
    }
  }

  /** In any run the first child finishes at most n + 1 times and the second at most n times. */
  lemma AttemptsAreBounded(n: nat, reply: nat -> Status, s: State, m: nat)
    requires IsFirst(s) && m > 0
    ensures var w := Finished(Run(n, reply, s, m).state.log);
            Executions(w, 0) <= n + 1 && Executions(w, 1) <= n
  {
    ResultOfRun(n, reply, s, m);
    AlternatingCounts(Finished(Run(n, reply, s, m).state.log));
  }

  // ------------------------------------------------ RUNNING answers

  lemma {:induction false} TickGrows(n: nat, reply: nat -> Status, s: State)
    requires s.child <= 1
    ensures Finished(s.log) <= Finished(TickFrom(n, reply, s).state.log)
    decreases Left(n, s)
  {
    FinishedMore(s.log, Halted);
    ReactFinishes(n, s, reply(s.at));
    if s.retries <= n && React(n, s, reply(s.at)).Next? {
      TickGrows(n, reply, React(n, s, reply(s.at)).state);
    }
  }

  lemma {:induction false} RunGrows(n: nat, reply: nat -> Status, s: State, m: nat)
    requires s.child <= 1 && m > 0
    ensures Finished(s.log) <= Finished(Run(n, reply, s, m).state.log)
    decreases m
  {
    TickGrows(n, reply, s);
    var t := TickFrom(n, reply, s);
    if t.result == Returned(Running) && m > 1 {
      RunGrows(n, reply, t.state, m - 1);
    }
  }

  /** From position `from` of `w` on, `reply` gives the answers in `w`. */
  ghost predicate Serves(reply: nat -> Status, at: nat, w: seq<Answer>, from: nat) {
    forall j: nat | from <= j < |w| :: reply(at + (j - from)) == w[j].status
  }

  predicate Alike(s: State, u: State) {
    s.child == u.child && s.retries == u.retries && Finished(s.log) == Finished(u.log)
  }

  lemma ReactAlike(n: nat, s: State, u: State, answer: Status)
    requires s.child <= 1 && Alike(s, u) && answer != Running
    ensures var v, x := React(n, s, answer), React(n, u, answer);
            && Alike(v.state, x.state) && v.Next? == x.Next? && (v.Stop? ==> v.result == x.result != Returned(Running))
            && (v.Next? && s.retries <= n ==> Left(n, v.state) < Left(n, s))
            && x.state.at == u.at + 1 && |Finished(v.state.log)| == |Finished(s.log)| + 1
  {
    ReactFinishes(n, s, answer);
    ReactFinishes(n, u, answer);
  }

  /** One answer other than RUNNING, given to both: either it ends both alike or both go on alike. */
  lemma SameStep(n: nat, slow: nat -> Status, s: State, m: nat, fast: nat -> Status, u: State) returns (v: Move, x: Move)
    requires s.child <= 1 && m > 0 && Alike(s, u) && s.retries <= n && slow(s.at) != Running
    requires Serves(fast, u.at, Finished(Run(n, slow, s, m).state.log), |Finished(s.log)|)
    ensures Alike(v.state, x.state) && v.state.child <= 1
    ensures if v.Next? then
              && Run(n, slow, s, m) == Run(n, slow, v.state, m) && TickFrom(n, fast, u) == TickFrom(n, fast, x.state)
              && Serves(fast, x.state.at, Finished(Run(n, slow, s, m).state.log), |Finished(v.state.log)|)
              && Left(n, v.state) < Left(n, s)
            else
              Run(n, slow, s, m) == Turn(v.result, v.state) && TickFrom(n, fast, u) == Turn(v.result, x.state)
  {
    var answer := slow(s.at);
    v, x := React(n, s, answer), React(n, u, answer);
    ReactAlike(n, s, u, answer);
    AnswerServed(n, slow, s, m, fast, u);
    RunStep(n, slow, s, m, v);
    RunStep(n, fast, u, 1, x);
  }

  /** Answers of RUNNING are invisible: a run cut into any number of ticks by them ends like the single tick in which
      the children give the other answers at once. */
  lemma {:induction false} RunningIsInvisible(n: nat, slow: nat -> Status, s: State, m: nat, fast: nat -> Status, u: State)
    requires s.child <= 1 && m > 0 && Alike(s, u)
    requires Run(n, slow, s, m).result != Returned(Running)
    requires Serves(fast, u.at, Finished(Run(n, slow, s, m).state.log), |Finished(s.log)|)
    ensures TickFrom(n, fast, u).result == Run(n, slow, s, m).result
    ensures Alike(TickFrom(n, fast, u).state, Run(n, slow, s, m).state)
    decreases m, Left(n, s)
  {
    if s.retries > n {
      FinishedMore(s.log, Halted);
      FinishedMore(u.log, Halted);
    } else if slow(s.at) == Running {
      ReactFinishes(n, s, Running);
      RunningIsInvisible(n, slow, Execute(s, Running), m - 1, fast, u);
    } else {
      var v, x := SameStep(n, slow, s, m, fast, u);
      if v.Next? {
        RunningIsInvisible(n, slow, v.state, m, fast, x.state);
      }
    }
  }

  /** The fast child gives the answer the slow one gives next, and then the rest. */
  lemma AnswerServed(n: nat, slow: nat -> Status, s: State, m: nat, fast: nat -> Status, u: State)
    requires s.child <= 1 && m > 0 && s.retries <= n && slow(s.at) != Running
    requires Serves(fast, u.at, Finished(Run(n, slow, s, m).state.log), |Finished(s.log)|)
    ensures fast(u.at) == slow(s.at)
    ensures Serves(fast, u.at + 1, Finished(Run(n, slow, s, m).state.log), |Finished(s.log)| + 1)
  {
    AnswerInRun(n, slow, s, m);
    ServesNext(fast, u.at, Finished(Run(n, slow, s, m).state.log), |Finished(s.log)|);
  }

  lemma AnswerInRun(n: nat, reply: nat -> Status, s: State, m: nat)
    requires s.child <= 1 && m > 0 && s.retries <= n && reply(s.at) != Running
    ensures Finished(s.log) + [Answer(s.child, reply(s.at))] <= Finished(Run(n, reply, s, m).state.log)
  {
    var move := React(n, s, reply(s.at));
    RunStep(n, reply, s, m, move);
    assert Finished(move.state.log) == Finished(s.log) + [Answer(s.child, reply(s.at))] by {
      ReactFinishes(n, s, reply(s.at));
    }
    if move.Next? {
      RunGrows(n, reply, move.state, m);
    }
  }

  lemma RunStep(n: nat, reply: nat -> Status, s: State, m: nat, move: Move)
    requires s.child <= 1 && m > 0 && s.retries <= n && reply(s.at) != Running
    requires move == React(n, s, reply(s.at))
    ensures move.state.child <= 1
    ensures Run(n, reply, s, m) == if move.Next? then Run(n, reply, move.state, m) else Turn(move.result, move.state)
  {
    if move.Next? {
      assert TickFrom(n, reply, s) == TickFrom(n, reply, move.state);
    }
  }

  lemma ServesNext(reply: nat -> Status, at: nat, w: seq<Answer>, from: nat)
    requires Serves(reply, at, w, from) && from < |w|
    ensures reply(at) == w[from].status && Serves(reply, at + 1, w, from + 1)
  {
    assert reply(at + (from - from)) == w[from].status;
    forall j: nat | from + 1 <= j < |w| ensures reply(at + 1 + (j - (from + 1))) == w[j].status {
      assert at + 1 + (j - (from + 1)) == at + (j - from);
    }
  }

  // ------------------------------------------------ the end of the loop

  /** The tick ends below the loop. */
  predicate FallsThrough(n: nat, reply: nat -> Status, s: State)
    requires s.child <= 1
    decreases Left(n, s)
  {
    s.retries > n ||
    match React(n, s, reply(s.at))
    case Next(u) => FallsThrough(n, reply, u)
    case Stop(_, _) => false
  }

  /** The code below the loop runs exactly when the number of attempts was lowered under a run: below the retries
      already made, or to them while the second child is about to succeed. */
  lemma {:induction false} FallsThroughIff(n: nat, reply: nat -> Status, s: State)
    requires s.child <= 1
    ensures FallsThrough(n, reply, s) <==>
            s.retries > n || (s.child == 1 && s.retries == n && reply(s.at) == Success)
    ensures FallsThrough(n, reply, s) ==>
              var t := TickFrom(n, reply, s); t.result == Returned(Failure) && Idles(t.state)
    decreases Left(n, s)
  {
    if s.retries <= n && React(n, s, reply(s.at)).Next? {
      FallsThroughIff(n, reply, React(n, s, reply(s.at)).state);
    }
  }

  // ------------------------------------------------ halting

  function Activity(active: set<nat>, e: Event): set<nat> {
    if e.Executed? then active + {e.child} else if e.ChildHalted? then active - {e.child} else {}
  }

  /** The children that were executed and not halted since. */
  function Active(log: seq<Event>): set<nat> {
    if log == [] then {} else Activity(Active(log[..|log| - 1]), log[|log| - 1])
  }

  lemma ActiveMore(log: seq<Event>, e: Event)
    ensures Active(log + [e]) == Activity(Active(log), e)
  {
    assert (log + [e])[..|log|] == log;
  }

  /** Never are both children active; a final result leaves none active, and RUNNING leaves exactly the current one. */
  lemma {:induction false} OnlyCurrentActive(n: nat, reply: nat -> Status, s: State)
    requires s.child <= 1 && Active(s.log) <= {s.child}
    ensures var t := TickFrom(n, reply, s);
            && Active(t.state.log) <= (if t.result in {Returned(Success), Returned(Failure)} then {} else {t.state.child})
            && (t.result == Returned(Running) ==> t.state.child in Active(t.state.log))
    decreases Left(n, s)
  {
    var answer := reply(s.at);
    var e := Execute(s, answer);
    ActiveMore(s.log, Halted);
    ActiveMore(s.log, Executed(s.child, answer));
    ActiveMore(e.log, Halted);
    ActiveMore(e.log, ChildHalted(s.child));
    if s.retries <= n && React(n, s, answer).Next? {
      OnlyCurrentActive(n, reply, React(n, s, answer).state);
    }
  }
}
