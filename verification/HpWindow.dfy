/** The sliding HP window of pb2025_sentry_behavior/plugins/condition/is_hp_decreased.cpp. Clock readings are whole
    nanoseconds, spans given in seconds are reals. */
module HpWindow {
  import opened Numbers

  datatype Status = Success | Failure

  datatype Result = Returned(status: Status) | RuntimeError

  /** The port with the robot status. */
  datatype Reading = Missing | Hp(value: nat)

  datatype Sample = Sample(time: int, hp: int)

  datatype Hold = NoHold | Until(time: int)

  /** What one tick reads. */
  datatype Input = Input(now: int, hp: int, window: real, threshold: int, holdFor: real)

  /** `log` is every sample ever recorded; the node keeps only `history`. */
  datatype State = State(history: seq<Sample>, hold: Hold, log: seq<Sample>)

  function Age(now: int, x: Sample): real {
    Seconds(now - x.time)
  }

  predicate IsRecent(now: int, window: real, x: Sample) {
    Age(now, x) <= window
  }

  function HoldEnd(i: Input): int {
    i.now + Truncated(i.holdFor * NANOSECONDS)
  }

  predicate IsHeld(hold: Hold, now: int) {
    hold.Until? && now < hold.time
  }

  /** What remains when samples are dropped from the front until one is recent. */
  function Purged(h: seq<Sample>, now: int, window: real): seq<Sample> {
    if h == [] || IsRecent(now, window, h[0]) then h else Purged(h[1..], now, window)
  }

  function Highest(h: seq<Sample>, least: int): int {
    if h == [] then least
    else
      var m := Highest(h[..|h| - 1], least);
      if h[|h| - 1].hp > m then h[|h| - 1].hp else m
  }

  predicate Triggers(history: seq<Sample>, hp: int, threshold: int) {
    history != [] && Highest(history, hp) - hp > threshold
  }

  function TickFrom(s: State, i: Input): (Status, State) {
    if IsHeld(s.hold, i.now) then (Success, s)
    else
      var x := Sample(i.now, i.hp);
      var history := Purged(s.history + [x], i.now, i.window);
      if Triggers(history, i.hp, i.threshold) then (Success, State(history, Until(HoldEnd(i)), s.log + [x]))
      else (Failure, State(history, NoHold, s.log + [x]))
  }

  class IsHpDecreased {
    var history: seq<Sample>
    var holdUntil: Hold
    ghost var log: seq<Sample>

    ghost function Now(): State
      reads this
    {
      State(history, holdUntil, log)
    }

    constructor ()
      ensures Now() == State([], NoHold, [])
    {
      history, holdUntil, log := [], NoHold, [];
    }

    method Tick(reading: Reading, now: int, window: real, threshold: int, holdFor: real) returns (result: Result)
      modifies this
      ensures reading.Missing? ==> result == RuntimeError && Now() == old(Now())
      ensures reading.Hp? ==> result.Returned?
      ensures reading.Hp? ==>
                (result.status, Now()) == TickFrom(old(Now()), Input(now, reading.value, window, threshold, holdFor))
    {
      if reading.Missing? {
        return RuntimeError;
      }
      var hp := reading.value;
      if holdUntil.Until? && now < holdUntil.time {
        return Returned(Success);
      }
      if holdUntil.Until? && now >= holdUntil.time {
        holdUntil := NoHold;
      }
      history := history + [Sample(now, hp)];
      log := log + [Sample(now, hp)];
      ghost var all := history;
      while history != []
        invariant Purged(all, now, window) == Purged(history, now, window)
        invariant holdUntil == NoHold && log == old(log) + [Sample(now, hp)]
        decreases |history|
      {
        if Age(now, history[0]) <= window {
          break;
        }
        history := history[1..];
      }
      if history == [] {
        return Returned(Failure);
      }
      var maxHp := Max(history, hp);
      if maxHp - hp > threshold {
        holdUntil := Until(now + Truncated(holdFor * NANOSECONDS));
        return Returned(Success);
      }
      return Returned(Failure);
    }
  }

  method Max(history: seq<Sample>, hp: int) returns (maxHp: int)
    ensures maxHp == Highest(history, hp)
  {
    maxHp := hp;
    for i := 0 to |history|
      invariant maxHp == Highest(history[..i], hp)
    {
      assert history[..i + 1][..i] == history[..i];
      if history[i].hp > maxHp {
        maxHp := history[i].hp;
      }
    }
    assert history[..|history|] == history;
  }

  // ------------------------------------------------ the window

  /** The samples of a log that are recent at `now`. */
  function Recent(log: seq<Sample>, now: int, window: real): seq<Sample> {
    if log == [] then []
    else
      var rest := Recent(log[1..], now, window);
      if IsRecent(now, window, log[0]) then [log[0]] + rest else rest
  }

  ghost predicate Ordered(log: seq<Sample>, now: int) {
    && (forall i, j | 0 <= i <= j < |log| :: log[i].time <= log[j].time)
    && (forall i | 0 <= i < |log| :: log[i].time <= now)
  }

  lemma {:induction false} RecentAppend(a: seq<Sample>, b: seq<Sample>, now: int, window: real)
    ensures Recent(a + b, now, window) == Recent(a, now, window) + Recent(b, now, window)
  {
    if a == [] {
      assert a + b == b;
    } else {
      assert (a + b)[1..] == a[1..] + b;
      RecentAppend(a[1..], b, now, window);
    }
  }

  lemma {:induction false} AllRecent(log: seq<Sample>, now: int, window: real)
    requires forall x | x in log :: IsRecent(now, window, x)
    ensures Recent(log, now, window) == log
  {
    if log != [] {
      AllRecent(log[1..], now, window);
    }
  }

  /** On samples in time order dropping from the front finds all that are too old. */
  lemma {:induction false} PurgedIsRecent(log: seq<Sample>, now: int, window: real)
    requires Ordered(log, now)
    ensures Purged(log, now, window) == Recent(log, now, window)
  {
    if log != [] {
      if IsRecent(now, window, log[0]) {
        assert forall x | x in log :: IsRecent(now, window, x);
        AllRecent(log, now, window);
      } else {
        PurgedIsRecent(log[1..], now, window);
      }
    }
  }

  /** Nothing that is recent now was dropped before. */
  lemma {:induction false} RecentTwice(log: seq<Sample>, past: int, now: int, wide: real, window: real)
    requires past <= now && window <= wide
    ensures Recent(Recent(log, past, wide), now, window) == Recent(log, now, window)
  {
    if log != [] {
      RecentTwice(log[1..], past, now, wide, window);
    }
  }

  lemma {:induction false} RecentIn(log: seq<Sample>, now: int, window: real, x: Sample)
    ensures x in Recent(log, now, window) <==> x in log && IsRecent(now, window, x)
  {
    if log != [] {
      RecentIn(log[1..], now, window, x);
      assert log == [log[0]] + log[1..];
    }
  }

  lemma {:induction false} RecentOrdered(log: seq<Sample>, now: int, window: real, last: int)
    requires Ordered(log, last)
    ensures Ordered(Recent(log, now, window), last)
  {
    if log != [] {
      RecentOrdered(log[1..], now, window, last);
      forall x | x in Recent(log[1..], now, window) ensures log[0].time <= x.time {
        RecentIn(log[1..], now, window, x);
      }
    }
  }

  /** The state fits a clock reading `now` and a window: the history is exactly the part of the log that is recent. */
  ghost predicate Fits(s: State, now: int, window: real) {
    Ordered(s.log, now) && s.history == Recent(s.log, now, window)
  }

  /** The ticks of a run: the clock does not run backwards and the window does not grow; the other ports are free. */
  ghost predicate Possible(run: seq<Input>) {
    forall i, j | 0 <= i <= j < |run| :: run[i].now <= run[j].now && run[j].window <= run[i].window
  }

  function After(run: seq<Input>): State {
    if run == [] then State([], NoHold, []) else TickFrom(After(run[..|run| - 1]), run[|run| - 1]).1
  }

  /** The status the last tick of a run returns. */
  function Answer(run: seq<Input>): Status
    requires run != []
  {
    TickFrom(After(run[..|run| - 1]), run[|run| - 1]).0
  }

  predicate Records(run: seq<Input>)
    requires run != []
  {
    !IsHeld(After(run[..|run| - 1]).hold, run[|run| - 1].now)
  }

  /** One recording tick. */
  lemma RecordFits(s: State, i: Input, past: int, wide: real)
    requires Fits(s, past, wide) && past <= i.now && i.window <= wide && !IsHeld(s.hold, i.now)
    ensures Fits(TickFrom(s, i).1, i.now, i.window)
  {
    PurgedFits(s.history, s.log, Sample(i.now, i.hp), past, wide, i.window);
  }

  lemma PurgedFits(history: seq<Sample>, log: seq<Sample>, x: Sample, past: int, wide: real, window: real)
    requires Ordered(log, past) && history == Recent(log, past, wide) && past <= x.time && window <= wide
    ensures Ordered(log + [x], x.time)
    ensures Purged(history + [x], x.time, window) == Recent(log + [x], x.time, window)
  {
    RecentOrdered(log, past, wide, past);
    PurgedIsRecent(history + [x], x.time, window);
    RecentAppend(history, [x], x.time, window);
    RecentAppend(log, [x], x.time, window);
    RecentTwice(log, past, x.time, wide, window);
  }

  /** The clock and the window of the last tick that recorded, or of the run's first tick. */
  lemma {:induction false} HistoryFits(run: seq<Input>) returns (past: int, wide: real)
    requires run != [] && Possible(run)
    ensures Fits(After(run), past, wide) && past <= run[|run| - 1].now && run[|run| - 1].window <= wide
    ensures Records(run) ==> past == run[|run| - 1].now && wide == run[|run| - 1].window
  {
    var i, before := run[|run| - 1], run[..|run| - 1];
    if before == [] {
      past, wide := i.now, i.window;
      RecordFits(After(before), i, past, wide);
    } else {
      past, wide := HistoryFits(before);
      if Records(run) {
        RecordFits(After(before), i, past, wide);
        past, wide := i.now, i.window;
      }
    }
  }

  /** After every tick that records, the history is exactly the recorded samples of an age within the window. */
  lemma WindowIsExact(run: seq<Input>)
    requires run != [] && Possible(run) && Records(run)
    ensures After(run).history == Recent(After(run).log, run[|run| - 1].now, run[|run| - 1].window)
  {
    var past, wide := HistoryFits(run);
  }

  lemma {:induction false} HighestIff(h: seq<Sample>, least: int, bound: int)
    ensures Highest(h, least) > bound <==> least > bound || exists x :: x in h && x.hp > bound
  {
    if h != [] {
      HighestIff(h[..|h| - 1], least, bound);
      assert h == h[..|h| - 1] + [h[|h| - 1]];
    }
  }

  /** A recording tick answers SUCCESS exactly when some sample ever recorded lies within the window and is above the
      current HP by more than the threshold. */
  lemma {:induction false} TriggerIff(run: seq<Input>)
    requires run != [] && Possible(run) && Records(run)
    ensures var i := run[|run| - 1];
            Answer(run) == Success <==>
            exists x :: x in After(run).log && IsRecent(i.now, i.window, x) && x.hp - i.hp > i.threshold
  {
    var i, s := run[|run| - 1], After(run);
    var past, wide := HistoryFits(run);
    HighestIff(s.history, i.hp, i.hp + i.threshold);
    forall x ensures x in s.history <==> x in s.log && IsRecent(i.now, i.window, x) {
      RecentIn(s.log, i.now, i.window, x);
    }
    var x := Sample(i.now, i.hp);
    assert x in s.log;
    if s.history != [] {
      assert s.history[0] in s.log;
    }
  }

  /** The k-th tick of the run recorded this sample. */
  ghost predicate RecordedAt(run: seq<Input>, k: nat, x: Sample) {
    k < |run| && Records(run[..k + 1]) && x == Sample(run[k].now, run[k].hp)
  }

  lemma {:induction false} LogIsRecorded(run: seq<Input>, x: Sample)
    ensures x in After(run).log <==> exists k: nat :: RecordedAt(run, k, x)
  {
    if run != [] {
      var n, before := |run| - 1, run[..|run| - 1];
      LogIsRecorded(before, x);
      assert run[..n + 1] == run;
      forall k: nat | k < n ensures RecordedAt(run, k, x) <==> RecordedAt(before, k, x) {
        assert run[..k + 1] == before[..k + 1] && run[k] == before[k];
      }
      assert Records(run) ==> After(run).log == After(before).log + [Sample(run[n].now, run[n].hp)];
      assert x in After(run).log <==> x in After(before).log || RecordedAt(run, n, x);
    }
  }

  /** In the k-th tick, which recorded and is not longer ago than the window, the robot had more HP than now by more than
      the threshold. */
  ghost predicate DropSince(run: seq<Input>, k: nat)
    requires run != []
  {
    var i := run[|run| - 1];
    k < |run| && Records(run[..k + 1]) && Seconds(i.now - run[k].now) <= i.window && run[k].hp - i.hp > i.threshold
  }

  ghost predicate DropFrom(i: Input, x: Sample) {
    IsRecent(i.now, i.window, x) && x.hp - i.hp > i.threshold
  }

  lemma DropSinceIff(run: seq<Input>, k: nat)
    requires run != []
    ensures DropSince(run, k) <==> exists x :: RecordedAt(run, k, x) && DropFrom(run[|run| - 1], x)
  {
    if k < |run| {
      assert Records(run[..k + 1]) ==> RecordedAt(run, k, Sample(run[k].now, run[k].hp));
    }
  }

  /** The same in terms of the ticks alone: a recording tick answers SUCCESS exactly if there is such a drop. */
  lemma {:induction false} DropIff(run: seq<Input>)
    requires run != [] && Possible(run) && Records(run)
    ensures Answer(run) == Success <==> exists k: nat :: DropSince(run, k)
  {
    TriggerIff(run);
    if Answer(run) == Success {
      var x :| x in After(run).log && DropFrom(run[|run| - 1], x);
      LogIsRecorded(run, x);
      var k: nat :| RecordedAt(run, k, x);
      DropSinceIff(run, k);
    }
    if k: nat :| DropSince(run, k) {
      DropSinceIff(run, k);
      var x :| RecordedAt(run, k, x) && DropFrom(run[|run| - 1], x);
      LogIsRecorded(run, x);
    }
  }

  // ------------------------------------------------ the hold

  /** A hold covers the clock readings that are, with one nanosecond more, not further from the trigger than its time. */
  lemma HoldEndIff(i: Input, now: int)
    requires i.now <= now
    ensures now < HoldEnd(i) <==> Seconds(now + 1 - i.now) <= i.holdFor
  {
  }

  /** The last tick of the run recorded a sample and found a drop. */
  predicate Triggered(run: seq<Input>) {
    run != [] && Records(run) && Answer(run) == Success
  }

  lemma {:induction false} HoldLasts(run: seq<Input>, more: seq<Input>, end: int)
    requires After(run).hold == Until(end) && forall i | i in more :: i.now < end
    ensures After(run + more) == After(run)
    ensures more != [] ==> Answer(run + more) == Success && !Records(run + more)
  {
    if more == [] {
      assert run + more == run;
    } else {
      var most, i := more[..|more| - 1], more[|more| - 1];
      HoldLasts(run, most, end);
      assert run + more == run + most + [i];
    }
  }

  /** A trigger is followed by SUCCESS on every tick before the hold ends, and those ticks change nothing. */
  lemma TriggerHolds(run: seq<Input>, more: seq<Input>)
    requires Triggered(run) && forall i | i in more :: i.now < HoldEnd(run[|run| - 1])
    ensures After(run + more) == After(run)
    ensures more != [] ==> Answer(run + more) == Success && !Records(run + more)
  {
    HoldLasts(run, more, HoldEnd(run[|run| - 1]));
  }

  /** A hold was begun by a trigger of the run. */
  lemma {:induction false} HoldBegan(run: seq<Input>) returns (k: nat)
    requires After(run).hold.Until?
    ensures 0 < k <= |run| && After(run).hold.time == HoldEnd(run[k - 1])
    ensures Triggered(run[..k])
  {
    if Triggered(run) {
      k := |run|;
      assert run[..k] == run;
    } else {
      var before := run[..|run| - 1];
      k := HoldBegan(before);
      assert before[..k] == run[..k];
    }
  }

  /** A trigger that answers for the last tick: it is that tick, or its hold has not ended. */
  ghost predicate AnswersFor(run: seq<Input>, k: nat)
    requires 0 < k <= |run|
  {
    Triggered(run[..k]) && (k == |run| || run[|run| - 1].now < HoldEnd(run[k - 1]))
  }

  lemma SuccessHasTrigger(run: seq<Input>) returns (k: nat)
    requires run != [] && Answer(run) == Success
    ensures 0 < k <= |run| && AnswersFor(run, k)
  {
    if Records(run) {
      k := |run|;
      assert run[..k] == run;
    } else {
      var before := run[..|run| - 1];
      k := HoldBegan(before);
      assert before[..k] == run[..k];
    }
  }

  lemma TriggerAnswers(run: seq<Input>, k: nat)
    requires Possible(run) && 0 < k <= |run| && AnswersFor(run, k)
    ensures Answer(run) == Success
  {
    assert run[..k] + run[k..] == run;
    TriggerHolds(run[..k], run[k..]);
  }

  /** SUCCESS is answered exactly on a trigger and within the hold of one. */
  lemma SuccessIff(run: seq<Input>)
    requires run != [] && Possible(run)
    ensures Answer(run) == Success <==> exists k: nat :: 0 < k <= |run| && AnswersFor(run, k)
  {
    if Answer(run) == Success {
      var k := SuccessHasTrigger(run);
    }
    forall k: nat | 0 < k <= |run| && AnswersFor(run, k) ensures Answer(run) == Success {
      TriggerAnswers(run, k);
    }
  }

  /** When the hold outlasts the window, the drop that triggered it is forgotten: the first tick after the hold answers
      FAILURE whatever was seen before. */
  lemma QuietAfterHold(run: seq<Input>, more: seq<Input>, i: Input)
    requires Triggered(run) && Possible(run + more + [i]) && i.threshold >= 0
    requires forall j | j in more :: j.now < HoldEnd(run[|run| - 1])
    requires Records(run + more + [i]) && Seconds(i.now - run[|run| - 1].now) > i.window
    ensures Answer(run + more + [i]) == Failure
  {
    var all := run + more + [i];
    TriggerHolds(run, more);
    assert all[..|all| - 1] == run + more && all[|all| - 1] == i;
    TriggerIff(all);
    PrefixPossible(run, more, i);
    var past, wide := HistoryFits(run);
    var last := Sample(run[|run| - 1].now, 0);
    forall x | x in After(all).log && IsRecent(i.now, i.window, x) ensures x.hp - i.hp <= i.threshold {
      assert x in After(run).log ==> IsRecent(i.now, i.window, last);
    }
  }

  lemma PrefixPossible(run: seq<Input>, more: seq<Input>, i: Input)
    requires Possible(run + more + [i])
    ensures Possible(run)
  {
    var all := run + more + [i];
    forall j, k | 0 <= j <= k < |run| ensures run[j].now <= run[k].now && run[k].window <= run[j].window {
      assert all[j] == run[j] && all[k] == run[k];
    }
  }
}
