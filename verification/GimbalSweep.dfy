/** The gimbal command node of standard_robot_pp_ros2/src/gimbal_manager.cpp. Angles and seconds are reals; clock
    readings are whole nanoseconds. */
module GimbalSweep {
  import opened Numbers

  const PI := 3.14159265358979323846

  const ABSOLUTE_ANGLE := 1
  const VELOCITY := 2

  datatype Gimbal = Gimbal(pitch: real, yaw: real, pitchMin: real, pitchMax: real, yawMin: real, yawMax: real)

  datatype Command = Command(header: string, yawType: nat, pitchType: nat, position: Gimbal, velocity: Gimbal)

  const NO_GIMBAL := Gimbal(0.0, 0.0, 0.0, 0.0, 0.0, 0.0)

  /** A default-constructed message: both types default to ABSOLUTE_ANGLE. */
  const NO_COMMAND := Command("", ABSOLUTE_ANGLE, ABSOLUTE_ANGLE, NO_GIMBAL, NO_GIMBAL)

  /** Equal apart from the header. */
  predicate Same(m: Command, n: Command) {
    m.pitchType == n.pitchType && m.yawType == n.yawType && m.position == n.position && m.velocity == n.velocity
  }

  datatype Mode = Position | Velocity

  datatype Control = Control(mode: Mode, velocity: real, min: real, max: real, isContinuous: bool)

  const NO_CONTROL := Control(Position, 0.0, 0.0, 0.0, false)

  datatype Axis = Axis(position: real, ctrl: Control)

  predicate IsFullTurn(min: real, max: real) {
    Abs((max - min) - 2.0 * PI) < 0.01
  }

  function Commanded(a: Axis, kind: nat, position: real, velocity: real, min: real, max: real): Axis {
    if kind == ABSOLUTE_ANGLE then Axis(position, a.ctrl.(mode := Position))
    else if kind == VELOCITY then a.(ctrl := Control(Velocity, velocity, min, max, IsFullTurn(min, max)))
    else a
  }

  /** std::fmod, whose result has the sign of `x`. */
  function Fmod(x: real, y: real): real
    requires y > 0.0
  {
    x - Times(y, Truncated(x / y) as real)
  }

  /** One step of an axis in velocity mode. A full turn has a positive range. */
  function AxisStep(a: Axis, delta: real): Axis
    requires a.ctrl.isContinuous ==> IsFullTurn(a.ctrl.min, a.ctrl.max)
  {
    var goal := a.position + Times(a.ctrl.velocity, delta);
    if a.ctrl.isContinuous then
      var range := a.ctrl.max - a.ctrl.min;
      var p := a.ctrl.min + Fmod(goal - a.ctrl.min, range);
      a.(position := if p < a.ctrl.min then p + range else p)
    else if goal > a.ctrl.max then
      Axis(a.ctrl.max, a.ctrl.(velocity := -a.ctrl.velocity))
    else if goal < a.ctrl.min then
      Axis(a.ctrl.min, a.ctrl.(velocity := -a.ctrl.velocity))
    else
      a.(position := goal)
  }

  ghost predicate WellSet(a: Axis) {
    a.ctrl.isContinuous ==> IsFullTurn(a.ctrl.min, a.ctrl.max)
  }

  function Updated(a: Axis, delta: real): Axis
    requires WellSet(a)
  {
    if a.ctrl.mode == Velocity then AxisStep(a, delta) else a
  }

  datatype State = State(pitch: Axis, yaw: Axis, lastUpdate: int, last: Command)

  const START := State(Axis(0.0, NO_CONTROL), Axis(0.0, NO_CONTROL), 0, NO_COMMAND)

  ghost predicate Valid(s: State) {
    WellSet(s.pitch) && WellSet(s.yaw)
  }

  /** What a command does that is not dropped. */
  function Obeyed(s: State, m: Command): (r: State) {
    State(Commanded(s.pitch, m.pitchType, m.position.pitch, m.velocity.pitch, m.velocity.pitchMin, m.velocity.pitchMax),
          Commanded(s.yaw, m.yawType, m.position.yaw, m.velocity.yaw, m.velocity.yawMin, m.velocity.yawMax),
          s.lastUpdate, m)
  }

  function Handled(s: State, m: Command): State {
    if Same(m, s.last) then s else Obeyed(s, m)
  }

  function Timed(s: State, now: int): (r: State)
    requires Valid(s)
  {
    if s.lastUpdate == 0 then s.(lastUpdate := now)
    else
      var delta := Seconds(now - s.lastUpdate);
      State(Updated(s.pitch, delta), Updated(s.yaw, delta), now, s.last)
  }

  class GimbalManager {
    var pitch: real
    var yaw: real
    var pitchCtrl: Control
    var yawCtrl: Control
    var lastUpdate: int
    var lastMsg: Command
    var published: seq<(real, real)>

    ghost function Now(): State
      reads this
    {
      State(Axis(pitch, pitchCtrl), Axis(yaw, yawCtrl), lastUpdate, lastMsg)
    }

    constructor ()
      ensures Now() == START && published == []
    {
      pitch, yaw, pitchCtrl, yawCtrl, lastUpdate, lastMsg := 0.0, 0.0, NO_CONTROL, NO_CONTROL, 0, NO_COMMAND;
      published := [];
    }

    method GimbalCmdCallback(msg: Command)
      modifies `pitch, `yaw, `pitchCtrl, `yawCtrl, `lastMsg
      ensures Now() == Handled(old(Now()), msg)
    {
      if msg.pitchType == lastMsg.pitchType && msg.yawType == lastMsg.yawType &&
         msg.position == lastMsg.position && msg.velocity == lastMsg.velocity {
        return;
      }
      lastMsg := msg;
      if msg.pitchType == ABSOLUTE_ANGLE {
        pitch := msg.position.pitch;
        pitchCtrl := pitchCtrl.(mode := Position);
      } else if msg.pitchType == VELOCITY {
        pitchCtrl := Control(Velocity, msg.velocity.pitch, msg.velocity.pitchMin, msg.velocity.pitchMax,
                             IsFullTurn(msg.velocity.pitchMin, msg.velocity.pitchMax));
      }
      if msg.yawType == ABSOLUTE_ANGLE {
        yaw := msg.position.yaw;
        yawCtrl := yawCtrl.(mode := Position);
      } else if msg.yawType == VELOCITY {
        yawCtrl := Control(Velocity, msg.velocity.yaw, msg.velocity.yawMin, msg.velocity.yawMax,
                           IsFullTurn(msg.velocity.yawMin, msg.velocity.yawMax));
      }
    }

    method TimerCallback(now: int)
      requires Valid(Now())
      modifies this
      ensures Now() == Timed(old(Now()), now)
      ensures published == old(published) + if old(lastUpdate) == 0 then [] else [(pitch, yaw)]
    {
      if lastUpdate == 0 {
        lastUpdate := now;
        return;
      }
      UpdateState(Seconds(now - lastUpdate));
      lastUpdate := now;
    }

    method UpdateState(delta: real)
      requires Valid(Now())
      modifies `pitch, `yaw, `pitchCtrl, `yawCtrl, `published
      ensures Axis(pitch, pitchCtrl) == Updated(old(Now()).pitch, delta)
      ensures Axis(yaw, yawCtrl) == Updated(old(Now()).yaw, delta)
      ensures published == old(published) + [(pitch, yaw)]
    {
      if pitchCtrl.mode == Velocity {
        pitch, pitchCtrl := UpdateAxisPosition(pitch, pitchCtrl, delta);
      }
      if yawCtrl.mode == Velocity {
        yaw, yawCtrl := UpdateAxisPosition(yaw, yawCtrl, delta);
      }
      published := published + [(pitch, yaw)];
    }
  }

  /** updateAxisPosition; the control it changes in place is handed back. */
  method UpdateAxisPosition(current: real, ctrl: Control, delta: real) returns (position: real, after: Control)
    requires WellSet(Axis(current, ctrl))
    ensures Axis(position, after) == AxisStep(Axis(current, ctrl), delta)
  {
    after := ctrl;
    var displacement := Times(ctrl.velocity, delta);
    var goal := current + displacement;
    if ctrl.isContinuous {
      var range := ctrl.max - ctrl.min;
      goal := ctrl.min + Fmod(goal - ctrl.min, range);
      return if goal < ctrl.min then goal + range else goal, after;
    }
    if goal > ctrl.max {
      after := after.(velocity := -ctrl.velocity);
      return ctrl.max, after;
    }
    if goal < ctrl.min {
      after := after.(velocity := -ctrl.velocity);
      return ctrl.min, after;
    }
    return goal, after;
  }

  /** The axis after a list of steps. */
  function Sweep(a: Axis, deltas: seq<real>): (b: Axis)
    requires WellSet(a)
    ensures WellSet(b) && b.ctrl.isContinuous == a.ctrl.isContinuous
    decreases |deltas|
  {
    if deltas == [] then a else Sweep(AxisStep(a, deltas[0]), deltas[1..])
  }

  // ------------------------------------------------ continuous axes

  lemma TimesOrder(y: real, a: real, b: real)
    requires y > 0.0
    ensures a <= b ==> Times(y, a) <= Times(y, b)
    ensures a < b ==> Times(y, a) < Times(y, b)
  {
    if a < b {
      assert y * (b - a) > 0.0;
    }
  }

  lemma TimesMore(y: real, a: real)
    ensures Times(y, a + 1.0) == Times(y, a) + y && Times(y, a - 1.0) == Times(y, a) - y && Times(y, 0.0) == 0.0
  {
  }

  lemma TimesQuotient(x: real, y: real)
    requires y > 0.0
    ensures Times(y, x / y) == x && (x >= 0.0 <==> x / y >= 0.0)
  {
    var q := x / y;
    assert y * q == x;
    TimesOrder(y, 0.0, q);
    TimesOrder(y, q, 0.0);
  }

  /** The remainder is shorter than the divisor and has the sign of the dividend. */
  lemma FmodRange(x: real, y: real)
    requires y > 0.0
    ensures x >= 0.0 ==> 0.0 <= Fmod(x, y) < y
    ensures x < 0.0 ==> -y < Fmod(x, y) <= 0.0
  {
    var q := x / y;
    var k := Truncated(q) as real;
    TimesQuotient(x, y);
    TimesMore(y, k);
    if x >= 0.0 {
      TimesOrder(y, k, q);
      TimesOrder(y, q, k + 1.0);
    } else {
      TimesOrder(y, q, k);
      TimesOrder(y, k - 1.0, q);
    }
  }

  function Turns(range: real, k: int): real {
    Times(range, k as real)
  }

  /** `p` and `q` are whole turns of `range` apart. */
  ghost predicate Congruent(p: real, q: real, range: real) {
    exists k: int :: p == q + Turns(range, k)
  }

  lemma IsCongruent(p: real, q: real, range: real, k: int)
    requires p == q + Times(range, k as real)
    ensures Congruent(p, q, range)
  {
    assert p == q + Turns(range, k);
  }

  /** A continuous axis lands in its range, whole turns away from where its velocity carries it. */
  lemma ContinuousStep(a: Axis, delta: real)
    requires WellSet(a) && a.ctrl.isContinuous
    ensures var b := AxisStep(a, delta);
            && b.ctrl == a.ctrl && a.ctrl.min <= b.position < a.ctrl.max
            && Congruent(b.position, a.position + Times(a.ctrl.velocity, delta), a.ctrl.max - a.ctrl.min)
  {
    var range, goal := a.ctrl.max - a.ctrl.min, a.position + Times(a.ctrl.velocity, delta);
    Wrapped(a.ctrl.min, goal, range, AxisStep(a, delta).position);
  }

  lemma Wrapped(min: real, goal: real, range: real, p: real)
    requires range > 0.0
    requires var r := min + Fmod(goal - min, range); p == if r < min then r + range else r
    ensures min <= p < min + range && Congruent(p, goal, range)
  {
    FmodRange(goal - min, range);
    var k := -Truncated((goal - min) / range);
    TimesNegated(range, -k as real);
    TimesMore(range, k as real);
    IsCongruent(min + Fmod(goal - min, range), goal, range, k);
    if min + Fmod(goal - min, range) < min {
      IsCongruent(p, goal, range, k + 1);
    }
  }

  lemma TimesNegated(y: real, a: real)
    ensures Times(y, -a) == -Times(y, a)
  {
  }

  /** Only one place in the range is whole turns away from a given one. */
  lemma PlaceIsUnique(min: real, range: real, goal: real, p: real, q: real)
    requires min <= p < min + range && min <= q < min + range
    requires Congruent(p, goal, range) && Congruent(q, goal, range)
    ensures p == q
  {
    var j: int :| p == goal + Turns(range, j);
    var k: int :| q == goal + Turns(range, k);
    TurnsApart(range, j, k, p - goal, q - goal);
  }

  lemma TurnsApart(range: real, j: int, k: int, a: real, b: real)
    requires range > 0.0 && a == Times(range, j as real) && b == Times(range, k as real) && -range < a - b < range
    ensures a == b
  {
    TimesMore(range, j as real);
    TimesMore(range, k as real);
    if j < k {
      TimesOrder(range, j as real + 1.0, k as real);
    } else if k < j {
      TimesOrder(range, k as real + 1.0, j as real);
    }
  }

  function Sum(deltas: seq<real>): real {
    if deltas == [] then 0.0 else deltas[0] + Sum(deltas[1..])
  }

  lemma TurnsMore(range: real, j: int, k: int)
    ensures Turns(range, j) + Turns(range, k) == Turns(range, j + k)
  {
    assert (j + k) as real == j as real + k as real;
    Distribute(range, j as real, k as real);
  }

  lemma Distribute(a: real, b: real, c: real)
    ensures Times(a, b + c) == Times(a, b) + Times(a, c)
  {
  }

  lemma CongruentTwice(p: real, q: real, r: real, shift: real, range: real)
    requires Congruent(p, q, range) && Congruent(r, p + shift, range)
    ensures Congruent(r, q + shift, range)
  {
    var j: int :| p == q + Turns(range, j);
    var k: int :| r == p + shift + Turns(range, k);
    TurnsMore(range, j, k);
  }

  /** Over any number of steps a continuous axis turns by its velocity times the whole time, up to full ranges. */
  lemma {:induction false} TurnsAddUp(a: Axis, deltas: seq<real>)
    requires WellSet(a) && a.ctrl.isContinuous
    ensures var b := Sweep(a, deltas);
            && b.ctrl == a.ctrl && (deltas != [] ==> a.ctrl.min <= b.position < a.ctrl.max)
            && Congruent(b.position, a.position + Times(a.ctrl.velocity, Sum(deltas)), a.ctrl.max - a.ctrl.min)
    decreases |deltas|
  {
    var range, v := a.ctrl.max - a.ctrl.min, a.ctrl.velocity;
    if deltas == [] {
      TimesMore(v, 0.0);
      TimesMore(range, 0.0);
      IsCongruent(a.position, a.position + Times(v, 0.0), range, 0);
    } else {
      var next := AxisStep(a, deltas[0]);
      ContinuousStep(a, deltas[0]);
      TurnsAddUp(next, deltas[1..]);
      Distribute(v, deltas[0], Sum(deltas[1..]));
      CongruentTwice(next.position, a.position + Times(v, deltas[0]), Sweep(a, deltas).position,
                     Times(v, Sum(deltas[1..])), range);
    }
  }

  // ------------------------------------------------ bounded axes

  predicate InRange(a: Axis) {
    a.ctrl.min <= a.position <= a.ctrl.max
  }

  /** Where the velocity carries an axis if nothing stops it. */
  function Goal(a: Axis, time: real): real {
    a.position + Times(a.ctrl.velocity, time)
  }

  /** A bounded axis is within its bounds after every step, wherever it was, exactly if the bounds are in order. It
      goes exactly where its velocity carries it if that is within the bounds, and keeps the velocity; beyond an end it
      stands on that end with the velocity turned around. Nothing else of its control changes. */
  lemma BoundedStep(a: Axis, delta: real)
    requires !a.ctrl.isContinuous
    ensures var b := AxisStep(a, delta);
            && (InRange(b) <==> a.ctrl.min <= a.ctrl.max)
            && b.ctrl.(velocity := a.ctrl.velocity) == a.ctrl
            && (a.ctrl.min <= Goal(a, delta) <= a.ctrl.max ==>
                b.position == Goal(a, delta) && b.ctrl.velocity == a.ctrl.velocity)
            && (Goal(a, delta) > a.ctrl.max ==> b.position == a.ctrl.max && b.ctrl.velocity == -a.ctrl.velocity)
            && (Goal(a, delta) < a.ctrl.min <= a.ctrl.max ==>
                b.position == a.ctrl.min && b.ctrl.velocity == -a.ctrl.velocity)
  {
  }

  /** A step from inside the range moves the axis by no more than its velocity carries it, and in that direction. */
  lemma StepIsShort(a: Axis, delta: real)
    requires !a.ctrl.isContinuous && InRange(a)
    ensures var moved, carried := AxisStep(a, delta).position - a.position, Times(a.ctrl.velocity, delta);
            0.0 <= moved <= carried || carried <= moved <= 0.0
  {
  }

  /** While the velocity does not carry it beyond an end, a bounded axis goes at its velocity, without turning. */
  lemma {:induction false} SweepGoesStraight(a: Axis, deltas: seq<real>)
    requires !a.ctrl.isContinuous
    requires forall i | 0 < i <= |deltas| :: a.ctrl.min <= Goal(a, Sum(deltas[..i])) <= a.ctrl.max
    ensures Sweep(a, deltas) == Axis(Goal(a, Sum(deltas)), a.ctrl)
    decreases |deltas|
  {
    if deltas == [] {
      TimesMore(a.ctrl.velocity, 0.0);
    } else {
      var b, rest := AxisStep(a, deltas[0]), deltas[1..];
      FirstStep(a, deltas);
      BoundedStep(a, deltas[0]);
      forall i | 0 < i <= |rest| ensures a.ctrl.min <= Goal(b, Sum(rest[..i])) <= a.ctrl.max {
        GoalAfter(a, b, deltas[..i + 1]);
        assert deltas[..i + 1][1..] == rest[..i];
      }
      SweepGoesStraight(b, rest);
      GoalAfter(a, b, deltas);
    }
  }

  lemma FirstStep(a: Axis, deltas: seq<real>)
    requires deltas != [] && forall i | 0 < i <= |deltas| :: a.ctrl.min <= Goal(a, Sum(deltas[..i])) <= a.ctrl.max
    ensures a.ctrl.min <= Goal(a, deltas[0]) <= a.ctrl.max
  {
    assert deltas[..1] == [deltas[0]];
    assert Sum(deltas[..1]) == deltas[0] + Sum([]);
  }

  lemma GoalAfter(a: Axis, b: Axis, deltas: seq<real>)
    requires deltas != [] && b == Axis(Goal(a, deltas[0]), a.ctrl)
    ensures Goal(b, Sum(deltas[1..])) == Goal(a, Sum(deltas))
  {
    Distribute(a.ctrl.velocity, deltas[0], Sum(deltas[1..]));
  }

  lemma StepKeeps(a: Axis, delta: real)
    requires !a.ctrl.isContinuous && a.ctrl.min <= a.ctrl.max
    ensures InRange(AxisStep(a, delta)) && Abs(AxisStep(a, delta).ctrl.velocity) == Abs(a.ctrl.velocity)
    ensures AxisStep(a, delta).ctrl.(velocity := 0.0) == a.ctrl.(velocity := 0.0)
  {
    BoundedStep(a, delta);
  }

  lemma {:induction false} SweepStays(a: Axis, deltas: seq<real>)
    requires !a.ctrl.isContinuous && InRange(a)
    ensures InRange(Sweep(a, deltas)) && Abs(Sweep(a, deltas).ctrl.velocity) == Abs(a.ctrl.velocity)
    ensures Sweep(a, deltas).ctrl.(velocity := 0.0) == a.ctrl.(velocity := 0.0)
    decreases |deltas|
  {
    if deltas != [] {
      StepKeeps(a, deltas[0]);
      SweepStays(AxisStep(a, deltas[0]), deltas[1..]);
    }
  }

  lemma {:induction false} SweepMore(a: Axis, deltas: seq<real>, i: nat, j: nat)
    requires !a.ctrl.isContinuous && i <= j <= |deltas|
    ensures Sweep(Sweep(a, deltas[..i]), deltas[i..j]) == Sweep(a, deltas[..j])
    decreases i
  {
    if i > 0 {
      SweepMore(AxisStep(a, deltas[0]), deltas[1..], i - 1, j - 1);
      assert deltas[1..][..i - 1] == deltas[..i][1..] && deltas[1..][..j - 1] == deltas[..j][1..];
      assert deltas[1..][i - 1..j - 1] == deltas[i..j];
    } else {
      assert deltas[0..j] == deltas[..j];
    }
  }

  /** Every step is long enough to carry the axis by `least`. */
  ghost predicate Carry(speed: real, deltas: seq<real>, least: real) {
    least > 0.0 && forall d | d in deltas :: Times(speed, d) >= least
  }

  function End(a: Axis, up: bool): real {
    if up then a.ctrl.max else a.ctrl.min
  }

  /** How far it is to an end. */
  function Rest(a: Axis, up: bool): real {
    if up then a.ctrl.max - a.position else a.position - a.ctrl.min
  }

  predicate Heads(a: Axis, up: bool) {
    if up then a.ctrl.velocity > 0.0 else a.ctrl.velocity < 0.0
  }

  lemma SpeedTimes(v: real, d: real)
    ensures Times(v, d) == if v < 0.0 then -Times(Abs(v), d) else Times(Abs(v), d)
  {
    TimesNegated(d, v);
    assert v * d == d * v && (-v) * d == d * (-v);
  }

  /** One step toward an end: it arrives there, or comes nearer by `least` and heads on. */
  lemma StepToward(a: Axis, delta: real, least: real, up: bool)
    requires !a.ctrl.isContinuous && InRange(a) && Heads(a, up) && Times(Abs(a.ctrl.velocity), delta) >= least > 0.0
    ensures var b := AxisStep(a, delta);
            b.position == End(a, up) || (Heads(b, up) && 0.0 <= Rest(b, up) <= Rest(a, up) - least)
  {
    SpeedTimes(a.ctrl.velocity, delta);
  }

  lemma Fewer(n: nat, least: real, rest: real)
    requires Times(least, n as real) >= rest > 0.0 && least > 0.0
    ensures n > 0 && Times(least, (n - 1) as real) >= rest - least
  {
    TimesMore(least, n as real);
    assert (n - 1) as real == n as real - 1.0;
  }

  /** Heading for an end, the axis stands on it after at most as many steps as cover the distance. */
  lemma {:induction false} Reaches(a: Axis, deltas: seq<real>, least: real, n: nat, up: bool) returns (i: nat)
    requires !a.ctrl.isContinuous && InRange(a) && Heads(a, up) && Carry(Abs(a.ctrl.velocity), deltas, least)
    requires n <= |deltas| && Times(least, n as real) >= Rest(a, up)
    ensures i <= n && Sweep(a, deltas[..i]).position == End(a, up)
    decreases n
  {
    if Rest(a, up) <= 0.0 {
      i := 0;
    } else {
      Fewer(n, least, Rest(a, up));
      var b := AxisStep(a, deltas[0]);
      StepKeeps(a, deltas[0]);
      StepToward(a, deltas[0], least, up);
      if b.position == End(a, up) {
        i := 1;
        assert deltas[..1][1..] == [] && Sweep(b, []) == b;
      } else {
        var k := Reaches(b, deltas[1..], least, n - 1, up);
        i := k + 1;
        assert deltas[..i][1..] == deltas[1..][..k];
      }
    }
  }

  /** An axis that stands on one end and would leave the range there turns around on the spot. */
  lemma TurnsAround(a: Axis, delta: real, least: real, up: bool)
    requires !a.ctrl.isContinuous && InRange(a) && a.position == End(a, up) && Heads(a, up)
    requires Times(Abs(a.ctrl.velocity), delta) >= least > 0.0
    ensures var b := AxisStep(a, delta); b.position == End(a, up) && Heads(b, !up)
  {
    SpeedTimes(a.ctrl.velocity, delta);
  }

  /** From one end the axis reaches the other in one step more than cover the range. */
  lemma ReachesOther(a: Axis, deltas: seq<real>, least: real, n: nat, up: bool) returns (i: nat)
    requires !a.ctrl.isContinuous && InRange(a) && a.position == End(a, up) && a.ctrl.velocity != 0.0
    requires Carry(Abs(a.ctrl.velocity), deltas, least)
    requires n < |deltas| && Times(least, n as real) >= a.ctrl.max - a.ctrl.min
    ensures i <= n + 1 && Sweep(a, deltas[..i]).position == End(a, !up)
  {
    if Heads(a, !up) {
      i := Reaches(a, deltas, least, n, !up);
    } else {
      StepKeeps(a, deltas[0]);
      TurnsAround(a, deltas[0], least, up);
      var k := Reaches(AxisStep(a, deltas[0]), deltas[1..], least, n, !up);
      i := k + 1;
      assert deltas[..i][1..] == deltas[1..][..k];
    }
  }

  /** From inside its range a moving axis stands on both ends within 2n + 1 steps, where n steps cover the range. */
  lemma BothEndsReached(a: Axis, deltas: seq<real>, least: real, n: nat)
    returns (first: nat, second: nat)
    requires !a.ctrl.isContinuous && InRange(a) && a.ctrl.velocity != 0.0
    requires Carry(Abs(a.ctrl.velocity), deltas, least)
    requires 2 * n < |deltas| && Times(least, n as real) >= a.ctrl.max - a.ctrl.min
    ensures first <= n && first <= second <= 2 * n + 1
    ensures Sweep(a, deltas[..first]).position == End(a, a.ctrl.velocity > 0.0)
    ensures Sweep(a, deltas[..second]).position == End(a, a.ctrl.velocity < 0.0)
  {
    var up := a.ctrl.velocity > 0.0;
    first := Reaches(a, deltas, least, n, up);
    var b := Sweep(a, deltas[..first]);
    SweepStays(a, deltas[..first]);
    var k := ReachesOther(b, deltas[first..], least, n, up);
    second := first + k;
    assert deltas[first..][..k] == deltas[first..second];
    SweepMore(a, deltas, first, second);
  }

  // ------------------------------------------------ repeated commands

  datatype Event = Received(msg: Command) | Timer(now: int)

  function Next(s: State, e: Event): (r: State)
    requires Valid(s)
    ensures Valid(r)
  {
    match e
    case Received(m) => Handled(s, m)
    case Timer(now) => Timed(s, now)
  }

  function After(run: seq<Event>): (s: State)
    ensures Valid(s)
  {
    if run == [] then START else Next(After(run[..|run| - 1]), run[|run| - 1])
  }

  /** The node without the comparison: every command is obeyed. */
  function Obedient(run: seq<Event>): (s: State)
    ensures Valid(s)
  {
    if run == [] then START
    else
      var s := Obedient(run[..|run| - 1]);
      match run[|run| - 1]
      case Received(m) => Obeyed(s, m)
      case Timer(now) => Timed(s, now)
  }

  /** The command received last. */
  function Latest(run: seq<Event>): Command {
    if run == [] then NO_COMMAND
    else if run[|run| - 1].Received? then run[|run| - 1].msg
    else Latest(run[..|run| - 1])
  }

  /** The run without the commands that repeat the one before them. */
  function Distinct(run: seq<Event>): seq<Event> {
    if run == [] then []
    else
      var e, before := run[|run| - 1], run[..|run| - 1];
      if e.Received? && Same(e.msg, Latest(before)) then Distinct(before) else Distinct(before) + [e]
  }

  lemma {:induction false} LastIsLatest(run: seq<Event>)
    ensures Same(After(run).last, Latest(run))
  {
    if run != [] {
      LastIsLatest(run[..|run| - 1]);
    }
  }

  /** Dropping repeats inside the node is the same as never sending them. */
  lemma {:induction false} DropsRepeats(run: seq<Event>)
    ensures After(run) == Obedient(Distinct(run))
  {
    if run != [] {
      var e, before := run[|run| - 1], run[..|run| - 1];
      DropsRepeats(before);
      LastIsLatest(before);
    }
  }

  lemma AfterMore(run: seq<Event>, e: Event)
    ensures After(run + [e]) == Next(After(run), e)
  {
    assert (run + [e])[..|run|] == run;
  }

  /** A repeated command can be put in anywhere before the next different one without changing anything: both axes go on
      as they were, turned around or not. */
  lemma {:induction false} RepeatChangesNothing(run: seq<Event>, m: Command, more: seq<Event>)
    requires Same(m, Latest(run))
    ensures After(run + [Received(m)] + more) == After(run + more)
  {
    if more == [] {
      LastIsLatest(run);
      AfterMore(run, Received(m));
      assert run + [Received(m)] + more == run + [Received(m)] && run + more == run;
    } else {
      var most, e := more[..|more| - 1], more[|more| - 1];
      RepeatChangesNothing(run, m, most);
      AfterMore(run + [Received(m)] + most, e);
      AfterMore(run + most, e);
      assert more == most + [e];
      assert run + [Received(m)] + more == run + [Received(m)] + most + [e] && run + more == run + most + [e];
    }
  }

  /** Commands are repeats exactly if they differ in nothing but the header. */
  lemma SameIff(m: Command, n: Command)
    ensures Same(m, n) <==> m.(header := n.header) == n
  {
  }

  /** Only one first command is dropped, apart from its header: the one that orders both axes to 0 and sets nothing else. */
  lemma FirstIsDroppedIff(m: Command)
    ensures Same(m, Latest([])) <==>
            m.(header := "") == Command("", 1, 1, Gimbal(0.0, 0.0, 0.0, 0.0, 0.0, 0.0), Gimbal(0.0, 0.0, 0.0, 0.0, 0.0, 0.0))
  {
  }

  /** An axis after a command that has been obeyed: a position stops it there, a velocity makes it sweep between the given
      ends from where it is, without ends if they lie a full turn apart, up to 0.01. */
  ghost predicate Obeys(a: Axis, b: Axis, kind: nat, position: real, velocity: real, min: real, max: real) {
    && (kind == 1 ==> b.position == position && b.ctrl == a.ctrl.(mode := Position))
    && (kind == 2 ==>
        && b.position == a.position && b.ctrl.mode == Velocity
        && b.ctrl.velocity == velocity && b.ctrl.min == min && b.ctrl.max == max
        && (b.ctrl.isContinuous <==> 6.27318530717958647692 < max - min < 6.29318530717958647692))
    && (kind !in {1, 2} ==> b == a)
  }

  /** A command that differs from the one received before it in anything but the header is obeyed by both axes. */
  lemma DifferentIsObeyed(run: seq<Event>, m: Command)
    requires m.(header := Latest(run).header) != Latest(run)
    ensures var s, t, p, v := After(run), After(run + [Received(m)]), m.position, m.velocity;
            && Obeys(s.pitch, t.pitch, m.pitchType, p.pitch, v.pitch, v.pitchMin, v.pitchMax)
            && Obeys(s.yaw, t.yaw, m.yawType, p.yaw, v.yaw, v.yawMin, v.yawMax)
            && t.lastUpdate == s.lastUpdate
  {
    LastIsLatest(run);
    assert (run + [Received(m)])[..|run|] == run;
  }

  /** What the last command has made of an axis. */
  ghost predicate Follows(a: Axis, kind: nat, position: real, velocity: real, min: real, max: real) {
    && (kind == ABSOLUTE_ANGLE ==> a.position == position && a.ctrl.mode == Position)
    && (kind == VELOCITY ==>
        && a.ctrl.(velocity := velocity) == Control(Velocity, velocity, min, max, IsFullTurn(min, max))
        && a.ctrl.velocity in {velocity, -velocity})
  }

  ghost predicate PitchFollows(s: State) {
    var m := s.last;
    Follows(s.pitch, m.pitchType, m.position.pitch, m.velocity.pitch, m.velocity.pitchMin, m.velocity.pitchMax)
  }

  ghost predicate YawFollows(s: State) {
    var m := s.last;
    Follows(s.yaw, m.yawType, m.position.yaw, m.velocity.yaw, m.velocity.yawMin, m.velocity.yawMax)
  }

  /** Both axes always follow the last command, up to the direction of a sweep. */
  lemma {:induction false} CommandIsFollowed(run: seq<Event>)
    ensures PitchFollows(After(run)) && YawFollows(After(run))
  {
    if run != [] {
      CommandIsFollowed(run[..|run| - 1]);
    }
  }

  /** Obeying the latest command again would change the node exactly when a sweep has turned around. */
  lemma RepeatWouldTurn(run: seq<Event>)
    ensures var s, m := After(run), After(run).last;
            Obeyed(s, m) != s <==>
            || (m.pitchType == VELOCITY && s.pitch.ctrl.velocity != m.velocity.pitch)
            || (m.yawType == VELOCITY && s.yaw.ctrl.velocity != m.velocity.yaw)
  {
    CommandIsFollowed(run);
  }

  /** Wherever a run ends with a timer step, a sweeping axis is in its range. */
  lemma SweepsInRange(run: seq<Event>, now: int)
    requires After(run).lastUpdate != 0
    ensures var s := After(run + [Timer(now)]);
            Swept(s.pitch) && Swept(s.yaw)
  {
    var s := After(run);
    assert (run + [Timer(now)])[..|run|] == run;
    UpdatedSwept(s.pitch, Seconds(now - s.lastUpdate));
    UpdatedSwept(s.yaw, Seconds(now - s.lastUpdate));
  }

  predicate Swept(a: Axis) {
    a.ctrl.mode == Velocity ==>
      if a.ctrl.isContinuous then a.ctrl.min <= a.position < a.ctrl.max
      else InRange(a) <==> a.ctrl.min <= a.ctrl.max
  }

  lemma UpdatedSwept(a: Axis, delta: real)
    requires WellSet(a)
    ensures Swept(Updated(a, delta))
  {
    if a.ctrl.isContinuous {
      ContinuousStep(a, delta);
    } else {
      BoundedStep(a, delta);
    }
  }

  // ------------------------------------------------ sweeps of the node

  /** The clock reading of the last timer step. */
  function LastReading(run: seq<Event>): int {
    if run == [] then 0
    else if run[|run| - 1].Timer? then run[|run| - 1].now
    else LastReading(run[..|run| - 1])
  }

  /** The node always knows the last clock reading; a first one, or one after a reading of 0, moves nothing. */
  lemma {:induction false} KnowsLastReading(run: seq<Event>)
    ensures After(run).lastUpdate == LastReading(run)
    ensures run != [] && run[|run| - 1].Timer? && LastReading(run[..|run| - 1]) == 0 ==>
              After(run).pitch == After(run[..|run| - 1]).pitch && After(run).yaw == After(run[..|run| - 1]).yaw
  {
    if run != [] {
      KnowsLastReading(run[..|run| - 1]);
    }
  }

  function Timers(nows: seq<int>): (r: seq<Event>)
    ensures |r| == |nows|
  {
    if nows == [] then [] else [Timer(nows[0])] + Timers(nows[1..])
  }

  /** The spans, in seconds, between clock readings that follow `last`. */
  function Deltas(last: int, nows: seq<int>): (r: seq<real>)
    ensures |r| == |nows|
    decreases |nows|
  {
    if nows == [] then [] else [Seconds(nows[0] - last)] + Deltas(nows[0], nows[1..])
  }

  lemma {:induction false} DeltasPrefix(last: int, nows: seq<int>, i: nat)
    requires i <= |nows|
    ensures Deltas(last, nows[..i]) == Deltas(last, nows)[..i]
    decreases i
  {
    if i > 0 {
      var rest := Deltas(nows[0], nows[1..]);
      DeltasPrefix(nows[0], nows[1..], i - 1);
      assert nows[..i][1..] == nows[1..][..i - 1];
      assert ([Seconds(nows[0] - last)] + rest)[..i] == [Seconds(nows[0] - last)] + rest[..i - 1];
    }
  }

  function Elapsed(last: int, nows: seq<int>): int {
    if nows == [] then 0 else nows[|nows| - 1] - last
  }

  lemma {:induction false} DeltasAddUp(last: int, nows: seq<int>)
    ensures Sum(Deltas(last, nows)) == Seconds(Elapsed(last, nows))
    decreases |nows|
  {
    if nows != [] {
      var first, rest := nows[0], nows[1..];
      DeltasAddUp(first, rest);
    }
  }

  function AxisOf(s: State, yaw: bool): Axis {
    if yaw then s.yaw else s.pitch
  }

  /** The clock never reads 0, which the node takes for not having read it. */
  predicate AllRead(nows: seq<int>) {
    forall i | 0 <= i < |nows| :: nows[i] != 0
  }

  /** Timer steps alone. */
  function Ticked(s: State, nows: seq<int>): State
    requires Valid(s)
    decreases |nows|
  {
    if nows == [] then s else Ticked(Next(s, Timer(nows[0])), nows[1..])
  }

  lemma {:induction false} AfterTimers(run: seq<Event>, nows: seq<int>)
    ensures After(run + Timers(nows)) == Ticked(After(run), nows)
    decreases |nows|
  {
    if nows == [] {
      assert run + [] == run;
    } else {
      AfterTimers(run + [Timer(nows[0])], nows[1..]);
      assert run + [Timer(nows[0])] + Timers(nows[1..]) == run + ([Timer(nows[0])] + Timers(nows[1..]));
    }
  }

  lemma {:induction false} TickedSweeps(s: State, nows: seq<int>, yaw: bool)
    requires Valid(s) && s.lastUpdate != 0 && AllRead(nows)
    ensures var a := AxisOf(s, yaw);
            AxisOf(Ticked(s, nows), yaw) ==
            if a.ctrl.mode == Velocity then Sweep(a, Deltas(s.lastUpdate, nows)) else a
    decreases |nows|
  {
    if nows != [] {
      TickedSweeps(Timed(s, nows[0]), nows[1..], yaw);
    }
  }

  /** Through timer steps an axis in velocity mode sweeps, and another one stands still. */
  lemma TimersSweep(run: seq<Event>, nows: seq<int>, yaw: bool)
    requires After(run).lastUpdate != 0 && AllRead(nows)
    ensures var s, t := After(run), After(run + Timers(nows));
            AxisOf(t, yaw) ==
            if AxisOf(s, yaw).ctrl.mode == Velocity then Sweep(AxisOf(s, yaw), Deltas(s.lastUpdate, nows))
            else AxisOf(s, yaw)
  {
    AfterTimers(run, nows);
    TickedSweeps(After(run), nows, yaw);
  }

  lemma TimersPrefixSweep(run: seq<Event>, nows: seq<int>, yaw: bool, i: nat)
    requires After(run).lastUpdate != 0 && AllRead(nows) && i <= |nows| && AxisOf(After(run), yaw).ctrl.mode == Velocity
    ensures AxisOf(After(run + Timers(nows[..i])), yaw) ==
            Sweep(AxisOf(After(run), yaw), Deltas(After(run).lastUpdate, nows)[..i])
  {
    TimersSweep(run, nows[..i], yaw);
    DeltasPrefix(After(run).lastUpdate, nows, i);
  }

  lemma SumOfPrefix(last: int, nows: seq<int>, i: nat)
    requires 0 < i <= |nows|
    ensures Sum(Deltas(last, nows)[..i]) == Seconds(nows[i - 1] - last)
  {
    DeltasPrefix(last, nows, i);
    DeltasAddUp(last, nows[..i]);
  }

  /** At none of the clock readings the velocity has carried the axis beyond an end. */
  ghost predicate Unhindered(a: Axis, last: int, nows: seq<int>) {
    forall i | 0 <= i < |nows| :: a.ctrl.min <= Goal(a, Seconds(nows[i] - last)) <= a.ctrl.max
  }

  lemma SweepsStraight(a: Axis, last: int, nows: seq<int>)
    requires !a.ctrl.isContinuous && nows != [] && Unhindered(a, last, nows)
    ensures Sweep(a, Deltas(last, nows)) == Axis(Goal(a, Seconds(nows[|nows| - 1] - last)), a.ctrl)
  {
    var deltas := Deltas(last, nows);
    forall i | 0 < i <= |deltas| ensures a.ctrl.min <= Goal(a, Sum(deltas[..i])) <= a.ctrl.max {
      SumOfPrefix(last, nows, i);
    }
    SweepGoesStraight(a, deltas);
    DeltasAddUp(last, nows);
  }

  /** A bounded axis of the node goes at its velocity, without turning, as long as that carries it to no place beyond an
      end at any timer step. */
  lemma {:induction false} NodeSweepsStraight(run: seq<Event>, nows: seq<int>, yaw: bool)
    requires After(run).lastUpdate != 0 && AllRead(nows) && nows != []
    requires var a, last := AxisOf(After(run), yaw), After(run).lastUpdate;
             a.ctrl.mode == Velocity && !a.ctrl.isContinuous && Unhindered(a, last, nows)
    ensures var a, last := AxisOf(After(run), yaw), After(run).lastUpdate;
            AxisOf(After(run + Timers(nows)), yaw) == Axis(Goal(a, Seconds(nows[|nows| - 1] - last)), a.ctrl)
  {
    TimersSweep(run, nows, yaw);
    SweepsStraight(AxisOf(After(run), yaw), After(run).lastUpdate, nows);
  }

  /** Both ends of a bounded axis are reached in the node: from inside the range, within 2n + 1 timer steps, where n
      steps cover the range. */
  lemma NodeReachesBothEnds(run: seq<Event>, nows: seq<int>, yaw: bool, least: real, n: nat)
    returns (first: nat, second: nat)
    requires After(run).lastUpdate != 0 && AllRead(nows) && 2 * n < |nows|
    requires var a := AxisOf(After(run), yaw);
             && a.ctrl.mode == Velocity && !a.ctrl.isContinuous && InRange(a) && a.ctrl.velocity != 0.0
             && Carry(Abs(a.ctrl.velocity), Deltas(After(run).lastUpdate, nows), least)
             && Times(least, n as real) >= a.ctrl.max - a.ctrl.min
    ensures first <= n && first <= second <= 2 * n + 1 <= |nows|
    ensures var a := AxisOf(After(run), yaw);
            && AxisOf(After(run + Timers(nows[..first])), yaw).position == End(a, a.ctrl.velocity > 0.0)
            && AxisOf(After(run + Timers(nows[..second])), yaw).position == End(a, a.ctrl.velocity < 0.0)
  {
    first, second := BothEndsReached(AxisOf(After(run), yaw), Deltas(After(run).lastUpdate, nows), least, n);
    TimersPrefixSweep(run, nows, yaw, first);
    TimersPrefixSweep(run, nows, yaw, second);
  }

  /** A continuous axis `a` has become `b` in a time: turned by its velocity times that time, up to full ranges. */
  ghost predicate Turned(a: Axis, b: Axis, time: real) {
    && b.ctrl == a.ctrl && a.ctrl.min <= b.position < a.ctrl.max
    && Congruent(b.position, a.position + Times(a.ctrl.velocity, time), a.ctrl.max - a.ctrl.min)
  }

  lemma SweepTurns(a: Axis, deltas: seq<real>, b: Axis, time: real)
    requires WellSet(a) && a.ctrl.isContinuous && deltas != [] && b == Sweep(a, deltas) && time == Sum(deltas)
    ensures Turned(a, b, time)
  {
    TurnsAddUp(a, deltas);
  }

  /** A continuous axis of the node has turned by its velocity times the time that has passed. */
  lemma {:induction false} NodeTurnsByElapsedTime(run: seq<Event>, nows: seq<int>, yaw: bool)
    requires After(run).lastUpdate != 0 && AllRead(nows) && nows != []
    requires var a := AxisOf(After(run), yaw); a.ctrl.mode == Velocity && a.ctrl.isContinuous
    ensures Turned(AxisOf(After(run), yaw), AxisOf(After(run + Timers(nows)), yaw),
                   Seconds(nows[|nows| - 1] - After(run).lastUpdate))
  {
    var last := After(run).lastUpdate;
    TimersSweep(run, nows, yaw);
    DeltasAddUp(last, nows);
    var a, b, time := AxisOf(After(run), yaw), AxisOf(After(run + Timers(nows)), yaw), Seconds(Elapsed(last, nows));
    SweepTurns(a, Deltas(last, nows), b, time);
  }
}
