/** The controller loop of sp_vision_25/src/sentry_dual_sn_ros.cpp: arbitration between the front camera, which aims
    and fires, and the back camera, which can only hand a direction over. */
module DualCamera {

  const MS := 1_000_000  // nanoseconds
  const WAIT := 800 * MS
  const COOLDOWN := 2000 * MS

  datatype Command = Command(control: bool, shoot: bool, yaw: real, pitch: real)

  const NO_COMMAND := Command(false, false, 0.0, 0.0)

  datatype Point = Point(x: real, y: real, z: real)

  /** What one front frame publishes under the lock. */
  datatype Front = Front(locked: bool, cmd: Command, xyzValid: bool, camera: Point, gimbal: Point)

  /** What one back frame publishes under the lock. */
  datatype Back = Back(hasTarget: bool, cmd: Command)

  datatype Sent = Nothing | Send(shoot: bool, yaw: real, pitch: real)

  /** What an iteration does to the outside: the gimbal command, whether the target position is published, and whether
      it asks the front worker to clear (a handoff). */
  datatype Output = Output(sent: Sent, xyz: bool, handoff: bool)

  datatype Control = Control(
    waiting: bool, waitUntil: int, cooldownUntil: int, lastYaw: real, lastPitch: real, lastFrontDetected: bool,
    backYaw: real, backPitch: real)

  function Start(t0: int): Control {
    Control(false, t0, t0, 0.0, 0.0, false, 0.0, 0.0)
  }

  /** One iteration of the loop on a snapshot. */
  function Arbitrate(c: Control, now: int, f: Front, b: Back): (Control, Output) {
    if f.locked then
      (c.(waiting := false, cooldownUntil := now + COOLDOWN, lastYaw := f.cmd.yaw, lastPitch := f.cmd.pitch,
          lastFrontDetected := true),
       Output(Send(f.cmd.shoot, f.cmd.yaw, f.cmd.pitch), f.xyzValid, false))
    else if c.waiting && now < c.waitUntil then
      (c, Output(Send(false, c.backYaw, c.backPitch), false, false))
    else if now > c.cooldownUntil && b.hasTarget then
      (c.(backYaw := b.cmd.yaw, backPitch := b.cmd.pitch, waiting := true, waitUntil := now + WAIT,
          cooldownUntil := now + COOLDOWN, lastFrontDetected := false),
       Output(Send(false, b.cmd.yaw, b.cmd.pitch), false, true))
    else if c.lastFrontDetected then
      (c.(lastFrontDetected := false), Output(Send(false, c.lastYaw, c.lastPitch), false, false))
    else (c, Output(Nothing, false, false))
  }

  /** The loop's local variables. */
  class Controller {
    var waitingFrontLock: bool
    var waitUntil: int
    var cooldownUntil: int
    var lastYaw: real
    var lastPitch: real
    var lastFrontDetected: bool
    var backTargetYaw: real
    var backTargetPitch: real

    ghost function View(): Control
      reads this
    {
      Control(waitingFrontLock, waitUntil, cooldownUntil, lastYaw, lastPitch, lastFrontDetected,
              backTargetYaw, backTargetPitch)
    }

    constructor (now: int)
      ensures View() == Start(now)
    {
      waitingFrontLock, waitUntil, cooldownUntil := false, now, now;
      lastYaw, lastPitch, lastFrontDetected := 0.0, 0.0, false;
      backTargetYaw, backTargetPitch := 0.0, 0.0;
    }

    method Iterate(now: int, f: Front, b: Back) returns (out: Output)
      modifies this
      ensures (View(), out) == Arbitrate(old(View()), now, f, b)
    {
      out := Output(Nothing, false, false);
      if f.locked {
        waitingFrontLock := false;
        cooldownUntil := now + COOLDOWN;
        out := Output(Send(f.cmd.shoot, f.cmd.yaw, f.cmd.pitch), f.xyzValid, false);
        lastYaw := f.cmd.yaw;
        lastPitch := f.cmd.pitch;
        lastFrontDetected := true;
      } else {
        if waitingFrontLock && now < waitUntil {
          out := Output(Send(false, backTargetYaw, backTargetPitch), false, false);
        } else if now > cooldownUntil && b.hasTarget {
          backTargetYaw := b.cmd.yaw;
          backTargetPitch := b.cmd.pitch;
          out := Output(Send(false, backTargetYaw, backTargetPitch), false, true);
          waitingFrontLock := true;
          waitUntil := now + WAIT;
          cooldownUntil := now + COOLDOWN;
          lastFrontDetected := false;
        } else if lastFrontDetected {
          out := Output(Send(false, lastYaw, lastPitch), false, false);
          lastFrontDetected := false;
        }
      }
    }
  }

  // --------------------------------------------------------------- whole runs

  datatype Input = Input(now: int, front: Front, back: Back)

  /** One iteration as seen from outside. */
  datatype Turn = Turn(now: int, front: Front, back: Back, out: Output)

  /** The loop run on a sequence of snapshots: its final variables and all its turns. */
  function Run(t0: int, ins: seq<Input>): (r: (Control, seq<Turn>))
    ensures |r.1| == |ins|
    decreases |ins|
  {
    if ins == [] then (Start(t0), [])
    else
      var n := |ins| - 1;
      var (c, h) := Run(t0, ins[..n]);
      var (c', t) := Next(c, ins[n]);
      (c', h + [t])
  }

  function Next(c: Control, i: Input): (Control, Turn) {
    var (c', out) := Arbitrate(c, i.now, i.front, i.back);
    (c', Turn(i.now, i.front, i.back, out))
  }

  /** The clock starts at `t0` and never goes back. */
  predicate Clock(t0: int, ins: seq<Input>) {
    && (forall i | 0 <= i < |ins| :: t0 <= ins[i].now)
    && (forall i, j | 0 <= i < j < |ins| :: ins[i].now <= ins[j].now)
  }

  datatype Maybe = None | Some(turn: Turn)

  /** The last turn that starts the cool-down: a front-locked iteration or a handoff. */
  function LastEvent(h: seq<Turn>): Maybe {
    if h == [] then None
    else
      var t := h[|h| - 1];
      if t.front.locked || t.out.handoff then Some(t) else LastEvent(h[..|h| - 1])
  }

  /** The handoff that still waits for the front camera: none has locked since. */
  function Pending(h: seq<Turn>): Maybe {
    if h == [] then None
    else
      var t := h[|h| - 1];
      if t.front.locked then None else if t.out.handoff then Some(t) else Pending(h[..|h| - 1])
  }

  predicate JustUnlocked(h: seq<Turn>) {
    h != [] && h[|h| - 1].front.locked
  }

  function QuietSince(t0: int, h: seq<Turn>): int {
    match LastEvent(h)
    case None => t0
    case Some(t) => t.now + COOLDOWN
  }

  /** The controller's variables summarise the whole history. */
  predicate Summary(t0: int, h: seq<Turn>, c: Control) {
    && c.cooldownUntil == QuietSince(t0, h)
    && (match Pending(h)
        case None => !c.waiting
        case Some(t) =>
          c.waiting && c.waitUntil == t.now + WAIT && c.backYaw == t.back.cmd.yaw && c.backPitch == t.back.cmd.pitch)
    && (c.lastFrontDetected <==> JustUnlocked(h))
    && (JustUnlocked(h) ==>
          var t := h[|h| - 1]; c.lastYaw == t.front.cmd.yaw && c.lastPitch == t.front.cmd.pitch)
  }

  lemma {:induction false} PendingIsEvent(t0: int, h: seq<Turn>)
    ensures Pending(h).Some? ==> LastEvent(h) == Pending(h) && Pending(h).turn.out.handoff
  {
    if h != [] {
      PendingIsEvent(t0, h[..|h| - 1]);
    }
  }

  lemma NextSummary(t0: int, h: seq<Turn>, c: Control, i: Input)
    requires Summary(t0, h, c)
    ensures var (c', t) := Next(c, i); Summary(t0, h + [t], c')
  {
    var (c', t) := Next(c, i);
    assert (h + [t])[..|h|] == h;
    PendingIsEvent(t0, h);
  }

  lemma {:induction false} RunSummary(t0: int, ins: seq<Input>)
    ensures var (c, h) := Run(t0, ins); Summary(t0, h, c)
    decreases |ins|
  {
    if ins != [] {
      var n := |ins| - 1;
      RunSummary(t0, ins[..n]);
      var (c, h) := Run(t0, ins[..n]);
      NextSummary(t0, h, c, ins[n]);
    }
  }

  /** The same decision made from the history alone, without any controller variables. */
  function Decide(t0: int, h: seq<Turn>, i: Input): Output {
    if i.front.locked then
      Output(Send(i.front.cmd.shoot, i.front.cmd.yaw, i.front.cmd.pitch), i.front.xyzValid, false)
    else
      match Pending(h)
      case Some(t) =>
        if i.now < t.now + WAIT then Output(Send(false, t.back.cmd.yaw, t.back.cmd.pitch), false, false)
        else if i.now > t.now + COOLDOWN && i.back.hasTarget then
          Output(Send(false, i.back.cmd.yaw, i.back.cmd.pitch), false, true)
        else Output(Nothing, false, false)
      case None =>
        if i.now > QuietSince(t0, h) && i.back.hasTarget then
          Output(Send(false, i.back.cmd.yaw, i.back.cmd.pitch), false, true)
        else if JustUnlocked(h) then
          Output(Send(false, h[|h| - 1].front.cmd.yaw, h[|h| - 1].front.cmd.pitch), false, false)
        else Output(Nothing, false, false)
  }

  lemma DecideFromSummary(t0: int, h: seq<Turn>, c: Control, i: Input)
    requires Summary(t0, h, c)
    ensures Next(c, i).1 == Turn(i.now, i.front, i.back, Decide(t0, h, i))
  {
    PendingIsEvent(t0, h);
  }

  lemma {:induction false} RunPrefix(t0: int, ins: seq<Input>, j: nat)
    requires j <= |ins|
    ensures Run(t0, ins[..j]).1 == Run(t0, ins).1[..j]
    decreases |ins|
  {
    if j == |ins| {
      assert ins[..j] == ins;
    } else {
      var n := |ins| - 1;
      RunPrefix(t0, ins[..n], j);
      assert ins[..n][..j] == ins[..j];
    }
  }

  /** Every turn of every run is the history's decision. */
  lemma TurnOfRun(t0: int, ins: seq<Input>, j: nat)
    requires j < |ins|
    ensures var h := Run(t0, ins).1;
            h[j] == Turn(ins[j].now, ins[j].front, ins[j].back, Decide(t0, h[..j], ins[j]))
  {
    RunPrefix(t0, ins, j);
    RunPrefix(t0, ins, j + 1);
    RunSummary(t0, ins[..j]);
    var (c, before) := Run(t0, ins[..j]);
    DecideFromSummary(t0, before, c, ins[j]);
    var upto := ins[..j + 1];
    assert upto[..j] == ins[..j] && upto[j] == ins[j];
    assert Run(t0, upto).1 == before + [Next(c, ins[j]).1];
    assert Run(t0, ins).1[j] == Run(t0, ins).1[..j + 1][j];
  }

  // ------------------------------------------------- what holds of every run

  lemma EventsBefore(t0: int, h: seq<Turn>, now: int)
    requires forall i, j | 0 <= i < j < |h| :: h[i].now <= h[j].now
    requires forall i | 0 <= i < |h| :: t0 <= h[i].now <= now
    ensures now > QuietSince(t0, h) <==>
            now > t0 && forall i | 0 <= i < |h| && (h[i].front.locked || h[i].out.handoff) :: now > h[i].now + COOLDOWN
  {
    if h != [] {
      var n := |h| - 1;
      if !(h[n].front.locked || h[n].out.handoff) {
        EventsBefore(t0, h[..n], now);
        forall i | 0 <= i < |h| && (h[i].front.locked || h[i].out.handoff) ensures h[..n][i] == h[i] {
        }
      } else {
        assert forall i | 0 <= i < |h| :: h[i].now <= h[n].now;
      }
    }
  }

  lemma TimesOfRun(t0: int, ins: seq<Input>, j: nat)
    requires Clock(t0, ins) && j < |ins|
    ensures var h := Run(t0, ins).1; h[j].now == ins[j].now && h[j].front == ins[j].front && h[j].back == ins[j].back
  {
    TurnOfRun(t0, ins, j);
  }

  /** A handoff happens exactly when the front camera is not locked, the back camera has a target, and more than
      2000 ms have passed since every earlier front-locked iteration and every earlier handoff (and some time since
      the start). */
  lemma HandoffIff(t0: int, ins: seq<Input>, j: nat)
    requires Clock(t0, ins) && j < |ins|
    ensures var h := Run(t0, ins).1;
            h[j].out.handoff <==>
            !h[j].front.locked && h[j].back.hasTarget && h[j].now > t0 &&
            forall i | 0 <= i < j && (h[i].front.locked || h[i].out.handoff) :: h[j].now > h[i].now + 2_000_000_000
  {
    var h := Run(t0, ins).1;
    TurnOfRun(t0, ins, j);
    forall i | 0 <= i < |ins| {
      TimesOfRun(t0, ins, i);
    }
    EventsBefore(t0, h[..j], h[j].now);
    PendingIsEvent(t0, h[..j]);
  }

  lemma PendingAfterHandoff(h: seq<Turn>, i: nat)
    requires i < |h| && h[i].out.handoff && !h[i].front.locked
    requires forall k | i < k < |h| :: !h[k].front.locked && !h[k].out.handoff
    ensures Pending(h) == Some(h[i])
  {
    var n := |h| - 1;
    if i < n {
      PendingAfterHandoff(h[..n], i);
    }
  }

  lemma NoHandoffSoonAfter(t0: int, ins: seq<Input>, i: nat, j: nat)
    requires Clock(t0, ins) && i < j < |ins|
    requires var h := Run(t0, ins).1; h[i].out.handoff && h[j].now <= h[i].now + COOLDOWN
    ensures !Run(t0, ins).1[j].out.handoff
  {
    HandoffIff(t0, ins, j);
  }

  /** After a handoff, until the front camera locks: every iteration in the first 800 ms repeats the handed-over
      direction without firing, and every later one up to 2000 ms sends nothing; none hands over again. */
  lemma AfterHandoff(t0: int, ins: seq<Input>, i: nat, j: nat)
    requires Clock(t0, ins) && i < j < |ins|
    requires var h := Run(t0, ins).1;
             h[i].out.handoff && h[j].now <= h[i].now + 2_000_000_000 && forall k | i < k <= j :: !h[k].front.locked
    ensures var h := Run(t0, ins).1;
            h[j].out == Output(
              if h[j].now < h[i].now + 800_000_000 then Send(false, h[i].back.cmd.yaw, h[i].back.cmd.pitch) else Nothing,
              false, false)
  {
    var h := Run(t0, ins).1;
    forall k | 0 <= k < |ins| {
      TimesOfRun(t0, ins, k);
    }
    forall k | i < k < j ensures !h[k].out.handoff {
      NoHandoffSoonAfter(t0, ins, i, k);
    }
    HandoffIff(t0, ins, i);
    PendingAfterHandoff(h[..j], i);
    TurnOfRun(t0, ins, j);
  }

  /** The direction handed over is sent at once, without firing. */
  lemma HandoffSends(t0: int, ins: seq<Input>, i: nat)
    requires i < |ins| && Run(t0, ins).1[i].out.handoff
    ensures var t := Run(t0, ins).1[i]; t.out.sent == Send(false, t.back.cmd.yaw, t.back.cmd.pitch)
  {
    TurnOfRun(t0, ins, i);
  }

  /** While the front camera is locked its own command is sent, and its position published if it has a valid one. */
  lemma LockedSends(t0: int, ins: seq<Input>, j: nat)
    requires j < |ins|
    ensures var t := Run(t0, ins).1[j];
            && (t.front.locked ==> t.out.sent == Send(t.front.cmd.shoot, t.front.cmd.yaw, t.front.cmd.pitch))
            && (t.out.xyz <==> t.front.locked && t.front.xyzValid)
  {
    TurnOfRun(t0, ins, j);
  }

  lemma {:induction false} PendingAt(h: seq<Turn>) returns (i: nat)
    requires Pending(h).Some?
    ensures i < |h| && h[i] == Pending(h).turn && h[i].out.handoff
    ensures forall k | i < k < |h| :: !h[k].front.locked && !h[k].out.handoff
    decreases |h|
  {
    i := |h| - 1;
    if !h[i].out.handoff {
      i := PendingAt(h[..i]);
    }
  }

  lemma {:induction false} HandoffPends(h: seq<Turn>, i: nat)
    requires i < |h| && h[i].out.handoff && forall k | i <= k < |h| :: !h[k].front.locked
    ensures Pending(h).Some?
    decreases |h|
  {
    var n := |h| - 1;
    if i < n {
      HandoffPends(h[..n], i);
    }
  }

  /** Turn `i` handed over, and the front camera has not locked from there until turn `j`. */
  ghost predicate Awaits(h: seq<Turn>, i: nat, j: nat)
    requires i < j < |h|
  {
    h[i].out.handoff && forall k | i <= k < j :: !h[k].front.locked
  }

  /** Nothing is sent exactly if the front camera is not locked and was not in the iteration before, nothing is handed
      over, and every handoff that still awaits the front camera is at least 800 ms old. */
  lemma SendsNothingIff(t0: int, ins: seq<Input>, j: nat)
    requires Clock(t0, ins) && j < |ins|
    ensures var h := Run(t0, ins).1;
            h[j].out.sent == Nothing <==>
            && !h[j].front.locked && !(j > 0 && h[j - 1].front.locked) && !h[j].out.handoff
            && forall i | 0 <= i < j && Awaits(h, i, j) :: h[j].now >= h[i].now + 800_000_000
  {
    var h := Run(t0, ins).1;
    TurnOfRun(t0, ins, j);
    if Pending(h[..j]).Some? {
      var i := PendingAt(h[..j]);
      HandoffsUnlocked(t0, ins, i);
      LastPends(t0, ins, i, j);
    } else {
      forall i | 0 <= i < j ensures !Awaits(h, i, j) {
        if Awaits(h, i, j) {
          HandoffPends(h[..j], i);
        }
      }
      assert j > 0 ==> h[..j][j - 1] == h[j - 1];
    }
  }

  lemma HandoffsUnlocked(t0: int, ins: seq<Input>, i: nat)
    requires i < |ins|
    ensures Run(t0, ins).1[i].out.handoff ==> !Run(t0, ins).1[i].front.locked
  {
    TurnOfRun(t0, ins, i);
  }

  /** The latest handoff that awaits the front camera decides for all of them. */
  lemma LastPends(t0: int, ins: seq<Input>, i: nat, j: nat)
    requires Clock(t0, ins) && i < j < |ins|
    requires var h := Run(t0, ins).1;
             !h[i].front.locked && h[i].out.handoff && forall k | i < k < j :: !h[k].front.locked && !h[k].out.handoff
    ensures var h := Run(t0, ins).1;
            (forall k | 0 <= k < j && Awaits(h, k, j) :: h[j].now >= h[k].now + 800_000_000) <==>
            h[j].now >= h[i].now + 800_000_000
  {
    var h := Run(t0, ins).1;
    assert Awaits(h, i, j);
    forall k | 0 <= k < j && Awaits(h, k, j) ensures h[k].now <= h[i].now {
      TimesOfRun(t0, ins, k);
      TimesOfRun(t0, ins, i);
    }
  }

  /** A command that is neither the front camera's own, nor a handoff, nor its repetition. */
  predicate IsHold(h: seq<Turn>, j: nat)
    requires j < |h|
  {
    h[j].out.sent.Send? && !h[j].front.locked && !h[j].out.handoff && Pending(h[..j]).None?
  }

  /** A hold command is sent exactly in the first iteration after the front camera unlocks, unless that iteration
      hands over; it repeats the last front direction without firing. */
  lemma HoldIff(t0: int, ins: seq<Input>, j: nat)
    requires j < |ins|
    ensures var h := Run(t0, ins).1;
            (IsHold(h, j) <==> j > 0 && h[j - 1].front.locked && !h[j].front.locked && !h[j].out.handoff) &&
            (IsHold(h, j) ==> h[j].out.sent == Send(false, h[j - 1].front.cmd.yaw, h[j - 1].front.cmd.pitch))
  {
    TurnOfRun(t0, ins, j);
    var h := Run(t0, ins).1;
    if j > 0 {
      assert h[..j][j - 1] == h[j - 1];
    }
  }

  /** Each front-lock episode is followed by at most one hold: between two holds the front camera has locked again. */
  lemma OneHoldPerEpisode(t0: int, ins: seq<Input>, i: nat, j: nat)
    requires i < j < |ins| && IsHold(Run(t0, ins).1, i) && IsHold(Run(t0, ins).1, j)
    ensures exists k :: i < k < j && Run(t0, ins).1[k].front.locked
  {
    HoldIff(t0, ins, i);
    HoldIff(t0, ins, j);
    assert Run(t0, ins).1[j - 1].front.locked;
  }
}
