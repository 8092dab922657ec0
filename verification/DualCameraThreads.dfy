/** The three threads of sp_vision_25/src/sentry_dual_sn_ros.cpp around the mutex-protected results and the atomic clear
    request: front worker, back worker and controller, interleaving freely between their accesses to shared data. */
module DualCameraThreads {
  import opened DualCamera

  const DROP_FRAMES := 3

  const ORIGIN := Point(0.0, 0.0, 0.0)
  const NOTHING_SEEN := Front(false, NO_COMMAND, false, ORIGIN, ORIGIN)

  /** The front worker is between frames, or has a result it has not published yet. */
  datatype FrontPc = Between | Ready(result: Front)

  /** The controller is between iterations, or holds the snapshot it took at `now`. */
  datatype ControllerPc = Idle | Holding(now: int, front: Front, back: Back)

  datatype System = System(
    front: Front, back: Back, clear: bool,
    worker: FrontPc, dropFrames: nat, trackerLost: bool,
    controller: ControllerPc, control: Control)

  /** What the detector, the armor filter, the tracker and the aimer make of a frame: armors detected, armors left
      after the filter, armors left after tracking, whether the tracker is lost afterwards, and the results. */
  datatype Vision = Vision(
    detected: nat, filtered: nat, left: nat, lost: bool, cmd: Command, camera: Point, gimbal: Point)

  datatype Action =
    | FrontFrame(v: Vision)
    | FrontPublish
    | BackPublish(detected: nat, cmd: Command)
    | Snapshot(now: int)
    | Act

  /** Frames still to be blanked when the next frame is processed. */
  function Blanking(s: System): nat {
    if s.clear then DROP_FRAMES else s.dropFrames
  }

  function Armors(s: System, v: Vision): nat {
    if Blanking(s) > 0 then 0 else v.detected
  }

  /** Filters and the tracker only remove armors, and a tracker that is lost (a new one is) and sees no armor stays
      lost. */
  predicate Plausible(s: System, v: Vision) {
    && v.left <= v.filtered <= Armors(s, v)
    && ((s.clear || s.trackerLost) && v.left == 0 ==> v.lost)
  }

  predicate Enabled(s: System, a: Action) {
    match a
    case FrontFrame(v) => s.worker == Between && Plausible(s, v)
    case FrontPublish => s.worker.Ready?
    case BackPublish(_, _) => true
    case Snapshot(_) => s.controller == Idle
    case Act => s.controller.Holding?
  }

  /** The result of a front frame. */
  function Seen(v: Vision): Front {
    if v.lost then NOTHING_SEEN
    else if v.left > 0 then Front(true, v.cmd, true, v.camera, v.gimbal)
    else Front(true, v.cmd, false, ORIGIN, ORIGIN)
  }

  /** The result of a back frame; `cmd` is what the decider makes of the armors detected. */
  function SeenBehind(detected: nat, cmd: Command): Back {
    if detected == 0 then Back(false, NO_COMMAND) else Back(cmd.control, cmd)
  }

  function Step(s: System, a: Action): System
    requires Enabled(s, a)
  {
    match a
    case FrontFrame(v) =>
      var n := Blanking(s);
      s.(clear := false, dropFrames := if n > 0 then n - 1 else 0, trackerLost := v.lost, worker := Ready(Seen(v)))
    case FrontPublish => s.(front := s.worker.result, worker := Between)
    case BackPublish(detected, cmd) => s.(back := SeenBehind(detected, cmd))
    case Snapshot(now) => s.(controller := Holding(now, s.front, s.back))
    case Act =>
      var (c, out) := Arbitrate(s.control, s.controller.now, s.controller.front, s.controller.back);
      s.(control := c, controller := Idle, clear := s.clear || out.handoff)
  }

  /** What the controller does to the outside in a step. */
  function Acted(s: System, a: Action): Output
    requires Enabled(s, a)
  {
    if a == Act then Arbitrate(s.control, s.controller.now, s.controller.front, s.controller.back).1
    else Output(Nothing, false, false)
  }

  predicate Possible(s: System, run: seq<Action>)
    decreases |run|
  {
    run == [] || (Enabled(s, run[0]) && Possible(Step(s, run[0]), run[1..]))
  }

  /** The front results published in a run, in order. */
  function Published(s: System, run: seq<Action>): seq<Front>
    requires Possible(s, run)
    decreases |run|
  {
    if run == [] then []
    else (if run[0] == FrontPublish then [s.worker.result] else []) + Published(Step(s, run[0]), run[1..])
  }

  function After(s: System, run: seq<Action>): System
    requires Possible(s, run)
    decreases |run|
  {
    if run == [] then s else After(Step(s, run[0]), run[1..])
  }

  predicate Initial(s: System) {
    && s.front == NOTHING_SEEN && s.back == Back(false, NO_COMMAND) && !s.clear
    && s.worker == Between && s.dropFrames == 0 && s.trackerLost
    && s.controller == Idle
  }

  // --------------------------------------------------- firing needs a front frame

  /** `f` is the initial value or has been published by one front frame. */
  predicate Known(f: Front, published: seq<Front>) {
    f == NOTHING_SEEN || f in published
  }

  predicate Provenance(s: System, published: seq<Front>) {
    Known(s.front, published) && (s.controller.Holding? ==> Known(s.controller.front, published))
  }

  lemma {:induction false} RunProvenance(s: System, run: seq<Action>, published: seq<Front>)
    requires Possible(s, run) && Provenance(s, published)
    ensures Provenance(After(s, run), published + Published(s, run))
    decreases |run|
  {
    if run == [] {
      assert published + Published(s, run) == published;
    } else {
      var more := if run[0] == FrontPublish then [s.worker.result] else [];
      RunProvenance(Step(s, run[0]), run[1..], published + more);
      assert published + more + Published(Step(s, run[0]), run[1..]) == published + Published(s, run);
    }
  }

  /** In every interleaving: a command to fire carries the yaw, pitch and fire flag that one front frame published
      together with being locked. */
  lemma FireOnlyFromOneFrontFrame(s: System, run: seq<Action>)
    requires Initial(s) && Possible(s, run) && Enabled(After(s, run), Act)
    requires var out := Acted(After(s, run), Act); out.sent.Send? && out.sent.shoot
    ensures var out := Acted(After(s, run), Act);
            exists f :: f in Published(s, run) && f.locked && out.sent == Send(f.cmd.shoot, f.cmd.yaw, f.cmd.pitch)
  {
    RunProvenance(s, run, []);
    assert [] + Published(s, run) == Published(s, run);
    var f := After(s, run).controller.front;
    assert f.locked && f in Published(s, run);
  }

  // --------------------------------------------------------- the clear handshake

  /** The next `k` frames the worker takes up will be blank. */
  predicate BlankAhead(s: System, k: nat) {
    k <= DROP_FRAMES && (s.clear || (s.trackerLost && s.dropFrames >= k))
  }

  /** The results published from here on are blank from position `from` up to, but not including, position `to`. */
  predicate Quarantine(s: System, from: nat, to: nat) {
    match s.worker
    case Between => from <= to && from == 0 && BlankAhead(s, to)
    case Ready(result) =>
      from <= 1 && from <= to && (from == 0 && to > 0 ==> result == NOTHING_SEEN) && BlankAhead(s, if to > 0 then to - 1 else 0)
  }

  lemma {:induction false} QuarantineHolds(s: System, run: seq<Action>, from: nat, to: nat, k: nat)
    requires Possible(s, run) && Quarantine(s, from, to)
    requires from <= k < to && k < |Published(s, run)|
    ensures Published(s, run)[k] == NOTHING_SEEN
    decreases |run|
  {
    var a, t := run[0], Step(s, run[0]);
    if a == FrontPublish {
      if k > 0 {
        QuarantineHolds(t, run[1..], 0, to - 1, k - 1);
      }
    } else {
      QuarantineHolds(t, run[1..], from, to, k);
    }
  }

  /** How many results published after a handoff can be real ones. */
  function Stale(s: System): nat {
    if s.worker == Between then 0 else 1
  }

  /** After a handoff, in every interleaving: at most one more result can be a real one, of a frame the front worker
      had already taken up; the three results after it (or the first three, if the worker was between frames) are
      blank: not locked, no valid position, no command. */
  lemma HandoffClearsFront(s: System, run: seq<Action>, k: nat)
    requires s.controller.Holding? && Acted(s, Act).handoff
    requires var t := Step(s, Act); Possible(t, run) && k < |Published(t, run)|
    requires Stale(s) <= k < Stale(s) + DROP_FRAMES
    ensures Published(Step(s, Act), run)[k] == NOTHING_SEEN
  {
    assert Quarantine(Step(s, Act), Stale(s), Stale(s) + DROP_FRAMES);
    QuarantineHolds(Step(s, Act), run, Stale(s), Stale(s) + DROP_FRAMES, k);
  }

  /** While the last published result is one of those three, the shared front result reads unlocked and without a
      position, so no snapshot taken then can make the controller fire or lock. */
  lemma SnapshotInQuarantine(s: System, run: seq<Action>)
    requires s.controller.Holding? && Acted(s, Act).handoff
    requires Possible(Step(s, Act), run)
    requires Stale(s) < |Published(Step(s, Act), run)| <= Stale(s) + DROP_FRAMES
    ensures !After(Step(s, Act), run).front.locked && !After(Step(s, Act), run).front.xyzValid
  {
    var t, n := Step(s, Act), |Published(Step(s, Act), run)|;
    HandoffClearsFront(s, run, n - 1);
    FrontIsLastPublished(t, run);
  }

  lemma {:induction false} FrontIsLastPublished(s: System, run: seq<Action>)
    requires Possible(s, run)
    ensures var p := Published(s, run); After(s, run).front == if p == [] then s.front else p[|p| - 1]
    decreases |run|
  {
    if run != [] {
      FrontIsLastPublished(Step(s, run[0]), run[1..]);
    }
  }

  // ---------------------------------------------------- what the workers report

  /** The frames the front worker has taken up, in order. */
  function Frames(run: seq<Action>): seq<Vision> {
    if run == [] then [] else (if run[0].FrontFrame? then [run[0].v] else []) + Frames(run[1..])
  }

  function SeenAll(frames: seq<Vision>): seq<Front> {
    if frames == [] then [] else [Seen(frames[0])] + SeenAll(frames[1..])
  }

  lemma {:induction false} SeenAt(frames: seq<Vision>, k: nat)
    ensures |SeenAll(frames)| == |frames| && (k < |frames| ==> SeenAll(frames)[k] == Seen(frames[k]))
    decreases |frames|
  {
    if frames != [] {
      SeenAt(frames[1..], if k > 0 then k - 1 else 0);
    }
  }

  /** The result the front worker has ready. */
  function Unpublished(s: System): seq<Front> {
    if s.worker.Ready? then [s.worker.result] else []
  }

  /** The result a step publishes, and the one of the frame it takes up. */
  function Out(s: System, a: Action): seq<Front>
    requires Enabled(s, a)
  {
    if a == FrontPublish then [s.worker.result] else []
  }

  function In(a: Action): seq<Front> {
    if a.FrontFrame? then [Seen(a.v)] else []
  }

  lemma StepPasses(s: System, a: Action)
    requires Enabled(s, a)
    ensures Out(s, a) + Unpublished(Step(s, a)) == Unpublished(s) + In(a)
  {
  }

  lemma FramesStep(run: seq<Action>)
    requires run != []
    ensures SeenAll(Frames(run)) == In(run[0]) + SeenAll(Frames(run[1..]))
  {
    var rest := Frames(run[1..]);
    if run[0].FrontFrame? {
      assert ([run[0].v] + rest)[1..] == rest;
    } else {
      assert [] + rest == rest && [] + SeenAll(rest) == SeenAll(rest);
    }
  }

  lemma Passes<T>(out: seq<T>, before: seq<T>, after: seq<T>, more: seq<T>, p: seq<T>, u: seq<T>, seen: seq<T>)
    requires out + after == before + more && p + u == after + seen
    ensures out + p + u == before + (more + seen)
  {
    assert out + p + u == out + (p + u) == (out + after) + seen;
    assert (before + more) + seen == before + (more + seen);
  }

  /** What has been published and what is ready are the results of the frames taken up, in order. */
  lemma {:induction false} PublishedAreSeen(s: System, run: seq<Action>)
    requires Possible(s, run)
    ensures Published(s, run) + Unpublished(After(s, run)) == Unpublished(s) + SeenAll(Frames(run))
    decreases |run|
  {
    if run == [] {
      assert [] + Unpublished(s) == Unpublished(s) + [];
    } else {
      var t, rest := Step(s, run[0]), run[1..];
      PublishedAreSeen(t, rest);
      StepPasses(s, run[0]);
      FramesStep(run);
      Passes(Out(s, run[0]), Unpublished(s), Unpublished(t), In(run[0]),
             Published(t, rest), Unpublished(After(s, run)), SeenAll(Frames(rest)));
    }
  }

  /** A result reports a frame: locked unless the tracker is lost, and then with the aimer's command; with the position of
      the best armor if there is one besides. */
  ghost predicate Reports(f: Front, v: Vision) {
    && (f.locked <==> !v.lost)
    && f.cmd == (if v.lost then Command(false, false, 0.0, 0.0) else v.cmd)
    && (f.xyzValid <==> !v.lost && v.left > 0)
    && f.camera == (if f.xyzValid then v.camera else Point(0.0, 0.0, 0.0))
    && f.gimbal == (if f.xyzValid then v.gimbal else Point(0.0, 0.0, 0.0))
  }

  lemma SeenReports(v: Vision)
    ensures Reports(Seen(v), v)
  {
  }

  lemma PublishedIsSeen(s: System, run: seq<Action>, k: nat)
    requires Possible(s, run) && Unpublished(s) == [] && k < |Published(s, run)|
    ensures |Frames(run)| == |Published(s, run)| + |Unpublished(After(s, run))|
    ensures Published(s, run)[k] == Seen(Frames(run)[k])
  {
    var p, u := Published(s, run), Unpublished(After(s, run));
    PublishedAreSeen(s, run);
    assert p + u == [] + SeenAll(Frames(run)) == SeenAll(Frames(run));
    SeenAt(Frames(run), k);
    assert (p + u)[k] == p[k];
  }

  /** In every interleaving the front results are published one for each frame, in order, and the shared one reports the
      last frame whose result is out. */
  lemma FrontReportsFrames(s: System, run: seq<Action>, k: nat)
    requires Initial(s) && Possible(s, run) && k < |Published(s, run)|
    ensures |Frames(run)| == |Published(s, run)| + if After(s, run).worker.Ready? then 1 else 0
    ensures Reports(Published(s, run)[k], Frames(run)[k])
    ensures Reports(After(s, run).front, Frames(run)[|Published(s, run)| - 1])
  {
    var last := |Published(s, run)| - 1;
    PublishedIsSeen(s, run, k);
    PublishedIsSeen(s, run, last);
    SeenReports(Frames(run)[k]);
    SeenReports(Frames(run)[last]);
    FrontIsLastPublished(s, run);
  }

  /** A frame with an armor in it and the tracker not lost is possible at the start, and shows in the shared result. */
  lemma LockIsReported(s: System, v: Vision)
    requires Initial(s) && 0 < v.left <= v.filtered <= v.detected && !v.lost
    ensures var run := [FrontFrame(v), FrontPublish];
            && Possible(s, run) && After(s, run).front == Front(true, v.cmd, true, v.camera, v.gimbal)
  {
    var run := [FrontFrame(v), FrontPublish];
    var t, rest := Step(s, run[0]), run[1..];
    assert rest == [FrontPublish] && rest[1..] == [];
    assert Possible(Step(t, rest[0]), rest[1..]) && Possible(t, rest);
    assert After(t, rest) == Step(t, rest[0]);
  }

  /** The last result the back worker has published. */
  function LastBehind(run: seq<Action>): seq<Action> {
    if run == [] then []
    else if LastBehind(run[1..]) != [] then LastBehind(run[1..])
    else if run[0].BackPublish? then [run[0]]
    else []
  }

  lemma {:induction false} BackIsLast(s: System, run: seq<Action>)
    requires Possible(s, run)
    ensures |LastBehind(run)| <= 1 && forall a | a in LastBehind(run) :: a.BackPublish? && a in run
    ensures var l := LastBehind(run);
            After(s, run).back == if l == [] then s.back else SeenBehind(l[0].detected, l[0].cmd)
    decreases |run|
  {
    if run != [] {
      BackIsLast(Step(s, run[0]), run[1..]);
    }
  }

  /** In every interleaving the shared back result is that of the last back frame: a target exactly if armors were
      detected and the decider takes control, with the decider's command. */
  lemma BackReportsLastFrame(s: System, run: seq<Action>)
    requires Initial(s) && Possible(s, run)
    ensures |LastBehind(run)| <= 1 && forall a | a in LastBehind(run) :: a.BackPublish? && a in run
    ensures var l, b := LastBehind(run), After(s, run).back;
            if l == [] || l[0].detected == 0 then !b.hasTarget && b.cmd == Command(false, false, 0.0, 0.0)
            else b.hasTarget == l[0].cmd.control && b.cmd == l[0].cmd
  {
    BackIsLast(s, run);
  }

  /** No thread ever waits for another: in every state the front worker can take up a frame or publish its result, the
      back worker can publish and the controller can take a snapshot or act on the one it has. */
  lemma NobodyWaits(s: System, detected: nat, cmd: Command, now: int)
    ensures Enabled(s, FrontPublish) || exists v: Vision :: Enabled(s, FrontFrame(v))
    ensures Enabled(s, BackPublish(detected, cmd))
    ensures Enabled(s, Snapshot(now)) || Enabled(s, Act)
  {
    if s.worker == Between {
      assert Enabled(s, FrontFrame(Vision(0, 0, 0, true, cmd, ORIGIN, ORIGIN)));
    }
  }

  // ------------------------------------------------------ runs step by step

  lemma {:induction false} RunSplit(s: System, run: seq<Action>, m: nat)
    requires Possible(s, run) && m <= |run|
    ensures Possible(s, run[..m]) && Possible(After(s, run[..m]), run[m..])
    ensures After(After(s, run[..m]), run[m..]) == After(s, run)
    decreases m
  {
    if m > 0 {
      RunSplit(Step(s, run[0]), run[1..], m - 1);
      assert run[..m][1..] == run[1..][..m - 1] && run[m..] == run[1..][m - 1..];
    } else {
      assert run[0..] == run;
    }
  }

  lemma LastStep(s: System, run: seq<Action>)
    requires Possible(s, run) && run != []
    ensures var n := |run| - 1;
            Possible(s, run[..n]) && Enabled(After(s, run[..n]), run[n]) &&
            After(s, run) == Step(After(s, run[..n]), run[n])
  {
    var n := |run| - 1;
    RunSplit(s, run, n);
    assert run[n..] == [run[n]] && run[n..][1..] == [];
  }

  /** Position `m` of the run is the snapshot the controller holds. */
  ghost predicate IsSnapshot(s: System, run: seq<Action>, m: nat, held: ControllerPc)
    requires held.Holding?
  {
    && m < |run| && run[m] == Snapshot(held.now) && (forall k | m < k < |run| :: !run[k].Snapshot? && run[k] != Act)
    && Possible(s, run[..m])
    && held.front == After(s, run[..m]).front && held.back == After(s, run[..m]).back
  }

  /** What the controller acts on is what both workers had published, together, when it took its snapshot. */
  lemma {:induction false} SnapshotIsShared(s: System, run: seq<Action>) returns (m: nat)
    requires Initial(s) && Possible(s, run) && After(s, run).controller.Holding?
    ensures IsSnapshot(s, run, m, After(s, run).controller)
    decreases |run|
  {
    var n := |run| - 1;
    LastStep(s, run);
    if run[n].Snapshot? {
      m := n;
    } else {
      m := SnapshotIsShared(s, run[..n]);
      assert run[..n][..m] == run[..m];
    }
  }

  /** How many frames the front worker has taken up since the last handoff, if there was one. */
  function FramesSince(s: System, run: seq<Action>): (k: int)
    requires Possible(s, run)
    ensures k >= -1
    decreases |run|
  {
    if run == [] then -1
    else
      LastStep(s, run);
      var n := |run| - 1;
      if Acted(After(s, run[..n]), run[n]).handoff then 0
      else
        var k := FramesSince(s, run[..n]);
        if k >= 0 && run[n].FrontFrame? then k + 1 else k
  }

  lemma {:induction false} BlankingIs(s: System, run: seq<Action>)
    requires Initial(s) && Possible(s, run)
    ensures Blanking(After(s, run)) == if 0 <= FramesSince(s, run) < 3 then 3 - FramesSince(s, run) else 0
    ensures After(s, run).clear ==> FramesSince(s, run) == 0
    decreases |run|
  {
    if run != [] {
      LastStep(s, run);
      BlankingIs(s, run[..|run| - 1]);
    }
  }

  /** In every interleaving exactly the three frames taken up after a handoff are blanked: on every other one the tracker
      sees what the detector has found. */
  lemma ThreeFramesAreBlanked(s: System, run: seq<Action>, v: Vision)
    requires Initial(s) && Possible(s, run)
    ensures Armors(After(s, run), v) == if 0 <= FramesSince(s, run) < 3 then 0 else v.detected
  {
    BlankingIs(s, run);
  }

  // ------------------------------------------------- the controller in the system

  /** The snapshots the controller acts on in a run, in order. */
  function Acts(s: System, run: seq<Action>): seq<Input>
    requires Possible(s, run)
    decreases |run|
  {
    if run == [] then []
    else
      (if run[0] == Act then [Input(s.controller.now, s.controller.front, s.controller.back)] else []) +
      Acts(Step(s, run[0]), run[1..])
  }

  /** Its iterations as seen from outside. */
  function Turns(s: System, run: seq<Action>): seq<Turn>
    requires Possible(s, run)
    decreases |run|
  {
    if run == [] then []
    else
      (if run[0] == Act then [Turn(s.controller.now, s.controller.front, s.controller.back, Acted(s, Act))] else []) +
      Turns(Step(s, run[0]), run[1..])
  }

  /** `acts` and `turns` continue a run of the loop on `ins` to the final variables `c`. */
  predicate Continues(t0: int, ins: seq<Input>, acts: seq<Input>, turns: seq<Turn>, c: Control) {
    Run(t0, ins + acts) == (c, Run(t0, ins).1 + turns)
  }

  lemma {:induction false} ContinuesBefore(
    t0: int, ins: seq<Input>, i: Input, acts: seq<Input>, turns: seq<Turn>, c: Control)
    requires Continues(t0, ins + [i], acts, turns, c)
    ensures Continues(t0, ins, [i] + acts, [Next(Run(t0, ins).0, i).1] + turns, c)
  {
    var h, turn := Run(t0, ins).1, Next(Run(t0, ins).0, i).1;
    assert ins + [i] + acts == ins + ([i] + acts);
    assert h + [turn] + turns == h + ([turn] + turns);
  }

  lemma {:induction false} GoesOnAsRun(s: System, run: seq<Action>, t0: int, ins: seq<Input>)
    requires Possible(s, run) && s.control == Run(t0, ins).0
    ensures Continues(t0, ins, Acts(s, run), Turns(s, run), After(s, run).control)
    decreases |run|
  {
    if run == [] {
      assert ins + [] == ins && Run(t0, ins).1 + [] == Run(t0, ins).1;
    } else {
      var t, rest := Step(s, run[0]), run[1..];
      if run[0] == Act {
        var i := Input(s.controller.now, s.controller.front, s.controller.back);
        GoesOnAsRun(t, rest, t0, ins + [i]);
        ContinuesBefore(t0, ins, i, Acts(t, rest), Turns(t, rest), After(t, rest).control);
      } else {
        GoesOnAsRun(t, rest, t0, ins);
        assert [] + Acts(t, rest) == Acts(t, rest) && [] + Turns(t, rest) == Turns(t, rest);
      }
    }
  }

  /** In every interleaving of the three threads the controller's iterations are a run of the loop on the snapshots it
      took: what holds of every such run holds of the system. */
  lemma ControllerRuns(s: System, run: seq<Action>, t0: int)
    requires Initial(s) && s.control == Start(t0) && Possible(s, run)
    ensures Run(t0, Acts(s, run)) == (After(s, run).control, Turns(s, run))
  {
    GoesOnAsRun(s, run, t0, []);
    assert [] + Acts(s, run) == Acts(s, run) && [] + Turns(s, run) == Turns(s, run);
  }

  /** The handoffs of the system: in every interleaving, exactly when the snapshot shows the front unlocked and a back
      target, and more than 2000 ms have passed since every earlier snapshot with the front locked and every earlier
      handoff. */
  lemma SystemHandoffIff(s: System, run: seq<Action>, t0: int, j: nat)
    requires Initial(s) && s.control == Start(t0) && Possible(s, run) && Clock(t0, Acts(s, run)) && j < |Turns(s, run)|
    ensures var h := Turns(s, run);
            h[j].out.handoff <==>
            !h[j].front.locked && h[j].back.hasTarget && h[j].now > t0 &&
            forall i | 0 <= i < j && (h[i].front.locked || h[i].out.handoff) :: h[j].now > h[i].now + 2_000_000_000
  {
    ControllerRuns(s, run, t0);
    HandoffIff(t0, Acts(s, run), j);
  }

  // ------------------------------------------------ what can cancel a handoff

  /** Every snapshot shows the shared front result of the start or one published since. */
  lemma {:induction false} TurnsShowPublished(s: System, run: seq<Action>, i: nat)
    requires Possible(s, run) && i < |Turns(s, run)|
    ensures var f := Turns(s, run)[i].front;
            f == s.front || f in Published(s, run) || (s.controller.Holding? && f == s.controller.front)
    decreases |run|
  {
    var t, rest := Step(s, run[0]), run[1..];
    if run[0] != Act {
      TurnsShowPublished(t, rest, i);
    } else if i > 0 {
      TurnsShowPublished(t, rest, i - 1);
    }
  }

  /** The first result published is the one the front worker had ready, if it had one. */
  lemma {:induction false} FirstIsReady(s: System, run: seq<Action>)
    requires Possible(s, run) && s.worker.Ready? && Published(s, run) != []
    ensures Published(s, run)[0] == s.worker.result
    decreases |run|
  {
    if run[0] != FrontPublish {
      FirstIsReady(Step(s, run[0]), run[1..]);
    }
  }

  /** Before the first blank result the shared front result is the one it was at the handoff, or the one the front worker
      had ready then. */
  lemma SnapshotBeforeQuarantine(s: System, run: seq<Action>)
    requires s.controller.Holding? && Acted(s, Act).handoff && Possible(Step(s, Act), run)
    requires |Published(Step(s, Act), run)| <= Stale(s)
    ensures After(Step(s, Act), run).front ==
            if Published(Step(s, Act), run) == [] then s.front else s.worker.result
  {
    var t := Step(s, Act);
    FrontIsLastPublished(t, run);
    if Published(t, run) != [] {
      FirstIsReady(t, run);
    }
  }

  /** Without another handoff the wait for the front camera goes on exactly until a snapshot shows it locked. */
  lemma {:induction false} WaitsUntilLocked(s: System, run: seq<Action>)
    requires Possible(s, run) && s.control.waiting && forall t | t in Turns(s, run) :: !t.out.handoff
    ensures After(s, run).control.waiting <==> forall t | t in Turns(s, run) :: !t.front.locked
    decreases |run|
  {
    if run != [] {
      var u, rest := Step(s, run[0]), run[1..];
      if run[0] == Act {
        var turn := Turn(s.controller.now, s.controller.front, s.controller.back, Acted(s, Act));
        assert Turns(s, run) == [turn] + Turns(u, rest);
        assert turn in Turns(s, run);
        if turn.front.locked {
          StaysCancelled(u, rest);
        } else {
          WaitsUntilLocked(u, rest);
        }
      } else {
        assert Turns(s, run) == [] + Turns(u, rest);
        WaitsUntilLocked(u, rest);
      }
    }
  }

  lemma {:induction false} StaysCancelled(s: System, run: seq<Action>)
    requires Possible(s, run) && !s.control.waiting && forall t | t in Turns(s, run) :: !t.out.handoff
    ensures !After(s, run).control.waiting
    decreases |run|
  {
    if run != [] {
      var u, rest := Step(s, run[0]), run[1..];
      if run[0] == Act {
        var turn := Turn(s.controller.now, s.controller.front, s.controller.back, Acted(s, Act));
        assert Turns(s, run) == [turn] + Turns(u, rest);
        assert turn in Turns(s, run);
      } else {
        assert Turns(s, run) == [] + Turns(u, rest);
      }
      StaysCancelled(u, rest);
    }
  }

  /** As long as at most the three blank results have been published after a handoff, and no other one happens, the wait
      it began is cancelled exactly if a snapshot shows a locked front result; and that can only be the one shared at the
      handoff, published between its snapshot and its action, or the one the front worker had ready. */
  lemma CancelledIff(s: System, run: seq<Action>)
    requires s.controller.Holding? && Acted(s, Act).handoff && Possible(Step(s, Act), run)
    requires |Published(Step(s, Act), run)| <= Stale(s) + DROP_FRAMES
    requires forall t | t in Turns(Step(s, Act), run) :: !t.out.handoff
    ensures After(Step(s, Act), run).control.waiting <==> forall t | t in Turns(Step(s, Act), run) :: !t.front.locked
    ensures forall t | t in Turns(Step(s, Act), run) && t.front.locked ::
              t.front == s.front || (s.worker.Ready? && t.front == s.worker.result)
  {
    var u := Step(s, Act);
    WaitsUntilLocked(u, run);
    forall t | t in Turns(u, run) && t.front.locked
      ensures t.front == s.front || (s.worker.Ready? && t.front == s.worker.result)
    {
      var i: nat :| i < |Turns(u, run)| && Turns(u, run)[i] == t;
      TurnsShowPublished(u, run, i);
      if t.front != s.front {
        LockedIsReady(s, run, t.front);
      }
    }
  }

  lemma LockedIsReady(s: System, run: seq<Action>, f: Front)
    requires s.controller.Holding? && Acted(s, Act).handoff && Possible(Step(s, Act), run)
    requires |Published(Step(s, Act), run)| <= Stale(s) + DROP_FRAMES
    requires f in Published(Step(s, Act), run) && f.locked
    ensures s.worker.Ready? && f == s.worker.result
  {
    var p := Published(Step(s, Act), run);
    var k: nat :| k < |p| && p[k] == f;
    if Stale(s) <= k {
      HandoffClearsFront(s, run, k);
    } else {
      FirstIsReady(Step(s, Act), run);
    }
  }
}
