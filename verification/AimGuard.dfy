/** The lost-frame and stable-fire guard: the class of sp_vision_25/tools/aim_guard.cpp and the inline copies in
    sp_vision_25/src/sentry_dual_cameras.cpp and sp_vision_25/src/sentry_dual_sn.cpp. */
module AimGuard {
  import opened Numbers

  /** A double as far as std::isfinite is concerned; NaN and the infinities are one case. */
  datatype Angle = Finite(value: real) | NotFinite

  datatype Command = Command(control: bool, shoot: bool, yaw: Angle, pitch: Angle)

  const NO_COMMAND := Command(false, false, Finite(0.0), Finite(0.0))

  datatype Params = Params(
    maxLostFrames: int, holdMs: int, stableNeedFrames: int, stableYawDeg: real, enableStableFire: bool)

  const MS := 1_000_000  // nanoseconds

  predicate FiniteAngles(c: Command) {
    c.yaw.Finite? && c.pitch.Finite?
  }

  /** std::abs(a - b) * 57.3 < limit; false as soon as one of them is not finite. */
  predicate YawWithin(a: Angle, b: Angle, limit: real) {
    a.Finite? && b.Finite? && Abs(a.value - b.value) * 57.3 < limit
  }

  /** One call: whether a detection was found, the command made of it, and the clock when it is read. */
  datatype Frame = Frame(found: bool, cmd: Command, now: int)

  datatype State = State(lastValid: Command, lost: int, targetStable: bool, stable: int, lastFound: int)

  function Start(now: int): State {
    State(NO_COMMAND, 0, false, 0, now)
  }

  // ------------------------------------------------------------ the machine

  /** AimGuard::process. */
  function Respond(p: Params, s: State, f: Frame): (State, Command) {
    if f.found then
      var s1 := s.(lastFound := f.now);
      var s2 :=
        if f.cmd.control then
          var n := s1.stable + 1;
          s1.(lost := 0, stable := n, targetStable := s1.targetStable || n >= p.stableNeedFrames,
              lastValid := if FiniteAngles(f.cmd) then f.cmd else s1.lastValid)
        else s1.(lost := s1.lost + 1, stable := 0, targetStable := false);
      var c :=
        if FiniteAngles(f.cmd) then f.cmd.(control := true)
        else s2.lastValid.(control := true, shoot := false);
      (s2, c.(shoot := p.enableStableFire && s2.targetStable && YawWithin(c.yaw, s2.lastValid.yaw, p.stableYawDeg)))
    else
      var s1 := s.(lost := s.lost + 1, stable := 0, targetStable := false);
      (s1,
       if s1.lost > p.maxLostFrames || (f.now - s.lastFound) / MS > p.holdMs then
         Command(false, false, Finite(0.0), Finite(0.0))
       else s1.lastValid.(control := true, shoot := false))
  }

  class Guard {
    const p: Params
    var lastValidCommand: Command
    var consecutiveLostFrames: int
    var targetStable: bool
    var stableFrameCount: int
    var lastFoundTime: int

    ghost function View(): State
      reads this
    {
      State(lastValidCommand, consecutiveLostFrames, targetStable, stableFrameCount, lastFoundTime)
    }

    constructor (p: Params, now: int)
      ensures View() == Start(now) && this.p == p
    {
      this.p := p;
      lastValidCommand, consecutiveLostFrames, targetStable, stableFrameCount := NO_COMMAND, 0, false, 0;
      lastFoundTime := now;
    }

    /** `now` is what the clock reads in this call (it is not read before the last found time). */
    method Process(found: bool, cmd0: Command, now: int) returns (cmd: Command)
      requires now >= lastFoundTime
      modifies this
      ensures (View(), cmd) == Respond(p, old(View()), Frame(found, cmd0, now))
    {
      cmd := cmd0;
      if found {
        lastFoundTime := now;
        if cmd.control {
          consecutiveLostFrames := 0;
          stableFrameCount := stableFrameCount + 1;
          if stableFrameCount >= p.stableNeedFrames {
            targetStable := true;
          }
          if FiniteAngles(cmd) {
            lastValidCommand := cmd;
          }
        } else {
          consecutiveLostFrames := consecutiveLostFrames + 1;
          stableFrameCount := 0;
          targetStable := false;
        }
        cmd := cmd.(control := true);
        if !FiniteAngles(cmd) {
          cmd := lastValidCommand.(control := true, shoot := false);
        }
        if p.enableStableFire && targetStable {
          cmd := cmd.(shoot := YawWithin(cmd.yaw, lastValidCommand.yaw, p.stableYawDeg));
        } else {
          cmd := cmd.(shoot := false);
        }
        return;
      }
      consecutiveLostFrames := consecutiveLostFrames + 1;
      stableFrameCount := 0;
      targetStable := false;
      if consecutiveLostFrames <= p.maxLostFrames {
        cmd := lastValidCommand.(control := true, shoot := false);
      } else {
        cmd := cmd.(control := false, shoot := false, yaw := Finite(0.0), pitch := Finite(0.0));
      }
      if (now - lastFoundTime) / MS > p.holdMs {
        cmd := cmd.(control := false, shoot := false, yaw := Finite(0.0), pitch := Finite(0.0));
      }
    }
  }

  /** The inline copies: no parameters, one fixed yaw threshold each. */
  class InlineGuard {
    const yawLimit: real
    var lastValidCommand: Command
    var consecutiveLostFrames: int
    var targetStable: bool
    var stableFrameCount: int
    var lastFoundTime: int

    ghost function View(): State
      reads this
    {
      State(lastValidCommand, consecutiveLostFrames, targetStable, stableFrameCount, lastFoundTime)
    }

    constructor (yawLimit: real, now: int)
      ensures View() == Start(now) && this.yawLimit == yawLimit
    {
      this.yawLimit := yawLimit;
      lastValidCommand, consecutiveLostFrames, targetStable, stableFrameCount := NO_COMMAND, 0, false, 0;
      lastFoundTime := now;
    }

    /** The guard block of one loop iteration: the copies run the class with its default parameters. */
    method Guard(found: bool, cmd: Command, now: int) returns (outCmd: Command)
      requires now >= lastFoundTime
      modifies this
      ensures (View(), outCmd) == Respond(Defaults(yawLimit), old(View()), Frame(found, cmd, now))
    {
      outCmd := cmd;
      if found {
        lastFoundTime := now;
        var hasValidTarget := outCmd.control;
        if hasValidTarget {
          consecutiveLostFrames := 0;
          stableFrameCount := stableFrameCount + 1;
          if stableFrameCount >= 3 {
            targetStable := true;
          }
          if FiniteAngles(outCmd) {
            lastValidCommand := outCmd;
          }
        } else {
          consecutiveLostFrames := consecutiveLostFrames + 1;
          stableFrameCount := 0;
          targetStable := false;
        }
        outCmd := outCmd.(control := true);
        if !FiniteAngles(outCmd) {
          outCmd := lastValidCommand.(control := true, shoot := false);
        }
        outCmd := outCmd.(shoot := targetStable && YawWithin(outCmd.yaw, lastValidCommand.yaw, yawLimit));
      } else {
        consecutiveLostFrames := consecutiveLostFrames + 1;
        stableFrameCount := 0;
        targetStable := false;
        if consecutiveLostFrames <= 8 {
          outCmd := lastValidCommand.(control := true, shoot := false);
        } else {
          outCmd := Command(false, false, Finite(0.0), Finite(0.0));
        }
        if (now - lastFoundTime) / MS > 200 {
          outCmd := Command(false, false, Finite(0.0), Finite(0.0));
        }
      }
    }
  }

  function Defaults(yawLimit: real): Params {
    Params(8, 200, 3, yawLimit, true)
  }

  // -------------------------------------------- what a run looks like from outside

  function After(p: Params, t0: int, run: seq<Frame>): State {
    if run == [] then Start(t0) else Respond(p, After(p, t0, run[..|run| - 1]), run[|run| - 1]).0
  }

  /** The command returned for the last frame of a run. */
  function Answer(p: Params, t0: int, run: seq<Frame>): Command
    requires run != []
  {
    Respond(p, After(p, t0, run[..|run| - 1]), run[|run| - 1]).1
  }

  predicate Good(f: Frame) {
    f.found && f.cmd.control
  }

  /** How many frames at the end of the run were all found with control. */
  function Streak(run: seq<Frame>): nat {
    if run == [] || !Good(run[|run| - 1]) then 0 else 1 + Streak(run[..|run| - 1])
  }

  /** How many frames have gone by since the last one found with control. */
  function SinceGood(run: seq<Frame>): nat {
    if run == [] || Good(run[|run| - 1]) then 0 else 1 + SinceGood(run[..|run| - 1])
  }

  /** The last command that was found, with control and finite. */
  function LastGood(run: seq<Frame>): Command {
    if run == [] then NO_COMMAND
    else
      var f := run[|run| - 1];
      if Good(f) && FiniteAngles(f.cmd) then f.cmd else LastGood(run[..|run| - 1])
  }

  function LastFound(t0: int, run: seq<Frame>): int {
    if run == [] then t0 else if run[|run| - 1].found then run[|run| - 1].now else LastFound(t0, run[..|run| - 1])
  }

  function AtLeastOne(n: int): nat {
    if n < 1 then 1 else n
  }

  /** The guard's variables in terms of its run. */
  lemma {:induction false} StateOfRun(p: Params, t0: int, run: seq<Frame>)
    ensures var s := After(p, t0, run);
            s.stable == Streak(run) && s.lost == SinceGood(run) && s.lastValid == LastGood(run) &&
            FiniteAngles(s.lastValid) && s.lastFound == LastFound(t0, run) &&
            (s.targetStable <==> Streak(run) >= AtLeastOne(p.stableNeedFrames))
  {
    if run != [] {
      StateOfRun(p, t0, run[..|run| - 1]);
    }
  }

  /** The whole-run meaning of the guard, for every parameter setting and every input, NaN included:
      it fires exactly when firing is enabled, the yaw limit is positive, and the last stableNeedFrames frames (at
      least one) were all found with control; a found frame aims at its own angles if they are finite, else at the
      last good ones; a lost frame holds the last good command for at most maxLostFrames frames and holdMs. */
  function Reference(p: Params, t0: int, run: seq<Frame>): Command
    requires run != []
  {
    var f, last := run[|run| - 1], LastGood(run);
    if f.found then
      var aim := if FiniteAngles(f.cmd) then f.cmd else last;
      aim.(control := true,
           shoot := p.enableStableFire && p.stableYawDeg > 0.0 && Streak(run) >= AtLeastOne(p.stableNeedFrames))
    else if SinceGood(run) <= p.maxLostFrames && (f.now - LastFound(t0, run)) / MS <= p.holdMs then
      last.(control := true, shoot := false)
    else NO_COMMAND
  }

  lemma AnswerIsReference(p: Params, t0: int, run: seq<Frame>)
    requires run != []
    ensures Answer(p, t0, run) == Reference(p, t0, run)
  {
    StateOfRun(p, t0, run[..|run| - 1]);
    StateOfRun(p, t0, run);
  }

  /** Every angle that leaves the guard is finite, whatever comes in. */
  lemma AnswersAreFinite(p: Params, t0: int, run: seq<Frame>)
    requires run != []
    ensures Answer(p, t0, run).yaw.Finite? && Answer(p, t0, run).pitch.Finite?
  {
    AnswerIsReference(p, t0, run);
    StateOfRun(p, t0, run);
  }

  /** A frame that is found is answered with control, and at its own angles if both are finite. One that is lost is never
      fired on; it is answered with control exactly while no more than maxLostFrames frames have passed since the last one
      found with control, and less than holdMs + 1 milliseconds since the last one found, and otherwise with nothing. */
  lemma AnswerOfFrame(p: Params, t0: int, run: seq<Frame>)
    requires run != [] && run[|run| - 1].now >= LastFound(t0, run)
    ensures var f, a := run[|run| - 1], Answer(p, t0, run);
            && (f.found ==> a.control)
            && (f.found && f.cmd.yaw.Finite? && f.cmd.pitch.Finite? ==> a.yaw == f.cmd.yaw && a.pitch == f.cmd.pitch)
            && (!f.found ==> !a.shoot)
            && (!f.found ==>
                (a.control <==>
                 SinceGood(run) <= p.maxLostFrames && f.now - LastFound(t0, run) < (p.holdMs + 1) * 1_000_000))
            && (!f.found && !a.control ==> a == Command(false, false, Finite(0.0), Finite(0.0)))
  {
    AnswerIsReference(p, t0, run);
  }

  /** The guard fires exactly on a long enough streak; the yaw comparison only matters through the sign of its limit. */
  lemma FiresIff(p: Params, t0: int, run: seq<Frame>)
    requires run != []
    ensures Answer(p, t0, run).shoot <==>
            p.enableStableFire && p.stableYawDeg > 0.0 && |run| >= AtLeastOne(p.stableNeedFrames) &&
            forall i | |run| - AtLeastOne(p.stableNeedFrames) <= i < |run| :: Good(run[i])
  {
    AnswerIsReference(p, t0, run);
    StateOfRun(p, t0, run);
    StreakIff(run, AtLeastOne(p.stableNeedFrames));
  }

  lemma StreakIff(run: seq<Frame>, n: nat)
    ensures Streak(run) >= n <==> |run| >= n && forall i | |run| - n <= i < |run| :: Good(run[i])
  {
    if run != [] && n > 0 {
      var before := run[..|run| - 1];
      StreakIff(before, n - 1);
      if |before| >= n - 1 {
        assert forall i | |before| - (n - 1) <= i < |before| :: before[i] == run[i];
      }
    }
  }

  /** So two guards that differ only in a positive yaw limit, such as the class and its inline copies with limits 2.0
      and 5.0, answer every run alike. */
  lemma YawLimitIsIrrelevant(p: Params, q: Params, t0: int, run: seq<Frame>)
    requires run != [] && p == q.(stableYawDeg := p.stableYawDeg)
    requires p.stableYawDeg > 0.0 && q.stableYawDeg > 0.0
    ensures Answer(p, t0, run) == Answer(q, t0, run)
  {
    AnswerIsReference(p, t0, run);
    AnswerIsReference(q, t0, run);
  }

  lemma InlineCopiesAgree(t0: int, run: seq<Frame>)
    requires run != []
    ensures Answer(Defaults(2.0), t0, run) == Answer(Defaults(5.0), t0, run)
  {
    YawLimitIsIrrelevant(Defaults(2.0), Defaults(5.0), t0, run);
  }

  /** The limits of the inline copies: they fire exactly after three frames in a row found with control, and answer a lost
      frame with control for at most eight frames and 200 ms. */
  lemma InlineLimits(t0: int, run: seq<Frame>, yawLimit: real)
    requires run != [] && yawLimit > 0.0 && run[|run| - 1].now >= LastFound(t0, run)
    ensures var f, a := run[|run| - 1], Answer(Defaults(yawLimit), t0, run);
            && (a.shoot <==> |run| >= 3 && forall i | |run| - 3 <= i < |run| :: Good(run[i]))
            && (!f.found ==>
                (a.control <==> SinceGood(run) <= 8 && f.now - LastFound(t0, run) < 201_000_000))
  {
    FiresIff(Defaults(yawLimit), t0, run);
    AnswerOfFrame(Defaults(yawLimit), t0, run);
  }

  /** A frame that gives a command to aim at: found, with control and finite. */
  predicate GivesAim(f: Frame) {
    Good(f) && FiniteAngles(f.cmd)
  }

  /** Frame `i` is the last of the run that gives an aim. */
  predicate IsLastAim(run: seq<Frame>, i: int) {
    0 <= i < |run| && GivesAim(run[i]) && forall j | i < j < |run| :: !GivesAim(run[j])
  }

  predicate GivesNone(run: seq<Frame>) {
    forall i | 0 <= i < |run| :: !GivesAim(run[i])
  }

  /** The command was given by the last frame of the run that gives one. */
  predicate AimsAtLast(c: Command, run: seq<Frame>) {
    exists i | 0 <= i < |run| :: IsLastAim(run, i) && c.yaw == run[i].cmd.yaw && c.pitch == run[i].cmd.pitch
  }

  lemma {:induction false} LastGoodIsGiven(run: seq<Frame>) returns (i: int)
    ensures GivesNone(run) ==> LastGood(run) == NO_COMMAND
    ensures !GivesNone(run) ==> IsLastAim(run, i) && LastGood(run) == run[i].cmd
  {
    i := |run| - 1;
    if run != [] && !GivesAim(run[i]) {
      var before := run[..i];
      assert forall j | 0 <= j < i :: before[j] == run[j];
      i := LastGoodIsGiven(before);
    }
  }

  /** A command to fire aims where the last frame found with control and finite angles said, exactly if the run has one;
      otherwise it aims at zero, where the guard starts. */
  lemma FiresAtGivenAimIff(p: Params, t0: int, run: seq<Frame>)
    requires run != [] && Answer(p, t0, run).shoot
    ensures AimsAtLast(Answer(p, t0, run), run) <==> !GivesNone(run)
    ensures GivesNone(run) ==> Answer(p, t0, run) == NO_COMMAND.(control := true, shoot := true)
  {
    AnswerIsReference(p, t0, run);
    var i := LastGoodIsGiven(run);
    StreakIff(run, 1);
    assert IsLastAim(run, i) ==> Answer(p, t0, run) == run[i].cmd.(control := true, shoot := true);
  }

  /** A guard that has seen only non-finite commands still fires, at the zero command it started with. */
  lemma FiresOnNothingFinite(t0: int)
    ensures var f := Frame(true, Command(true, false, NotFinite, NotFinite), t0);
            Answer(Defaults(5.0), t0, [f, f, f]) == Command(true, true, Finite(0.0), Finite(0.0))
  {
    var f := Frame(true, Command(true, false, NotFinite, NotFinite), t0);
    var run := [f, f, f];
    AnswerIsReference(Defaults(5.0), t0, run);
    assert run[..2] == [f, f] && run[..2][..1] == [f] && run[..2][..1][..0] == [];
    assert LastGood(run) == LastGood([f, f]) == LastGood([f]) == LastGood([]);
    FiresIff(Defaults(5.0), t0, run);
  }
}
