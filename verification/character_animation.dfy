/**
 * `useCharacterAnimation`: the guide character's entrance, idle motions and
 * exit, as flags plus a per-frame step over the animation clock.
 *
 * On collapse the character turns around, walks away and shrinks to 5%; it
 * stays in that final pose, glow and shadow at full strength, until the next
 * expand.
 *
 * `opacityRef` only sets the strength of the glow (at half of it) and of the
 * shadow (times the shadow's fade); the sprite's own material has no
 * opacity, so the character is drawn in full whenever its scale is not 0.
 */
module CharacterAnimation {
  import opened Optional
  import opened Numeric
  import opened CharacterParts

  const DisappearSeconds: real := 2.0
  /** The emergence jump starts this long after the first frame ... */
  const EmergeDelay: real := 0.1
  /** ... and lasts this long. */
  const EmergeSeconds: real := 0.6
  /** "nod" is two nods of 0.5 s each. */
  const NodSeconds: real := 1.0
  const LookUpSeconds: real := 1.5

  /** `motionStartTimeRef`: null, the -1 "capture on the next frame" flag, or a clock reading. */
  datatype MotionClock = NoMotionClock | CaptureNextFrame | MotionStartedAt(t: real)

  /**
   * The hook's refs and state: `hasAppeared` (React state), the disappearing
   * and emerged refs, the start time, the emergence variant, the running
   * motion with its clock, the scale ref, `opacityRef` (the glow and shadow
   * strength), and the texture the meshes' material currently maps.
   */
  datatype Anim = Anim(
    hasAppeared: bool,
    isDisappearing: bool,
    hasEmerged: bool,
    startTime: Option<real>,
    variant: nat,
    motion: Option<string>,
    motionClock: MotionClock,
    scale: real,
    opacity: real,
    texture: Texture)

  function Initial(): (a: Anim)
    ensures !a.hasAppeared && !a.isDisappearing && !a.hasEmerged && a.motion.None?
  {
    Anim(false, false, false, None, 0, None, NoMotionClock, 0.0, 0.0, Front)
  }

  /**
   * The `isExpanded` effect. Expanding always restarts the entrance, with
   * `pick` standing for `Math.floor(Math.random() * 3)`; collapsing starts
   * the exit only for a character that has appeared and is not already
   * leaving.
   */
  function OnExpandedChange(a: Anim, isExpanded: bool, pick: nat): (r: Anim)
    requires pick < 3
    ensures isExpanded ==> r == a.(isDisappearing := false, hasEmerged := false, hasAppeared := true,
                                   startTime := None, variant := pick)
    ensures isExpanded ==> r.variant < 3
    ensures !isExpanded && a.hasAppeared && !a.isDisappearing ==> r == a.(isDisappearing := true, startTime := None)
    ensures !isExpanded && !(a.hasAppeared && !a.isDisappearing) ==> r == a
  {
    if isExpanded then
      a.(isDisappearing := false, hasEmerged := false, hasAppeared := true, startTime := None, variant := pick)
    else if a.hasAppeared && !a.isDisappearing then
      a.(isDisappearing := true, startTime := None)
    else
      a
  }

  /** `triggerJump`: the jump variant, restarted from the next frame. */
  function TriggerJump(a: Anim): (r: Anim)
    ensures r == a.(variant := 0, startTime := None)
  {
    a.(variant := 0, startTime := None)
  }

  /** `triggerMotion`: replaces any running motion and asks the next frame to note its start. */
  function TriggerMotion(a: Anim, kind: string): (r: Anim)
    ensures r.motion == Some(kind) && r.motionClock == CaptureNextFrame
    ensures r.(motion := a.motion, motionClock := a.motionClock) == a
  {
    a.(motion := Some(kind), motionClock := CaptureNextFrame)
  }

  /** What the hook hands its callers as `hasEmerged`: the appeared flag, not the emerged ref. */
  function ExposedHasEmerged(a: Anim): bool
  {
    a.hasAppeared
  }

  // ---- the exit schedule ------------------------------------------------

  /** `Math.min(timeSinceStart / 2.0, 1)`. */
  function DisappearProgress(elapsed: real): (p: real)
    ensures p <= 1.0
    ensures elapsed >= 0.0 ==> 0.0 <= p
    ensures elapsed >= DisappearSeconds ==> p == 1.0
    ensures elapsed < DisappearSeconds ==> p * DisappearSeconds == elapsed
  {
    Min(elapsed / DisappearSeconds, 1.0)
  }

  /** The Y rotation of the exit, in half turns: 0 to 1 by progress 0.25, held, then 1 to 2. */
  function SpinHalfTurns(p: real): real
  {
    if p < 0.25 then p / 0.25
    else if p < 0.75 then 1.0
    else 1.0 + (p - 0.75) / 0.25
  }

  /** `targetRotation`. */
  function SpinRotation(p: real): real
  {
    SpinHalfTurns(p) * Pi
  }

  /** `useBackTexture`: the back shows once the first half turn passes 90 degrees and until the second does. */
  function SpinTexture(p: real): Texture
  {
    if p < 0.25 then (if p / 0.25 > 0.5 then Back else Front)
    else if p < 0.75 then Back
    else (if (p - 0.75) / 0.25 < 0.5 then Back else Front)
  }

  /** `1.0 * (1 - easeInQuad(progress) * 0.95)`. */
  function DisappearScale(p: real): real
  {
    1.0 - p * p * 0.95
  }

  /** The back texture is used exactly while progress lies strictly between 0.125 and 0.875. */
  lemma SpinTextureWindow(p: real)
    ensures SpinTexture(p) == Back <==> 0.125 < p < 0.875
  {
  }

  /** The exit turn: 0 at the start, a half turn by 0.25, held until 0.75, a full turn at the end, never turning back. */
  lemma SpinSchedule(p: real, q: real)
    requires 0.0 <= p <= q <= 1.0
    ensures SpinRotation(0.0) == 0.0 && SpinRotation(1.0) == 2.0 * Pi
    ensures 0.25 <= p < 0.75 ==> SpinRotation(p) == Pi
    ensures SpinRotation(p) <= SpinRotation(q)
    ensures 0.0 <= SpinRotation(p) <= 2.0 * Pi
  {
    assert SpinHalfTurns(p) <= SpinHalfTurns(q);
    assert 0.0 <= SpinHalfTurns(p) <= 2.0;
  }

  /** The character shrinks steadily from full size to 5% and no further. */
  lemma DisappearScaleBounds(p: real, q: real)
    requires 0.0 <= p <= q <= 1.0
    ensures 0.05 <= DisappearScale(p) <= 1.0
    ensures DisappearScale(0.0) == 1.0 && DisappearScale(1.0) == 0.05
    ensures DisappearScale(q) <= DisappearScale(p)
  {
    ScaleByFraction(p, p);
    ScaleByFraction(q, q);
    MulNonNegative(q - p, p);
    MulNonNegative(q - p, q);
    assert p * p <= q * p <= q * q;
  }

  // ---- the entrance -----------------------------------------------------

  /**
   * `startTimeRef.current ? elapsedTime - startTimeRef.current : 0` as
   * written: a start time of exactly 0 is falsy and reads as "no start".
   */
  function SinceStartAsWritten(start: Option<real>, now: real): real
  {
    if start.Some? && start.value != 0.0 then now - start.value else 0.0
  }

  /** The time since the start, where only a missing start reads as 0. */
  function SinceStart(start: Option<real>, now: real): (t: real)
    ensures start.Some? ==> t + start.value == now
    ensures start.None? ==> t == 0.0
  {
    if start.Some? then now - start.value else 0.0
  }

  /**
   * Which test a frame applies to the start time: `Truthy` is the source's
   * `startTimeRef.current ? ... : 0`, `NullCheck` the `!== null` test the
   * code evidently means.
   */
  datatype StartTest = Truthy | NullCheck

  /** The time since the start as a frame under `test` reads it. */
  function Elapsed(test: StartTest, start: Option<real>, now: real): real
  {
    match test
    case Truthy => SinceStartAsWritten(start, now)
    case NullCheck => SinceStart(start, now)
  }

  /**
   * Whether the entrance's jump has begun (the frame's reading has reached
   * 0.1 s). Under the source's test a start recorded at clock 0 never
   * begins; otherwise it begins 0.1 s after the start.
   */
  predicate Begun(test: StartTest, start: real, now: real)
  {
    Elapsed(test, Some(start), now) >= EmergeDelay
  }

  lemma BegunIff(test: StartTest, start: real, now: real)
    ensures Begun(test, start, now) <==> (test == NullCheck || start != 0.0) && now - start >= EmergeDelay
  {
  }

  /** The two readings differ only for a start time of exactly 0. */
  lemma SinceStartAgrees(start: Option<real>, now: real)
    requires start != Some(0.0)
    ensures SinceStartAsWritten(start, now) == SinceStart(start, now)
  {
  }

  /** `jumpProgress >= 1` once the jump has begun (`timeSinceStart >= 0.1`). */
  predicate EmergenceDone(t: real)
  {
    t >= EmergeDelay && Min((t - EmergeDelay) / EmergeSeconds, 1.0) >= 1.0
  }

  /** The entrance completes exactly 0.7 s after its first frame. */
  lemma EmergenceDoneIff(t: real)
    ensures EmergenceDone(t) <==> t >= 0.7
  {
  }

  /** `opacityRef.current += (1 - opacityRef.current) * 0.1`. */
  function FadeIn(o: real): (r: real)
    ensures 1.0 - r == 0.9 * (1.0 - o)
    ensures o <= 1.0 ==> o <= r <= 1.0
  {
    Lerp(o, 1.0, 0.1)
  }

  /** The motion left after an emerged frame: "nod" ends after 1 s, "look_up" after 1.5 s. */
  function MotionAfter(motion: Option<string>, clock: MotionClock, now: real): (r: Option<string>)
    ensures r.Some? ==> r == motion
    ensures clock.MotionStartedAt? && motion == Some("nod") ==> (r.None? <==> now - clock.t >= NodSeconds)
    ensures clock.MotionStartedAt? && motion == Some("look_up") ==> (r.None? <==> now - clock.t >= LookUpSeconds)
    ensures !clock.MotionStartedAt? ==> r == motion
  {
    match clock
    case MotionStartedAt(m) =>
      if motion == Some("nod") && now - m >= NodSeconds then None
      else if motion == Some("look_up") && now - m >= LookUpSeconds then None
      else motion
    case _ => motion
  }

  // ---- the frame --------------------------------------------------------

  /**
   * What a frame writes: the meshes' scale, the glow and shadow strength
   * (`opacityRef`), the Y rotation and the sprite's texture.
   */
  datatype Pose = Pose(scale: real, opacity: real, rotationY: real, texture: Texture)

  datatype Frame = Frame(anim: Anim, pose: Option<Pose>)

  /**
   * The `useFrame` callback at clock reading `now`, reading the time since
   * the start under `test` (the source is `Truthy`). `meshesReady` stands
   * for all three mesh refs being attached.
   */
  function Step(test: StartTest, a: Anim, now: real, meshesReady: bool): (r: Frame)
    // frames never change the appeared and disappearing flags, and never un-emerge
    ensures r.anim.hasAppeared == a.hasAppeared && r.anim.isDisappearing == a.isDisappearing
    ensures a.hasEmerged ==> r.anim.hasEmerged
    ensures !meshesReady ==> r == Frame(a, None)
    // the exit follows the schedule of its progress and never ends on its own
    ensures meshesReady && a.isDisappearing ==>
              var start := a.startTime.GetOr(now);
              var p := DisappearProgress(now - start);
              && r.anim.startTime == Some(start)
              && r.pose == Some(Pose(DisappearScale(p), 1.0, SpinRotation(p), SpinTexture(p)))
              && r.anim.texture == SpinTexture(p)
              && r.anim.hasEmerged == a.hasEmerged && r.anim.motion == a.motion
    // a character that has not appeared is scaled to nothing and left alone
    ensures meshesReady && !a.isDisappearing && !a.hasAppeared ==>
              r == Frame(a.(scale := 0.0, opacity := 0.0), None)
    // the entrance waits at 80% with no glow or shadow until its jump begins, and
    // completes 0.7 s after its first frame, except that as written a start at
    // clock 0 does not
    ensures meshesReady && !a.isDisappearing && a.hasAppeared && !a.hasEmerged ==>
              var start := a.startTime.GetOr(now);
              && (r.anim.hasEmerged <==> (test == NullCheck || start != 0.0) && now - start >= 0.7)
              && (!Begun(test, start, now) ==> r.pose == Some(Pose(0.8, 0.0, 0.0, a.texture)) && r.anim.opacity == 0.0)
              && (Begun(test, start, now) ==>
                    r.pose == Some(Pose(1.0, r.anim.opacity, 0.0, a.texture)) && r.anim.opacity == FadeIn(a.opacity))
    // an emerged character stands at full size, facing front, keeping its texture
    ensures meshesReady && !a.isDisappearing && a.hasAppeared && a.hasEmerged ==>
              r.pose == Some(Pose(1.0, 1.0, 0.0, a.texture))
              && r.anim.motion == MotionAfter(a.motion, r.anim.motionClock, now)
    // a requested motion notes its start on the first frame of an appeared character
    ensures meshesReady && !a.isDisappearing && a.hasAppeared && a.motionClock == CaptureNextFrame ==>
              r.anim.motionClock == MotionStartedAt(now)
    ensures meshesReady && !a.isDisappearing && a.hasAppeared ==> r.anim.startTime == Some(a.startTime.GetOr(now))
  {
    if !meshesReady then Frame(a, None)
    else if a.isDisappearing then
      var start := a.startTime.GetOr(now);
      var p := DisappearProgress(now - start);
      var scale := DisappearScale(p);
      var texture := SpinTexture(p);
      Frame(a.(startTime := Some(start), scale := scale, opacity := 1.0, texture := texture),
            Some(Pose(scale, 1.0, SpinRotation(p), texture)))
    else if !a.hasAppeared then
      Frame(a.(scale := 0.0, opacity := 0.0), None)
    else
      var start := a.startTime.GetOr(now);
      var clock := if a.motionClock == CaptureNextFrame then MotionStartedAt(now) else a.motionClock;
      var t := Elapsed(test, Some(start), now);
      var b := a.(startTime := Some(start), motionClock := clock);
      if a.hasEmerged then
        Frame(b.(motion := MotionAfter(a.motion, clock, now), scale := 1.0, opacity := 1.0),
              Some(Pose(1.0, 1.0, 0.0, a.texture)))
      else if t >= EmergeDelay then
        EmergenceDoneIff(t);
        BegunIff(test, start, now);
        var opacity := FadeIn(a.opacity);
        Frame(b.(scale := 1.0, opacity := opacity, hasEmerged := EmergenceDone(t)),
              Some(Pose(1.0, opacity, 0.0, a.texture)))
      else
        Frame(b.(scale := 0.8, opacity := 0.0), Some(Pose(0.8, 0.0, 0.0, a.texture)))
  }

  /** Once the exit has run its two seconds the character holds its final pose: 5% size, fully opaque, facing front. */
  lemma DisappearHoldsFinalPose(test: StartTest, a: Anim, now: real)
    requires a.isDisappearing && a.startTime.Some? && now - a.startTime.value >= DisappearSeconds
    ensures Step(test, a, now, true).anim.isDisappearing
    ensures Step(test, a, now, true).pose == Some(Pose(0.05, 1.0, 2.0 * Pi, Front))
  {
  }

  /**
   * Once 0.1 s have passed since the start the glow and shadow strength
   * only rises, and never past 1; as written, an entrance started at clock 0
   * keeps it at 0 instead.
   */
  lemma EntranceOpacityRises(test: StartTest, a: Anim, now: real)
    requires !a.isDisappearing && a.hasAppeared && !a.hasEmerged && a.startTime.Some?
    requires now - a.startTime.value >= EmergeDelay
    requires a.opacity <= 1.0
    ensures test == NullCheck || a.startTime.value != 0.0 ==>
              a.opacity <= Step(test, a, now, true).anim.opacity <= 1.0
    ensures test == Truthy && a.startTime.value == 0.0 ==> Step(test, a, now, true).anim.opacity == 0.0
  {
    BegunIff(test, a.startTime.value, now);
  }

  /**
   * As written, an entrance whose first frame reads the clock at exactly 0
   * does not complete on its own: every frame reads its time since start as
   * 0 however late it is, and holds the character at 80% with no glow or
   * shadow. With the null check the same entrance completes at 0.7 s.
   */
  lemma StartAtZeroHoldsEntrance(a: Anim, now: real)
    requires !a.isDisappearing && a.hasAppeared && !a.hasEmerged && a.startTime == Some(0.0)
    ensures SinceStartAsWritten(a.startTime, now) == 0.0
    ensures !Step(Truthy, a, now, true).anim.hasEmerged
    ensures Step(Truthy, a, now, true).pose == Some(Pose(0.8, 0.0, 0.0, a.texture))
    ensures Step(NullCheck, a, now, true).anim.hasEmerged <==> now >= 0.7
  {
    BegunIff(Truthy, 0.0, now);
  }

  /**
   * A click ends the stall: the jump clears the start time, the next frame
   * (at a clock reading other than 0) records its own reading, and the
   * entrance then completes exactly 0.7 s after that reading.
   */
  lemma ClickRestartsEntrance(a: Anim, t1: real, t2: real)
    requires !a.isDisappearing && a.hasAppeared && !a.hasEmerged && a.startTime == Some(0.0)
    requires t1 != 0.0
    ensures var b := Step(Truthy, TriggerJump(a), t1, true).anim;
            && b.startTime == Some(t1) && !b.hasEmerged && b.hasAppeared && !b.isDisappearing
            && (Step(Truthy, b, t2, true).anim.hasEmerged <==> t2 - t1 >= 0.7)
  {
  }

  /** With the null check every entrance, whatever its start, completes exactly 0.7 s after it. */
  lemma NullCheckEmerges(a: Anim, now: real)
    requires !a.isDisappearing && a.hasAppeared && !a.hasEmerged && a.startTime.Some?
    ensures Step(NullCheck, a, now, true).anim.hasEmerged <==> EmergenceDone(now - a.startTime.value)
    ensures Step(NullCheck, a, now, true).anim.hasEmerged <==> now - a.startTime.value >= 0.7
  {
    EmergenceDoneIff(now - a.startTime.value);
  }

  /**
   * A re-expand in the middle of the exit brings the character back with
   * whatever texture the exit last set: no branch but the exit writes it.
   */
  lemma ReexpandKeepsExitTexture(test: StartTest, a: Anim, now: real, pick: nat, later: real)
    requires pick < 3 && a.isDisappearing && a.startTime.Some?
    requires 0.125 < DisappearProgress(now - a.startTime.value) < 0.875
    ensures var back := OnExpandedChange(Step(test, a, now, true).anim, true, pick);
            Step(test, back, later, true).pose.value.texture == Back
  {
    SpinTextureWindow(DisappearProgress(now - a.startTime.value));
  }
}
