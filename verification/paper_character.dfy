/**
 * The older portal character (`PaperPortal/Character.tsx`), kept separate
 * from `useCharacterAnimation`: its entrance cannot be restarted while it
 * is leaving, and its exit fades the glow and shadow out and then resets
 * it to the hidden state.
 *
 * As in the hook, `opacityRef` only sets the strength of the glow (at half
 * of it) and of the shadow; the sprite's material has no opacity.
 */
module PaperCharacter {
  import opened Optional
  import opened Numeric
  import opened CharacterParts
  import CharacterTilt
  import CharacterAnimation

  /** The exit turns the character around over this many seconds. */
  const TurnSeconds: real := 0.5
  /** The exit fades the glow and shadow out over the last quarter of its progress. */
  const FadeStart: real := 0.75
  /** The entrance jump of this component lasts 0.8 s (after the same 0.1 s delay). */
  const JumpSeconds: real := 0.8
  /** How far the jump variant grows at the top of its arc. */
  const JumpSwell: real := 0.2

  /** The component's state and refs. */
  datatype Paper = Paper(
    hasAppeared: bool,
    isDisappearing: bool,
    startTime: Option<real>,
    variant: nat,
    scale: real,
    opacity: real,
    tilt: CharacterTilt.Tilt,
    texture: Texture)

  /** Neither appeared nor leaving: the character is not on stage. */
  predicate Hidden(a: Paper)
  {
    !a.hasAppeared && !a.isDisappearing
  }

  function Initial(): (a: Paper)
    ensures Hidden(a) && a.startTime.None? && a.scale == 0.0 && a.opacity == 0.0
  {
    Paper(false, false, None, 0, 0.0, 0.0, CharacterTilt.Level, Front)
  }

  /**
   * The `isExpanded` effect: the entrance starts only from the hidden
   * state, with `pick` standing for the random variant; the exit starts
   * only for a character that has appeared and is not already leaving.
   */
  function OnExpandedChange(a: Paper, isExpanded: bool, pick: nat): (r: Paper)
    requires pick < 3
    ensures isExpanded && Hidden(a) ==> r == a.(hasAppeared := true, startTime := None, variant := pick)
    ensures isExpanded && !Hidden(a) ==> r == a
    ensures !isExpanded && a.hasAppeared && !a.isDisappearing ==> r == a.(isDisappearing := true, startTime := None)
    ensures !isExpanded && !(a.hasAppeared && !a.isDisappearing) ==> r == a
    ensures r.variant == a.variant || r.variant < 3
  {
    if isExpanded then
      if Hidden(a) then a.(hasAppeared := true, startTime := None, variant := pick) else a
    else if a.hasAppeared && !a.isDisappearing then
      a.(isDisappearing := true, startTime := None)
    else
      a
  }

  // ---- the exit schedule ------------------------------------------------

  /** `Math.min(timeSinceStart / 0.5, 1)`. */
  function TurnProgress(elapsed: real): (p: real)
    ensures p <= 1.0
    ensures elapsed >= 0.0 ==> 0.0 <= p
  {
    Min(elapsed / TurnSeconds, 1.0)
  }

  /** The back texture once the turn passes 90 degrees. */
  function ExitTexture(elapsed: real): Texture
  {
    if TurnProgress(elapsed) > 0.5 then Back else Front
  }

  /** Full glow and shadow, then a linear fade over the last quarter of the progress. */
  function ExitOpacity(p: real): real
  {
    if p < FadeStart then 1.0 else 1.0 - (p - FadeStart) / (1.0 - FadeStart)
  }

  /** The back shows exactly once a quarter second of the exit has passed. */
  lemma ExitTextureIff(elapsed: real)
    ensures ExitTexture(elapsed) == Back <==> elapsed > 0.25
  {
  }

  /** The exit turns half way round within half a second and then holds. */
  lemma ExitTurn(elapsed: real, later: real)
    requires 0.0 <= elapsed <= later
    ensures 0.0 <= TurnProgress(elapsed) <= TurnProgress(later) <= 1.0
    ensures later >= TurnSeconds ==> TurnProgress(later) * Pi == Pi
  {
  }

  /** The glow and shadow strength is full until progress 0.75, then falls steadily to 0 at progress 1. */
  lemma ExitFade(p: real, q: real)
    requires 0.0 <= p <= q <= 1.0
    ensures p < FadeStart ==> ExitOpacity(p) == 1.0
    ensures 0.0 <= ExitOpacity(q) <= ExitOpacity(p) <= 1.0
    ensures ExitOpacity(1.0) == 0.0
  {
  }

  // ---- the frame --------------------------------------------------------

  /** What a frame writes: the component state, the group's rotation and the character's pose. */
  datatype Frame = Frame(paper: Paper, group: Option<CharacterTilt.Tilt>, pose: Option<CharacterAnimation.Pose>)

  /** The tilt after a frame: level while leaving, following the pointer once appeared, otherwise held. */
  function NextTilt(a: Paper, mouse: CharacterTilt.Mouse): CharacterTilt.Tilt
  {
    if a.isDisappearing then CharacterTilt.Settle(a.tilt)
    else if a.hasAppeared then CharacterTilt.Follow(a.tilt, CharacterTilt.Target(mouse, CharacterTilt.DefaultMaxTilt))
    else a.tilt
  }

  /** The entrance scale: the jump variant swells by `arc * 0.2`, where `arc` stands for `sin(jumpProgress * PI)`; the others stay at 1. */
  function EntranceScale(variant: nat, arc: real): real
  {
    if variant == 0 then 1.0 + arc * JumpSwell else 1.0
  }

  /**
   * The `useFrame` callback at clock reading `now`, reading the time since
   * the start under `test` (the source is `Truthy`). `refsReady` stands for
   * the group and the three meshes being attached, and `arc` for the sine
   * term of the jump variant, which lies in `[0, 1]` during the jump.
   */
  function Step(test: CharacterAnimation.StartTest, a: Paper, now: real, mouse: CharacterTilt.Mouse, refsReady: bool, arc: real): (r: Frame)
    ensures !refsReady ==> r == Frame(a, None, None)
    // the group always carries the tilt
    ensures refsReady ==> r.group == Some(r.paper.tilt) && r.paper.tilt == NextTilt(a, mouse)
    // the exit: turn, shrink, fade the glow and shadow, and reset to hidden once its two seconds are up
    ensures refsReady && a.isDisappearing ==>
              var start := a.startTime.GetOr(now);
              var p := CharacterAnimation.DisappearProgress(now - start);
              && r.paper.scale == CharacterAnimation.DisappearScale(p)
              && r.paper.opacity == ExitOpacity(p)
              && (p < 1.0 ==> && r.paper == a.(startTime := Some(start), scale := r.paper.scale,
                                              opacity := r.paper.opacity, tilt := r.paper.tilt,
                                              texture := ExitTexture(now - start))
                              && r.pose.Some? && r.pose.value.rotationY == TurnProgress(now - start) * Pi)
              && (p >= 1.0 ==> Hidden(r.paper) && r.paper.startTime.None? && r.paper.texture == Front
                               && r.pose.Some? && r.pose.value.rotationY == 0.0)
    // hidden: nothing on stage
    ensures refsReady && Hidden(a) ==> r.paper == a.(scale := 0.0, opacity := 0.0) && r.pose.None?
    // the entrance: waits at 80% with no glow or shadow until its jump begins 0.1 s after
    // the start (as written, not until a collapse for a start at clock 0), then fades the
    // glow and shadow in at its variant's scale
    ensures refsReady && !a.isDisappearing && a.hasAppeared ==>
              var start := a.startTime.GetOr(now);
              var begun := (test == CharacterAnimation.NullCheck || start != 0.0) && now - start >= CharacterAnimation.EmergeDelay;
              && r.paper == a.(startTime := Some(start), scale := r.paper.scale, opacity := r.paper.opacity, tilt := r.paper.tilt)
              && (!begun ==> r.paper.scale == 0.8 && r.paper.opacity == 0.0)
              && (begun ==> r.paper.scale == EntranceScale(a.variant, arc) && 1.0 - r.paper.opacity == 0.9 * (1.0 - a.opacity))
  {
    if !refsReady then Frame(a, None, None)
    else
      var tilt := NextTilt(a, mouse);
      if a.isDisappearing then
        var start := a.startTime.GetOr(now);
        var elapsed := now - start;
        var p := CharacterAnimation.DisappearProgress(elapsed);
        var scale := CharacterAnimation.DisappearScale(p);
        var opacity := ExitOpacity(p);
        if p >= 1.0 then
          var b := a.(isDisappearing := false, hasAppeared := false, startTime := None,
                      scale := scale, opacity := opacity, tilt := tilt, texture := Front);
          Frame(b, Some(tilt), Some(CharacterAnimation.Pose(scale, opacity, 0.0, Front)))
        else
          var texture := ExitTexture(elapsed);
          var b := a.(startTime := Some(start), scale := scale, opacity := opacity, tilt := tilt, texture := texture);
          Frame(b, Some(tilt), Some(CharacterAnimation.Pose(scale, opacity, TurnProgress(elapsed) * Pi, texture)))
      else if !a.hasAppeared then
        Frame(a.(scale := 0.0, opacity := 0.0), Some(tilt), None)
      else
        var start := a.startTime.GetOr(now);
        var t := CharacterAnimation.Elapsed(test, Some(start), now);
        CharacterAnimation.BegunIff(test, start, now);
        if t >= CharacterAnimation.EmergeDelay then
          var scale := EntranceScale(a.variant, arc);
          var opacity := CharacterAnimation.FadeIn(a.opacity);
          Frame(a.(startTime := Some(start), scale := scale, opacity := opacity, tilt := tilt),
                Some(tilt), Some(CharacterAnimation.Pose(scale, opacity, 0.0, a.texture)))
        else
          Frame(a.(startTime := Some(start), scale := 0.8, opacity := 0.0, tilt := tilt),
                Some(tilt), Some(CharacterAnimation.Pose(0.8, 0.0, 0.0, a.texture)))
  }

  /** Expanding again while the character is still leaving does nothing: the exit runs to its end. */
  lemma ReexpandDuringExitIgnored(a: Paper, pick: nat)
    requires pick < 3 && a.isDisappearing
    ensures OnExpandedChange(a, true, pick) == a
  {
  }

  /**
   * A full cycle: once the exit's two seconds are up the character is
   * hidden, with no glow or shadow, facing front, and the next expand starts a fresh
   * entrance.
   */
  lemma ExitEndsHidden(test: CharacterAnimation.StartTest, a: Paper, now: real, mouse: CharacterTilt.Mouse, arc: real, pick: nat)
    requires pick < 3 && a.isDisappearing && a.startTime.Some?
    requires now - a.startTime.value >= CharacterAnimation.DisappearSeconds
    ensures var r := Step(test, a, now, mouse, true, arc).paper;
            && Hidden(r) && r.opacity == 0.0 && r.scale == 0.05 && r.texture == Front
            && OnExpandedChange(r, true, pick).hasAppeared
            && OnExpandedChange(r, true, pick).startTime.None?
  {
  }

  /**
   * Once 0.1 s have passed since the start the scale stays between 1 and 1.2
   * and the glow and shadow strength rises towards 1; as written, an entrance
   * started at clock 0 stays at 80% with no glow or shadow instead.
   */
  lemma EntranceBounds(test: CharacterAnimation.StartTest, a: Paper, now: real, mouse: CharacterTilt.Mouse, arc: real)
    requires !a.isDisappearing && a.hasAppeared && a.startTime.Some?
    requires now - a.startTime.value >= CharacterAnimation.EmergeDelay
    requires 0.0 <= arc <= 1.0 && a.opacity <= 1.0
    ensures var r := Step(test, a, now, mouse, true, arc).paper;
            test == CharacterAnimation.NullCheck || a.startTime.value != 0.0 ==>
              1.0 <= r.scale <= 1.0 + JumpSwell && a.opacity <= r.opacity <= 1.0
    ensures var r := Step(test, a, now, mouse, true, arc).paper;
            test == CharacterAnimation.Truthy && a.startTime.value == 0.0 ==> r.scale == 0.8 && r.opacity == 0.0
  {
    MulNonNegative(arc, JumpSwell);
    MulNonNegative(1.0 - arc, JumpSwell);
  }

  /**
   * As written, an entrance whose first frame reads the clock at exactly 0
   * stays at 80% with no glow or shadow on every later frame, until a
   * collapse clears the start; with the null check it jumps and fades the
   * glow and shadow in from 0.1 s on.
   */
  lemma StartAtZeroHoldsEntrance(a: Paper, now: real, mouse: CharacterTilt.Mouse, arc: real)
    requires !a.isDisappearing && a.hasAppeared && a.startTime == Some(0.0)
    ensures var r := Step(CharacterAnimation.Truthy, a, now, mouse, true, arc).paper;
            r.scale == 0.8 && r.opacity == 0.0
    ensures var r := Step(CharacterAnimation.NullCheck, a, now, mouse, true, arc).paper;
            now >= CharacterAnimation.EmergeDelay ==> r.scale == EntranceScale(a.variant, arc) && r.opacity == CharacterAnimation.FadeIn(a.opacity)
  {
  }
}
