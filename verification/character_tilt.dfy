/**
 * `useCharacterTilt`: a per-frame smoothing of the character group's
 * rotation toward the pointer, or back to level while inactive.
 */
module CharacterTilt {
  import opened Optional
  import opened Numeric

  const DefaultMaxTilt: real := 0.15
  /** Fraction of the gap to level closed per inactive frame. */
  const SettleRate: real := 0.1
  /** Fraction of the gap to the pointer target closed per active frame. */
  const FollowRate: real := 0.05

  /** The tilt ref: rotation about the x and y axes, in radians. */
  datatype Tilt = Tilt(x: real, y: real)

  /** `state.mouse` in normalised device coordinates. */
  datatype Mouse = Mouse(x: real, y: real)

  const Level: Tilt := Tilt(0.0, 0.0)

  /** Both axes lie within `[-maxTilt, maxTilt]`. */
  predicate Within(t: Tilt, maxTilt: real)
  {
    -maxTilt <= t.x <= maxTilt && -maxTilt <= t.y <= maxTilt
  }

  /** Both pointer coordinates lie in `[-1, 1]`, as they do over the canvas. */
  predicate OnCanvas(m: Mouse)
  {
    -1.0 <= m.x <= 1.0 && -1.0 <= m.y <= 1.0
  }

  /** The pointer target: vertical pointer motion tilts about x (inverted), horizontal about y. */
  function Target(m: Mouse, maxTilt: real): (r: Tilt)
    ensures r.x == -(m.y * maxTilt) && r.y == m.x * maxTilt
  {
    Tilt(-m.y * maxTilt, m.x * maxTilt)
  }

  /** Each axis closes 10% of its distance to level. */
  function Settle(t: Tilt): (r: Tilt)
    ensures r.x == 0.9 * t.x && r.y == 0.9 * t.y
  {
    Tilt(Lerp(t.x, 0.0, SettleRate), Lerp(t.y, 0.0, SettleRate))
  }

  /** Each axis closes 5% of its distance to `target`. */
  function Follow(t: Tilt, target: Tilt): (r: Tilt)
    ensures r.x - target.x == 0.95 * (t.x - target.x)
    ensures r.y - target.y == 0.95 * (t.y - target.y)
  {
    Tilt(Lerp(t.x, target.x, FollowRate), Lerp(t.y, target.y, FollowRate))
  }

  /** The tilt after one frame. */
  function Update(t: Tilt, isActive: bool, m: Mouse, maxTilt: real): (r: Tilt)
    ensures !isActive ==> r == Settle(t)
    ensures isActive ==> r == Follow(t, Target(m, maxTilt))
  {
    if isActive then Follow(t, Target(m, maxTilt)) else Settle(t)
  }

  /**
   * The `useFrame` callback: `group` is the group's current rotation, or
   * `None` while the group ref is unattached, in which case nothing changes.
   */
  function Frame(t: Tilt, group: Option<Tilt>, isActive: bool, m: Mouse, maxTilt: real): (r: (Tilt, Option<Tilt>))
    ensures group.None? ==> r == (t, group)
    ensures group.Some? ==> r.1 == Some(r.0) && r.0 == Update(t, isActive, m, maxTilt)
  {
    if group.None? then (t, group)
    else
      var next := Update(t, isActive, m, maxTilt);
      (next, Some(next))
  }

  /** A value in `[-1, 1]` scaled by a non-negative bound stays within that bound. */
  lemma ScaledWithin(a: real, bound: real)
    requires -1.0 <= a <= 1.0 && bound >= 0.0
    ensures -bound <= a * bound <= bound
  {
    MulNonNegative(1.0 - a, bound);
    MulNonNegative(1.0 + a, bound);
  }

  /** The pointer target of an on-canvas pointer is within the bound. */
  lemma TargetWithin(m: Mouse, maxTilt: real)
    requires OnCanvas(m) && maxTilt >= 0.0
    ensures Within(Target(m, maxTilt), maxTilt)
  {
    ScaledWithin(-m.y, maxTilt);
    ScaledWithin(m.x, maxTilt);
  }

  /** A tilt that starts within the bound stays within it, frame after frame, whatever the pointer does on the canvas. */
  lemma TiltStaysWithin(t: Tilt, isActive: bool, m: Mouse, maxTilt: real)
    requires maxTilt >= 0.0 && Within(t, maxTilt) && OnCanvas(m)
    ensures Within(Update(t, isActive, m, maxTilt), maxTilt)
  {
    if isActive {
      var target := Target(m, maxTilt);
      TargetWithin(m, maxTilt);
      LerpBetween(t.x, target.x, FollowRate);
      LerpBetween(t.y, target.y, FollowRate);
    }
  }

  /** The same over a whole run of frames with any activity and pointer positions. */
  lemma {:induction false} TiltRunStaysWithin(t: Tilt, active: seq<bool>, mice: seq<Mouse>, maxTilt: real)
    requires maxTilt >= 0.0 && Within(t, maxTilt) && |active| == |mice|
    requires forall i :: 0 <= i < |mice| ==> OnCanvas(mice[i])
    ensures Within(Run(t, active, mice, maxTilt), maxTilt)
    decreases |active|
  {
    if |active| > 0 {
      TiltStaysWithin(t, active[0], mice[0], maxTilt);
      TiltRunStaysWithin(Update(t, active[0], mice[0], maxTilt), active[1..], mice[1..], maxTilt);
    }
  }

  /** The tilt after consecutive frames. */
  function Run(t: Tilt, active: seq<bool>, mice: seq<Mouse>, maxTilt: real): Tilt
    requires |active| == |mice|
    decreases |active|
  {
    if |active| == 0 then t
    else Run(Update(t, active[0], mice[0], maxTilt), active[1..], mice[1..], maxTilt)
  }

  /** Level is where an inactive character rests, and the pointer target is where an active one rests. */
  lemma RestingPoints(m: Mouse, maxTilt: real)
    ensures Update(Level, false, m, maxTilt) == Level
    ensures Update(Target(m, maxTilt), true, m, maxTilt) == Target(m, maxTilt)
  {
  }
}
