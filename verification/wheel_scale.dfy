/**
 * `useWheelScale` and `useWheelScaleOnRef`: the mouse wheel moves a zoom
 * target, clamped to `[min, max]`, and every frame the displayed zoom
 * eases toward that target.
 */
module WheelScale {
  import opened Optional
  import opened Numeric

  /** The hook options, every one of them optional in the source. */
  datatype Options = Options(initial: real, min: real, max: real, step: real, damping: real)

  /** The values the hooks use for options that are not given. */
  const Defaults: Options := Options(1.0, 0.7, 1.8, 0.0008, 8.0)

  /** `targetRef` and `currentRef`. */
  datatype Zoom = Zoom(target: real, current: real)

  predicate InRange(v: real, o: Options)
  {
    o.min <= v <= o.max
  }

  function Initial(o: Options): (z: Zoom)
    ensures z.target == o.initial && z.current == o.initial
  {
    Zoom(o.initial, o.initial)
  }

  /** The target a wheel event proposes: a positive `deltaY` zooms out, a negative one zooms in. */
  function Proposed(z: Zoom, o: Options, deltaY: real): real
  {
    z.target - deltaY * o.step
  }

  /** The window-wide handler of `useWheelScale`: every event moves the target, clamped. */
  function OnWindowWheel(z: Zoom, o: Options, deltaY: real): (r: Zoom)
    ensures r.current == z.current
    ensures o.min <= o.max ==> InRange(r.target, o)
    ensures InRange(Proposed(z, o, deltaY), o) ==> r.target == Proposed(z, o, deltaY)
    ensures o.min <= o.max && Proposed(z, o, deltaY) < o.min ==> r.target == o.min
    ensures o.min <= o.max && Proposed(z, o, deltaY) > o.max ==> r.target == o.max
  {
    z.(target := Clamp(Proposed(z, o, deltaY), o.min, o.max))
  }

  /** The scoped handler lets the page scroll when the target already sits at the limit the wheel pushes toward. */
  predicate AtLimit(z: Zoom, o: Options, deltaY: real)
  {
    (z.target <= o.min && deltaY > 0.0) || (z.target >= o.max && deltaY < 0.0)
  }

  /**
   * The scoped handler of `useWheelScaleOnRef`. The second component says
   * whether the event was intercepted (`preventDefault`), which keeps the
   * page from scrolling.
   */
  function OnScopedWheel(z: Zoom, o: Options, deltaY: real): (r: (Zoom, bool))
    ensures r.1 <==> !AtLimit(z, o, deltaY)
    ensures !r.1 ==> r.0 == z
    ensures r.1 ==> r.0 == OnWindowWheel(z, o, deltaY)
  {
    if AtLimit(z, o, deltaY) then (z, false)
    else (OnWindowWheel(z, o, deltaY), true)
  }

  /**
   * The frame update: the zoom moves the fraction `blend` of the way to the
   * target, where `blend` stands for `1 - exp(-damping * delta)`.
   */
  function OnFrame(z: Zoom, blend: real): (r: Zoom)
    ensures r.target == z.target
    ensures r.current - z.target == (1.0 - blend) * (z.current - z.target)
  {
    z.(current := Lerp(z.current, z.target, blend))
  }

  /** The scoped frame also writes the zoom to the object's scale when the object is attached. */
  function OnScopedFrame(z: Zoom, blend: real, hasObject: bool): (r: (Zoom, Option<real>))
    ensures r.0 == OnFrame(z, blend)
    ensures hasObject <==> r.1.Some?
    ensures hasObject ==> r.1.value == r.0.current
  {
    var next := OnFrame(z, blend);
    (next, if hasObject then Some(next.current) else None)
  }

  /** The default options start inside their own range. */
  lemma DefaultsInRange()
    ensures Defaults.min <= Defaults.max && InRange(Defaults.initial, Defaults)
    ensures Defaults.step > 0.0 && Defaults.damping > 0.0
  {
  }

  /** Inside the range, an event with no vertical movement is intercepted and changes nothing. */
  lemma ZeroDeltaIntercepted(z: Zoom, o: Options)
    requires InRange(z.target, o)
    ensures OnScopedWheel(z, o, 0.0) == (z, true)
  {
  }

  /** Zooming in never lowers the target and zooming out never raises it, with a non-negative step and an in-range target. */
  lemma WheelDirection(z: Zoom, o: Options, deltaY: real)
    requires o.step >= 0.0 && InRange(z.target, o)
    ensures deltaY < 0.0 ==> OnScopedWheel(z, o, deltaY).0.target >= z.target
    ensures deltaY > 0.0 ==> OnScopedWheel(z, o, deltaY).0.target <= z.target
    ensures deltaY < 0.0 ==> OnWindowWheel(z, o, deltaY).target >= z.target
    ensures deltaY > 0.0 ==> OnWindowWheel(z, o, deltaY).target <= z.target
  {
    if deltaY < 0.0 {
      MulNonNegative(-deltaY, o.step);
    } else if deltaY > 0.0 {
      MulNonNegative(deltaY, o.step);
    }
  }

  /** The target after a run of scoped wheel events. */
  function ScopedRun(z: Zoom, o: Options, deltas: seq<real>): Zoom
    decreases |deltas|
  {
    if |deltas| == 0 then z else ScopedRun(OnScopedWheel(z, o, deltas[0]).0, o, deltas[1..])
  }

  /** The target after a run of window wheel events. */
  function WindowRun(z: Zoom, o: Options, deltas: seq<real>): Zoom
    decreases |deltas|
  {
    if |deltas| == 0 then z else WindowRun(OnWindowWheel(z, o, deltas[0]), o, deltas[1..])
  }

  /** A target that starts in range stays in range through any run of scoped events. */
  lemma {:induction false} ScopedRunInRange(z: Zoom, o: Options, deltas: seq<real>)
    requires InRange(z.target, o)
    ensures InRange(ScopedRun(z, o, deltas).target, o)
    decreases |deltas|
  {
    if |deltas| > 0 {
      ScopedRunInRange(OnScopedWheel(z, o, deltas[0]).0, o, deltas[1..]);
    }
  }

  /** A target that starts in range stays in range through any run of window events. */
  lemma {:induction false} WindowRunInRange(z: Zoom, o: Options, deltas: seq<real>)
    requires InRange(z.target, o)
    ensures InRange(WindowRun(z, o, deltas).target, o)
    decreases |deltas|
  {
    if |deltas| > 0 {
      WindowRunInRange(OnWindowWheel(z, o, deltas[0]), o, deltas[1..]);
    }
  }

  /** A frame leaves the zoom between where it was and the target, never overshooting. */
  lemma FrameApproaches(z: Zoom, blend: real)
    requires 0.0 <= blend <= 1.0
    ensures Between(OnFrame(z, blend).current, z.current, z.target)
    ensures Abs(OnFrame(z, blend).current - z.target) <= Abs(z.current - z.target)
  {
    LerpBetween(z.current, z.target, blend);
  }

  /** So a displayed zoom in range stays in range as long as the target does. */
  lemma FrameKeepsRange(z: Zoom, o: Options, blend: real)
    requires 0.0 <= blend <= 1.0 && InRange(z.target, o) && InRange(z.current, o)
    ensures InRange(OnFrame(z, blend).current, o)
  {
    FrameApproaches(z, blend);
  }
}
