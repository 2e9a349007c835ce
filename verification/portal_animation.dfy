/**
 * `usePortalAnimation`: one paper layer of the portal. A progress value
 * climbs or falls with the frame delta, is eased, and the layer's
 * rotation, depth and scale each close 10% of the gap to the eased target
 * per frame.
 */
module PortalAnimation {
  import opened Optional
  import opened Numeric

  /** Progress gained per second while expanded, and lost per second while collapsed. */
  const OpenRate: real := 1.2
  const CloseRate: real := 2.0
  /** Fraction of each gap closed per frame. */
  const FollowRate: real := 0.1

  /** The layer's animation refs: the raw progress and the three smoothed values. */
  datatype Layer = Layer(progress: real, rotation: real, z: real, scale: real)

  /** Where the three smoothed values are heading. */
  datatype Targets = Targets(rotation: real, z: real, scale: real)

  /** What a frame writes to the mesh: z rotation, depth and uniform scale, and the idle height when collapsed. */
  datatype MeshPose = MeshPose(rotationZ: real, z: real, scale: real, y: Option<real>)

  function Initial(baseZ: real): (l: Layer)
    ensures l.progress == 0.0 && l.z == baseZ && l.scale == 1.0 && l.rotation == 0.0
  {
    Layer(0.0, 0.0, baseZ, 1.0)
  }

  /** The progress after a frame of `delta` seconds. */
  function Advance(p: real, isExpanded: bool, delta: real): (r: real)
    ensures isExpanded ==> r == Min(p + delta * OpenRate, 1.0)
    ensures !isExpanded ==> r == Max(p - delta * CloseRate, 0.0)
  {
    if isExpanded then Min(p + delta * OpenRate, 1.0) else Max(p - delta * CloseRate, 0.0)
  }

  function Cube(u: real): real
  {
    u * u * u
  }

  function EaseOutCubic(t: real): real
  {
    1.0 - Cube(1.0 - t)
  }

  /** The targets of layer `layerIndex` at eased progress `e`. */
  function TargetsAt(layerIndex: nat, baseZ: real, e: real): Targets
  {
    Targets(layerIndex as real * 0.05 * e,
            baseZ - layerIndex as real * 1.5 * e,
            1.0 + (1.5 + layerIndex as real * 0.1) * e)
  }

  /** Every smoothed value closes 10% of its gap to its target. */
  function Follow(l: Layer, t: Targets): (r: Layer)
    ensures r.progress == l.progress
    ensures r.rotation - t.rotation == 0.9 * (l.rotation - t.rotation)
    ensures r.z - t.z == 0.9 * (l.z - t.z)
    ensures r.scale - t.scale == 0.9 * (l.scale - t.scale)
  {
    l.(rotation := Lerp(l.rotation, t.rotation, FollowRate),
       z := Lerp(l.z, t.z, FollowRate),
       scale := Lerp(l.scale, t.scale, FollowRate))
  }

  /**
   * The `useFrame` callback. `meshReady` stands for the mesh ref being
   * attached; `bounce` and `float` stand for the idle sine and cosine terms,
   * which are applied only while collapsed.
   */
  function Step(l: Layer, layerIndex: nat, baseZ: real, isExpanded: bool, delta: real,
                meshReady: bool, bounce: real, float: real): (r: (Layer, Option<MeshPose>))
    ensures !meshReady ==> r == (l, None)
    ensures meshReady ==>
              var p := Advance(l.progress, isExpanded, delta);
              && r.0 == Follow(l.(progress := p), TargetsAt(layerIndex, baseZ, EaseOutCubic(p)))
              && r.1.Some? && r.1.value.rotationZ == r.0.rotation && r.1.value.scale == r.0.scale
              && (isExpanded ==> r.1.value.z == r.0.z && r.1.value.y.None?)
              && (!isExpanded ==> r.1.value.z == r.0.z + float && r.1.value.y == Some(bounce))
  {
    if !meshReady then (l, None)
    else
      var p := Advance(l.progress, isExpanded, delta);
      var next := Follow(l.(progress := p), TargetsAt(layerIndex, baseZ, EaseOutCubic(p)));
      var pose := if isExpanded then MeshPose(next.rotation, next.z, next.scale, None)
                  else MeshPose(next.rotation, next.z + float, next.scale, Some(bounce));
      (next, Some(pose))
  }

  /** Progress never leaves `[0, 1]`, and moves at most `1.2 * delta` up or `2 * delta` down. */
  lemma ProgressInUnit(p: real, isExpanded: bool, delta: real)
    requires 0.0 <= p <= 1.0 && delta >= 0.0
    ensures 0.0 <= Advance(p, isExpanded, delta) <= 1.0
    ensures isExpanded ==> p <= Advance(p, isExpanded, delta) <= p + delta * OpenRate
    ensures !isExpanded ==> p - delta * CloseRate <= Advance(p, isExpanded, delta) <= p
  {
  }

  /** The same for any run of frames. */
  lemma {:induction false} ProgressRunInUnit(p: real, expanded: seq<bool>, deltas: seq<real>)
    requires 0.0 <= p <= 1.0 && |expanded| == |deltas|
    requires forall i :: 0 <= i < |deltas| ==> deltas[i] >= 0.0
    ensures 0.0 <= ProgressRun(p, expanded, deltas) <= 1.0
    decreases |deltas|
  {
    if |deltas| > 0 {
      ProgressInUnit(p, expanded[0], deltas[0]);
      ProgressRunInUnit(Advance(p, expanded[0], deltas[0]), expanded[1..], deltas[1..]);
    }
  }

  /** The progress after consecutive frames. */
  function ProgressRun(p: real, expanded: seq<bool>, deltas: seq<real>): real
    requires |expanded| == |deltas|
    decreases |deltas|
  {
    if |deltas| == 0 then p
    else ProgressRun(Advance(p, expanded[0], deltas[0]), expanded[1..], deltas[1..])
  }

  /** `easeOutCubic` maps `[0, 1]` into itself and fixes both ends. */
  lemma EaseInUnit(t: real)
    requires 0.0 <= t <= 1.0
    ensures 0.0 <= EaseOutCubic(t) <= 1.0
    ensures EaseOutCubic(0.0) == 0.0 && EaseOutCubic(1.0) == 1.0
  {
    var u := 1.0 - t;
    ScaleByFraction(u, u);
    var uu := u * u;
    ScaleByFraction(uu, u);
    assert Cube(u) == uu * u;
  }

  /** For eased progress in `[0, 1]` a layer turns by at most `0.05 i`, moves back by at most `1.5 i` from `baseZ` and never shrinks below 1. */
  lemma TargetBounds(layerIndex: nat, baseZ: real, e: real)
    requires 0.0 <= e <= 1.0
    ensures 0.0 <= TargetsAt(layerIndex, baseZ, e).rotation <= layerIndex as real * 0.05
    ensures baseZ - layerIndex as real * 1.5 <= TargetsAt(layerIndex, baseZ, e).z <= baseZ
    ensures 1.0 <= TargetsAt(layerIndex, baseZ, e).scale <= 2.5 + layerIndex as real * 0.1
  {
    var r := layerIndex as real * 0.05;
    var z := layerIndex as real * 1.5;
    var s := 1.5 + layerIndex as real * 0.1;
    assert r * e <= r * 1.0;
    assert TargetsAt(layerIndex, baseZ, e).rotation == r * e;
    assert z * e <= z * 1.0;
    assert TargetsAt(layerIndex, baseZ, e).z == baseZ - z * e;
    assert s * e <= s * 1.0;
    assert TargetsAt(layerIndex, baseZ, e).scale == 1.0 + s * e;
  }

  /** A fresh layer already sits at its collapsed targets and stays there while collapsed. */
  lemma InitialIsCollapsedRest(layerIndex: nat, baseZ: real, delta: real, bounce: real, float: real)
    requires delta >= 0.0
    ensures var t := TargetsAt(layerIndex, baseZ, EaseOutCubic(0.0));
            Initial(baseZ) == Layer(0.0, t.rotation, t.z, t.scale)
    ensures Step(Initial(baseZ), layerIndex, baseZ, false, delta, true, bounce, float).0 == Initial(baseZ)
  {
  }

  /** Every gap to a fixed target shrinks by 0.9 per frame, so after `n` frames it is `0.9^n` of the original. */
  lemma {:induction false} GapDecays(l: Layer, t: Targets, n: nat)
    ensures FollowN(l, t, n).z - t.z == Power(0.9, n) * (l.z - t.z)
    ensures FollowN(l, t, n).scale - t.scale == Power(0.9, n) * (l.scale - t.scale)
    ensures FollowN(l, t, n).rotation - t.rotation == Power(0.9, n) * (l.rotation - t.rotation)
  {
    if n > 0 {
      GapDecays(l, t, n - 1);
      var m := FollowN(l, t, n - 1);
      assert FollowN(l, t, n) == Follow(m, t);
      var k := Power(0.9, n - 1);
      assert m.z - t.z == k * (l.z - t.z);
      assert 0.9 * (k * (l.z - t.z)) == (0.9 * k) * (l.z - t.z);
      assert 0.9 * (k * (l.scale - t.scale)) == (0.9 * k) * (l.scale - t.scale);
      assert 0.9 * (k * (l.rotation - t.rotation)) == (0.9 * k) * (l.rotation - t.rotation);
    }
  }

  function Power(b: real, n: nat): real
  {
    if n == 0 then 1.0 else b * Power(b, n - 1)
  }

  /** `n` frames of following a fixed target. */
  function FollowN(l: Layer, t: Targets, n: nat): Layer
  {
    if n == 0 then l else Follow(FollowN(l, t, n - 1), t)
  }
}
