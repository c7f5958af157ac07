/**
 The frame callback of `FadeImage`: one image element that fades and shifts in
 depth toward targets fixed by its `active` prop.

 The element is reached through a React ref. Until the ref is attached, or while
 the mesh has no material yet, the callback returns without touching anything.
 Otherwise it smooths the material's opacity toward 1 (active) or 0 (inactive)
 and the mesh's `z` position toward 0.1 (active) or -0.1 (inactive), each with
 factor 0.05, and nothing else.
 */
module Fade {
  import opened Smoothing

  datatype Option<T> = None | Some(value: T)

  /** The part of the image's material the callback reads and writes. */
  datatype Material = Material(opacity: real, transparent: bool)

  /** The mesh behind the ref: its material and its position. */
  datatype Mesh = Mesh(material: Option<Material>, x: real, y: real, z: real)

  /** The ref's `current`: absent until React attaches the element. */
  type Ref = Option<Mesh>

  /** True when the callback will update the element: the ref and its material are present. */
  predicate Drawable(ref: Ref)
  {
    ref.Some? && ref.value.material.Some?
  }

  function Opacity(ref: Ref): real
    requires Drawable(ref)
  {
    ref.value.material.value.opacity
  }

  function Depth(ref: Ref): real
    requires Drawable(ref)
  {
    ref.value.z
  }

  /** Target opacity: fully shown when active, fully hidden otherwise. */
  function OpacityTarget(active: bool): (t: real)
    ensures 0.0 <= t <= 1.0
    ensures t == 1.0 <==> active
    ensures t == 0.0 <==> !active
  {
    if active then 1.0 else 0.0
  }

  /** Target depth: pushed forward by 0.1 when active, back by 0.1 otherwise. */
  function DepthTarget(active: bool): (t: real)
    ensures t == 0.1 || t == -0.1
    ensures t > 0.0 <==> active
  {
    if active then 0.1 else -0.1
  }

  /**
   What one frame is allowed to do, stated without the update formula: an
   element that cannot be drawn is left as it is; otherwise the opacity gap and
   the depth gap to their targets each shrink to exactly 95 %, and every other
   field keeps its value.
   */
  ghost predicate Smoothed(before: Ref, after: Ref, active: bool)
  {
    if !Drawable(before) then after == before
    else
      && Drawable(after)
      && Opacity(after) - OpacityTarget(active) == Retain * (Opacity(before) - OpacityTarget(active))
      && Depth(after) - DepthTarget(active) == Retain * (Depth(before) - DepthTarget(active))
      && after.value.x == before.value.x
      && after.value.y == before.value.y
      && after.value.material.value.transparent == before.value.material.value.transparent
  }

  /** The `useFrame` callback of one image. */
  function Frame(ref: Ref, active: bool): (r: Ref)
    ensures Smoothed(ref, r, active)
  {
    match ref
    case None => ref
    case Some(mesh) =>
      match mesh.material
      case None => ref
      case Some(mat) =>
        var opacity := Lerp(mat.opacity, OpacityTarget(active), Alpha);
        var z := Lerp(mesh.z, DepthTarget(active), Alpha);
        Some(mesh.(material := Some(mat.(opacity := opacity)), z := z))
  }

  /** The frame relation pins the result down: there is one successor per element and flag. */
  lemma SmoothedIsDeterministic(before: Ref, a1: Ref, a2: Ref, active: bool)
    requires Smoothed(before, a1, active) && Smoothed(before, a2, active)
    ensures a1 == a2
  {
    if Drawable(before) {
      assert Opacity(a1) == Opacity(a2);
      assert Depth(a1) == Depth(a2);
    }
  }

  /** The visible range: opacity in [0, 1] and depth in [-0.1, 0.1]. */
  predicate InRange(ref: Ref)
  {
    Drawable(ref) ==> 0.0 <= Opacity(ref) <= 1.0 && -0.1 <= Depth(ref) <= 0.1
  }

  /** One frame keeps an element inside the visible range, whichever flag it gets. */
  lemma FrameKeepsRange(ref: Ref, active: bool)
    requires InRange(ref)
    ensures InRange(Frame(ref, active))
  {
  }

  /** The element after a sequence of frames, one `active` flag per frame. */
  function RunFrames(ref: Ref, flags: seq<bool>): Ref
  {
    if |flags| == 0 then ref
    else Frame(RunFrames(ref, flags[..|flags| - 1]), flags[|flags| - 1])
  }

  /** Any pattern of active and inactive frames keeps the element inside the visible range. */
  lemma {:induction false} FramesKeepRange(ref: Ref, flags: seq<bool>)
    requires InRange(ref)
    ensures InRange(RunFrames(ref, flags))
  {
    if |flags| > 0 {
      FramesKeepRange(ref, flags[..|flags| - 1]);
      FrameKeepsRange(RunFrames(ref, flags[..|flags| - 1]), flags[|flags| - 1]);
    }
  }

  /** Frames never attach a ref or a material: drawability is fixed along a run. */
  lemma {:induction false} FramesKeepDrawable(ref: Ref, flags: seq<bool>)
    ensures Drawable(RunFrames(ref, flags)) <==> Drawable(ref)
    ensures !Drawable(ref) ==> RunFrames(ref, flags) == ref
  {
    if |flags| > 0 {
      FramesKeepDrawable(ref, flags[..|flags| - 1]);
    }
  }

  /** `k` frames in a row with the same flag. */
  function Steady(active: bool, k: nat): (flags: seq<bool>)
    ensures |flags| == k
    ensures forall i :: 0 <= i < k ==> flags[i] == active
  {
    if k == 0 then [] else Steady(active, k - 1) + [active]
  }

  /** With the flag held steady, opacity and depth follow the smoothing recurrence toward its targets. */
  lemma {:induction false} SteadyFramesIterate(ref: Ref, active: bool, k: nat)
    requires Drawable(ref)
    ensures Drawable(RunFrames(ref, Steady(active, k)))
    ensures Opacity(RunFrames(ref, Steady(active, k))) == Iterate(Opacity(ref), OpacityTarget(active), k)
    ensures Depth(RunFrames(ref, Steady(active, k))) == Iterate(Depth(ref), DepthTarget(active), k)
  {
    if k > 0 {
      var flags := Steady(active, k);
      assert flags[..k - 1] == Steady(active, k - 1);
      SteadyFramesIterate(ref, active, k - 1);
    }
  }

  /** With the flag held steady for `k` frames, the opacity gap is `0.95^k` times the starting gap. */
  lemma OpacityConverges(ref: Ref, active: bool, k: nat)
    requires Drawable(ref)
    ensures Drawable(RunFrames(ref, Steady(active, k)))
    ensures OpacityTarget(active) - Opacity(RunFrames(ref, Steady(active, k)))
      == Pow(Retain, k) * (OpacityTarget(active) - Opacity(ref))
  {
    SteadyFramesIterate(ref, active, k);
    var o, t := Opacity(ref), OpacityTarget(active);
    GapShrinksGeometrically(o, t, k);
    assert Opacity(RunFrames(ref, Steady(active, k))) == Iterate(o, t, k);
  }

  /** With the flag held steady for `k` frames, the depth gap is `0.95^k` times the starting gap. */
  lemma DepthConverges(ref: Ref, active: bool, k: nat)
    requires Drawable(ref)
    ensures Drawable(RunFrames(ref, Steady(active, k)))
    ensures DepthTarget(active) - Depth(RunFrames(ref, Steady(active, k)))
      == Pow(Retain, k) * (DepthTarget(active) - Depth(ref))
  {
    SteadyFramesIterate(ref, active, k);
    GapShrinksGeometrically(Depth(ref), DepthTarget(active), k);
  }
}
