/**
 The per-frame exponential smoothing used by `FadeImage`.

 Each frame a value moves toward its target with `THREE.MathUtils.lerp(current,
 target, 0.05)`. This model reads `lerp(a, b, t)` as the exact real number
 `a + t * (b - a)`: floating-point rounding is abstracted away, so every
 statement below is about exact arithmetic on `real`.
 */
module Smoothing {

  /** The interpolation factor passed to every `lerp` in the frame callback. */
  const Alpha: real := 0.05

  /** The share of the gap to the target that survives one frame. */
  const Retain: real := 1.0 - Alpha

  /**
   Linear interpolation from `a` to `b` by `t`, taken as exact: it runs from
   `a` at `t = 0` to `b` at `t = 1`.
   */
  function Lerp(a: real, b: real, t: real): (r: real)
    ensures t == 0.0 ==> r == a
    ensures t == 1.0 ==> r == b
  {
    a + t * (b - a)
  }

  /** Over the reals, `Lerp` agrees with three.js's form `(1 - t) * a + t * b`. */
  lemma LerpIsThreeForm(a: real, b: real, t: real)
    ensures Lerp(a, b, t) == (1.0 - t) * a + t * b
  {
  }

  /** One frame of smoothing of `prev` toward `target`. */
  function Smooth(prev: real, target: real): (r: real)
    ensures r - target == Retain * (prev - target)
    ensures prev <= target ==> prev <= r <= target
    ensures target <= prev ==> target <= r <= prev
    ensures prev < target ==> prev < r < target
    ensures target < prev ==> target < r < prev
    ensures prev == target ==> r == target
  {
    Lerp(prev, target, Alpha)
  }

  /** `k` frames of smoothing toward a fixed target. */
  function Iterate(x: real, target: real, k: nat): real
  {
    if k == 0 then x else Smooth(Iterate(x, target, k - 1), target)
  }

  /** `b` raised to the `k`-th power. */
  function Pow(b: real, k: nat): real
  {
    if k == 0 then 1.0 else b * Pow(b, k - 1)
  }

  /** After `k` frames the gap to the target is exactly `0.95^k` times the starting gap. */
  lemma {:induction false} GapShrinksGeometrically(x: real, target: real, k: nat)
    ensures target - Iterate(x, target, k) == Pow(Retain, k) * (target - x)
  {
    if k > 0 {
      GapShrinksGeometrically(x, target, k - 1);
      var y := Iterate(x, target, k - 1);
      calc {
        target - Iterate(x, target, k);
        Retain * (target - y);
        Retain * (Pow(Retain, k - 1) * (target - x));
        (Retain * Pow(Retain, k - 1)) * (target - x);
      }
    }
  }

  /** Iteration never overshoots: every frame stays between the start and the target. */
  lemma {:induction false} NeverOvershoots(x: real, target: real, k: nat)
    ensures x <= target ==> x <= Iterate(x, target, k) <= target
    ensures target <= x ==> target <= Iterate(x, target, k) <= x
  {
    if k > 0 {
      NeverOvershoots(x, target, k - 1);
    }
  }

  /** The gap to the target never grows from one frame to the next. */
  lemma GapNeverGrows(x: real, target: real, k: nat)
    ensures x <= target ==> Iterate(x, target, k) <= Iterate(x, target, k + 1) <= target
    ensures target <= x ==> target <= Iterate(x, target, k + 1) <= Iterate(x, target, k)
  {
    NeverOvershoots(x, target, k);
  }

  /** Fading in from 0: the values 0.05 and 0.0975 after one and two frames. */
  lemma FadeInFirstFrames()
    ensures Iterate(0.0, 1.0, 1) == 0.05
    ensures Iterate(0.0, 1.0, 2) == 0.0975
  {
    assert Iterate(0.0, 1.0, 1) == Smooth(Iterate(0.0, 1.0, 0), 1.0);
  }

  /** Fading in from 0 toward 1 increases strictly at every frame and never reaches 1. */
  lemma {:induction false} FadeInIncreasesBelowOne(k: nat)
    ensures 0.0 <= Iterate(0.0, 1.0, k) < Iterate(0.0, 1.0, k + 1) < 1.0
  {
    if k > 0 {
      FadeInIncreasesBelowOne(k - 1);
    }
  }
}
