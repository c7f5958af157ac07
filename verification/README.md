# Image carousel model

A Dafny model of the `CourseImage3D` component, an auto-rotating 3D image
carousel. The component receives a list of image URLs and keeps one piece of
state, the cursor `currentIndex`. An interval timer and a click on the
component both advance the cursor with `(prev + 1) % N`. Every URL gets a
`FadeImage` element, which is active exactly when its position equals the
cursor. On every rendered frame each element smooths its material opacity
toward 1 or 0 and its depth `z` toward 0.1 or -0.1 with `lerp(…, 0.05)`.

Four modules:

- `Carousel` (`carousel.dfy`): the cursor state machine. It covers the first
  render, the shared tick/click transition, the empty-list guard, re-renders
  with a new list, and the active flag each image receives.
- `Smoothing` (`smoothing.dfy`): the exponential smoothing step and its
  iteration. `lerp(a, b, t)` is taken as the exact real `a + t * (b - a)`, so
  floating-point rounding is abstracted away throughout.
- `Fade` (`fade.dfy`): one image's frame callback. It acts on an optional ref
  holding a mesh with an optional material.
- `Scene` (`scene.dfy`): the whole component under any interleaving of events
  and frames.

Modelling choices:

- The timer tick is an abstract event (`Tick`), not wall-clock time.
- When the list is empty the component renders `null` before reaching its
  effect. Then no interval is set (`Carousel.Commit` leaves the timer as it
  is) and there is no surface to click, so `Carousel.Step` leaves the state
  unchanged.
- The interval effect is modelled by `Carousel.Timer`: the live interval, with
  the list length its callback captured, and counts of `setInterval` and
  `clearInterval` calls. The effect re-runs only when the length changes.
- A re-render with a new list (`Carousel.Resize`) keeps the cursor, as React
  state does. The click handler is rebuilt on every render, so a click always
  uses the current length. The interval callback uses the length of the render
  whose effect set it; the effect replaces it only after the new render has
  committed. `Carousel.Step` models a tick once that effect has re-run, and
  `Carousel.StaleTick` models a tick of the old interval.
- The cursor is a `nat`. Every value it takes is a remainder of a non-negative
  number by a positive length, so JavaScript's truncating `%` and Dafny's `%`
  agree.

## Model

| member | source | states |
|---|---|---|
| `Carousel.Mount` | src/components/CourseImage3D.tsx:42 | the first render starts the cursor at 0, so the first image of a non-empty list is the one active image and an empty list has none |
| `Carousel.Resize` | src/components/CourseImage3D.tsx:41-42 | a render with a new list keeps the cursor; the image at the old cursor is the one active image if it still exists, and no image is active otherwise |
| `Carousel.Advance` | src/components/CourseImage3D.tsx:48 | for a list of length N ≥ 1 the new cursor lies in [0, N); a cursor below the last index moves up by one and the last index wraps to 0 |
| `Carousel.Step` | src/components/CourseImage3D.tsx:47-56 | an event keeps the list; with an empty list it changes nothing; otherwise it leaves the cursor in range, moving it up by one or wrapping the last index to 0 |
| `Carousel.Render` | src/components/CourseImage3D.tsx:44-66 | an empty list renders null; otherwise one image per URL, in order, with each image active exactly when its index equals the cursor |
| `Carousel.TickIsClick` | src/components/CourseImage3D.tsx:48-56 | the timer tick and the click produce the same next state, `(cursor + 1) % N` |
| `Carousel.RunAddsCount` | src/components/CourseImage3D.tsx:47-56 | from a cursor in range, any k events leave the cursor at `(cursor + k) mod N` |
| `Carousel.CursorIsEventCount` | src/components/CourseImage3D.tsx:42-56 | from the first render (cursor 0), the cursor after k events of any kind is `k mod N` |
| `Carousel.OnlyCountMatters` | src/components/CourseImage3D.tsx:48-56 | two event sequences of the same length lead to the same state, whatever the mix of ticks and clicks |
| `Carousel.ThreeImageScenario` | src/components/CourseImage3D.tsx:42-56 | with three URLs, a click, a tick and a click give cursors 1, 2 and 0 |
| `Carousel.EmptyListIsInert` | src/components/CourseImage3D.tsx:44-51 | an empty list renders nothing, leaves the interval effect untouched, has no active image and ignores every event sequence |
| `Carousel.Commit` | src/components/CourseImage3D.tsx:46-51 | once the effect of a render of a non-empty list has run, the live interval holds that list's length; an empty list leaves the timer untouched; an unchanged length keeps the interval; a changed length clears the old interval and sets exactly one new one; a first non-empty render sets one and clears none; at most one interval is ever live |
| `Carousel.Unmount` | src/components/CourseImage3D.tsx:50 | the cleanup leaves no live interval, so every interval that was set has been cleared |
| `Carousel.TimerTracksLength` | src/components/CourseImage3D.tsx:46-51 | over any sequence of renders at most one interval is live, and once the effect of a render of a non-empty list has run, the live interval holds that list's length |
| `Carousel.EmptyRendersSetNoTimer` | src/components/CourseImage3D.tsx:44-51 | renders of an empty list from the start never set an interval |
| `Carousel.NoIntervalOutlivesUnmount` | src/components/CourseImage3D.tsx:46-51 | after any renders and the unmount, no interval is live and as many were cleared as were set |
| `Carousel.ActiveImages` | src/components/CourseImage3D.tsx:60-66 | a cursor in range makes exactly the image at the cursor active; a cursor at or past the end makes no image active |
| `Carousel.ShrinkThenAdvance` | src/components/CourseImage3D.tsx:42-64 | after a re-render with a list shorter than the cursor no image is active; the next event, once the interval's effect has re-run, brings the cursor back in range with exactly one image active |
| `Carousel.StaleTick` | src/components/CourseImage3D.tsx:46-51 | a tick of an interval set by an earlier render advances the cursor modulo the length that interval captured: a cursor below the last captured index moves up by one, the last captured index wraps to 0, and the result lies below the captured length; when that length is the current one it is the same as `Step` |
| `Carousel.StaleTickPastCurrentEnd` | src/components/CourseImage3D.tsx:46-51 | whenever the interval captured a longer list and the cursor sits on or past the last image of the current list but not on the last captured position, a stale tick moves the cursor up by one and leaves no image active |
| `Carousel.StaleTickAfterShrink` | src/components/CourseImage3D.tsx:46-51 | three images with the cursor at 1 shrink to two: a stale tick moves the cursor to 2 and leaves no image active, while a tick with the current length moves it to 0 with image 0 active |
| `Carousel.ExactlyOneActiveAfterEvents` | src/components/CourseImage3D.tsx:42-66 | from the first render, after any k events exactly the image at `k mod N` is active |
| `Smoothing.Lerp` | src/components/CourseImage3D.tsx:16-27 | the exact interpolation gives the start at factor 0 and the end at factor 1 |
| `Smoothing.LerpIsThreeForm` | src/components/CourseImage3D.tsx:16-27 | over the reals the model's `a + t * (b - a)` equals three.js's form `(1 - t) * a + t * b` |
| `Smoothing.Smooth` | src/components/CourseImage3D.tsx:16-27 | one step leaves exactly 0.95 of the gap to the target; the new value lies between the old value and the target, strictly when they differ |
| `Smoothing.GapShrinksGeometrically` | src/components/CourseImage3D.tsx:16-27 | after k steps toward a fixed target the gap is exactly `0.95^k` times the starting gap |
| `Smoothing.NeverOvershoots` | src/components/CourseImage3D.tsx:16-27 | every iterate lies between the starting value and the target |
| `Smoothing.GapNeverGrows` | src/components/CourseImage3D.tsx:16-27 | successive iterates move monotonically toward the target without passing it |
| `Smoothing.FadeInFirstFrames` | src/components/CourseImage3D.tsx:16-20 | smoothing from 0 toward 1 gives 0.05 after one frame and 0.0975 after two |
| `Smoothing.FadeInIncreasesBelowOne` | src/components/CourseImage3D.tsx:16-20 | smoothing from 0 toward 1 increases strictly at every frame and stays below 1 |
| `Fade.OpacityTarget` | src/components/CourseImage3D.tsx:18 | the opacity target lies in [0, 1]; it is 1 exactly when the image is active and 0 exactly when it is not |
| `Fade.DepthTarget` | src/components/CourseImage3D.tsx:22 | the depth target is 0.1 or -0.1, and it is positive exactly when the image is active |
| `Fade.Frame` | src/components/CourseImage3D.tsx:13-28 | with no ref or no material the element is unchanged; otherwise the opacity gap and the depth gap each shrink to 0.95 of their old value, each from its own old value and the flag, and x, y and the transparent flag are unchanged |
| `Fade.SmoothedIsDeterministic` | src/components/CourseImage3D.tsx:13-28 | the frame relation allows only one successor per element and flag, so it fully determines the callback's result |
| `Fade.FrameKeepsRange` | src/components/CourseImage3D.tsx:16-27 | an element with opacity in [0, 1] and depth in [-0.1, 0.1] stays in range after a frame with either flag |
| `Fade.FramesKeepRange` | src/components/CourseImage3D.tsx:16-27 | any sequence of frames, with any pattern of active and inactive flags, keeps opacity in [0, 1] and depth in [-0.1, 0.1] |
| `Fade.FramesKeepDrawable` | src/components/CourseImage3D.tsx:14 | frames never attach or detach the ref or material; an element that cannot be drawn stays exactly as it was |
| `Fade.SteadyFramesIterate` | src/components/CourseImage3D.tsx:16-27 | with the flag held steady, opacity and depth after k frames are the k-th smoothing iterates toward that flag's targets |
| `Fade.OpacityConverges` | src/components/CourseImage3D.tsx:16-20 | with the flag held steady for k frames, the opacity gap to its target is `0.95^k` times the starting gap |
| `Fade.DepthConverges` | src/components/CourseImage3D.tsx:22-27 | with the flag held steady for k frames, the depth gap to its target is `0.95^k` times the starting gap |
| `Scene.Start` | src/components/CourseImage3D.tsx:42-66 | the first render starts the cursor at 0 with the given elements; one element per URL makes it well formed, and elements in the visible range make the component invariant hold |
| `Scene.Paint` | src/components/CourseImage3D.tsx:60-66 | a frame keeps the cursor and steps every image's frame callback with the flag "its index equals the cursor" |
| `Scene.Apply` | src/components/CourseImage3D.tsx:47-66 | an event changes only the cursor and a frame changes only the images; the list never changes |
| `Scene.Events` | src/components/CourseImage3D.tsx:47-56 | a lone event input contributes that event and a lone frame contributes none |
| `Scene.EventsOfConcat` | src/components/CourseImage3D.tsx:47-56 | the events of two runs in a row are the first run's events followed by the second's, so `Events` lists the event inputs in order |
| `Scene.FramesDoNotMoveCursor` | src/components/CourseImage3D.tsx:42-66 | after any interleaving of events and frames, the cursor is where the events alone take it |
| `Scene.CursorCountsEvents` | src/components/CourseImage3D.tsx:42-66 | from the first render, after any interleaving the cursor is the number of events modulo N |
| `Scene.PaintKeepsInv` | src/components/CourseImage3D.tsx:13-28 | a frame keeps the component invariant: one element per URL, cursor in range, every element in its visible range |
| `Scene.PlayKeepsInv` | src/components/CourseImage3D.tsx:42-66 | any interleaving of events and frames keeps the component invariant |
| `Scene.PaintPullsOneForward` | src/components/CourseImage3D.tsx:60-66 | in a frame the image at the cursor is pulled toward opacity 1 and depth 0.1, and every other image toward opacity 0 and depth -0.1 |

## Left out

- `DanceScene.tsx`: the particle field depends on `Math.random`, on `sin`, `cos` and `acos` over floats, and on a three.js colour lerp. None of that has an exact statement worth proving.
- Floating-point rounding: `THREE.MathUtils.lerp` is taken as exact real arithmetic. Rounding is not modelled, so the fade-in sequence really is strictly below 1 only in the model.
- Timer scheduling: the 3500 ms period and re-render timing are not modelled. A tick is an abstract event, and `Scene` assumes the component re-renders after every event before the next frame. The interval's lifecycle is modelled by `Carousel.Timer`.
- Rendering: the `Canvas`, the camera, the ambient light, the corner radius and the JSX markup are not modelled.
- Viewport sizing: the scale of `viewport.width * 0.95` by `viewport.height * 0.95` is one float multiply on a host-supplied value.
- Initial element state: the opacity and depth of a freshly created image come from the image library, not from this component. They are parameters of `Scene.Start`.
- Absent list: the guard also accepts a missing `imageUrls`. A `seq<string>` cannot be absent, so an absent list is represented by the empty one, which the guard treats the same way.
- Hook order: the empty-list guard returns before `useEffect`, so the number of hooks called differs between an empty and a non-empty list. React throws when that number changes between renders: a list that becomes empty after a non-empty render, or non-empty after an empty one. `Carousel.Resize` and `Carousel.Commit` allow both transitions and do not model the error.
- Duplicate URLs: React keys images by URL, and its handling of duplicate keys is not modelled. The model keeps one element per position in the list.
- Stale ticks: a tick fires with the length its interval captured. `Carousel.Step`, `Carousel.ShrinkThenAdvance` and `Scene` assume the effect has already re-run after every list change. `Carousel.Commit` and `Carousel.TimerTracksLength` treat a render and its effect as one step. A tick between a render and that effect is modelled only by `Carousel.StaleTick` and `Carousel.StaleTickPastCurrentEnd`, which can leave the cursor out of range.
- Re-renders inside a scene: `Scene` keeps the list fixed along a run. A list change between renders is modelled only at the cursor level, by `Carousel.Resize` and `Carousel.ShrinkThenAdvance`.

## Findings

| source | as written | input that shows it | evidently intended | confidence | as-written member | corrected member |
|---|---|---|---|---|---|---|
| src/components/CourseImage3D.tsx:46-51 | the interval callback computes `(prev + 1) % imageUrls.length` with the list of the render whose effect set it; the effect replaces it only after a new render commits | three URLs with the cursor at 1 re-rendered with two URLs; a tick fires before the effect's cleanup and moves the cursor to 2, so no image is active | every tick advances modulo the current length, so the cursor stays in range and one image is active | not executed; depends on a tick landing between commit and the passive effect's cleanup | `Carousel.StaleTickAfterShrink` | `Carousel.ShrinkThenAdvance` |
