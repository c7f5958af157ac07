/**
 The whole `CourseImage3D` component: the cursor together with one `FadeImage`
 element per URL, driven by an interleaving of events (timer ticks and clicks)
 and rendered frames.

 A frame repaints every image with the flag "its index equals the cursor";
 an event moves only the cursor. The model thus assumes React re-renders after
 every event and before the next frame, so that the `active` props always
 reflect the current cursor (re-render timing is otherwise left out). The list
 of URLs is fixed along a run.
 */
module Scene {
  import C = Carousel
  import F = Fade

  /** What can happen to a mounted component: an event, or a rendered frame. */
  datatype Input = Event(e: C.Event) | Repaint

  /** The cursor state and the element behind each image's ref, in list order. */
  datatype Scene = Scene(carousel: C.Carousel, images: seq<F.Ref>)

  /** One element per URL. */
  predicate WellFormed(s: Scene)
  {
    |s.images| == |s.carousel.urls|
  }

  /**
   First render, with whatever state the freshly created elements are in. The
   cursor starts at 0; with one element per URL, all of them in the visible
   range, the component invariant holds from the start.
   */
  function Start(urls: seq<string>, images: seq<F.Ref>): (s: Scene)
    ensures s.carousel.urls == urls && s.carousel.cursor == 0 && s.images == images
    ensures |images| == |urls| ==> WellFormed(s)
    ensures |images| == |urls| && (forall i :: 0 <= i < |images| ==> F.InRange(images[i])) ==> Inv(s)
  {
    Scene(C.Mount(urls), images)
  }

  /**
   One rendered frame: every image runs its frame callback with the `active`
   flag a render of the current cursor gives it. An empty list renders no
   image, so nothing runs.
   */
  function Paint(s: Scene): (r: Scene)
    requires WellFormed(s)
    ensures WellFormed(r)
    ensures r.carousel == s.carousel
    ensures forall i :: 0 <= i < |s.images| ==>
      F.Smoothed(s.images[i], r.images[i], i == s.carousel.cursor)
  {
    match C.Render(s.carousel)
    case Null => s
    case Shown(props) =>
      s.(images := seq(|s.images|, i requires 0 <= i < |s.images| => F.Frame(s.images[i], props[i].active)))
  }

  /** Applies one input: an event moves the cursor, a frame moves the images. */
  function Apply(s: Scene, input: Input): (r: Scene)
    requires WellFormed(s)
    ensures WellFormed(r)
    ensures r.carousel.urls == s.carousel.urls
    ensures input.Event? ==> r.images == s.images
    ensures input.Repaint? ==> r.carousel == s.carousel
  {
    match input
    case Event(e) => s.(carousel := C.Step(s.carousel, e))
    case Repaint => Paint(s)
  }

  /** Applies a sequence of inputs in order. */
  function Play(s: Scene, inputs: seq<Input>): (r: Scene)
    requires WellFormed(s)
    ensures WellFormed(r)
    decreases |inputs|
  {
    if |inputs| == 0 then s else Play(Apply(s, inputs[0]), inputs[1..])
  }

  /** The events of a run of inputs, frames dropped. */
  function Events(inputs: seq<Input>): (events: seq<C.Event>)
    ensures |events| <= |inputs|
    ensures |inputs| == 1 && inputs[0].Event? ==> events == [inputs[0].e]
    ensures |inputs| == 1 && inputs[0].Repaint? ==> events == []
  {
    if |inputs| == 0 then []
    else match inputs[0]
      case Event(e) => [e] + Events(inputs[1..])
      case Repaint => Events(inputs[1..])
  }

  /** The component invariant: cursor in range for a non-empty list, every element in its visible range. */
  predicate Inv(s: Scene)
  {
    && WellFormed(s)
    && (|s.carousel.urls| > 0 ==> s.carousel.cursor < |s.carousel.urls|)
    && forall i :: 0 <= i < |s.images| ==> F.InRange(s.images[i])
  }

  /**
   Splitting a run splits its events. With the one-input cases of `Events`
   this pins it down: the events of a run, in their order, frames dropped.
   */
  lemma {:induction false} EventsOfConcat(a: seq<Input>, b: seq<Input>)
    ensures Events(a + b) == Events(a) + Events(b)
    decreases |a|
  {
    if |a| > 0 {
      assert (a + b)[1..] == a[1..] + b;
      EventsOfConcat(a[1..], b);
    } else {
      assert a + b == b;
    }
  }

  /** Frames never move the cursor: after any run, the cursor is where the events alone take it. */
  lemma {:induction false} FramesDoNotMoveCursor(s: Scene, inputs: seq<Input>)
    requires WellFormed(s)
    ensures Play(s, inputs).carousel == C.Run(s.carousel, Events(inputs))
    decreases |inputs|
  {
    if |inputs| > 0 {
      FramesDoNotMoveCursor(Apply(s, inputs[0]), inputs[1..]);
      match inputs[0]
      case Event(e) =>
        assert Events(inputs) == [e] + Events(inputs[1..]);
        assert C.Run(s.carousel, Events(inputs)) == C.Run(C.Step(s.carousel, e), Events(inputs[1..]));
      case Repaint =>
    }
  }

  /** From the first render, the cursor counts the events of any run modulo the list length. */
  lemma CursorCountsEvents(urls: seq<string>, images: seq<F.Ref>, inputs: seq<Input>)
    requires |images| == |urls| >= 1
    ensures Play(Start(urls, images), inputs).carousel.cursor == |Events(inputs)| % |urls|
  {
    FramesDoNotMoveCursor(Start(urls, images), inputs);
    C.CursorIsEventCount(urls, Events(inputs));
  }

  /** One frame keeps the invariant. */
  lemma PaintKeepsInv(s: Scene)
    requires Inv(s)
    ensures Inv(Paint(s))
  {
    var r := Paint(s);
    forall i | 0 <= i < |r.images| ensures F.InRange(r.images[i]) {
      assert F.Smoothed(s.images[i], r.images[i], i == s.carousel.cursor);
    }
  }

  /** Any interleaving of events and frames keeps the invariant. */
  lemma {:induction false} PlayKeepsInv(s: Scene, inputs: seq<Input>)
    requires Inv(s)
    ensures Inv(Play(s, inputs))
    decreases |inputs|
  {
    if |inputs| > 0 {
      if inputs[0].Repaint? {
        PaintKeepsInv(s);
      }
      PlayKeepsInv(Apply(s, inputs[0]), inputs[1..]);
    }
  }

  /**
   In a frame of a non-empty component exactly one element, the one at the
   cursor, is pulled toward full opacity and forward depth; every other
   element is pulled toward transparency and back.
   */
  lemma PaintPullsOneForward(s: Scene, i: nat)
    requires WellFormed(s) && i < |s.images|
    ensures F.Drawable(s.images[i]) && i == s.carousel.cursor ==>
      && F.Opacity(Paint(s).images[i]) - 1.0 == 0.95 * (F.Opacity(s.images[i]) - 1.0)
      && F.Depth(Paint(s).images[i]) - 0.1 == 0.95 * (F.Depth(s.images[i]) - 0.1)
    ensures F.Drawable(s.images[i]) && i != s.carousel.cursor ==>
      && F.Opacity(Paint(s).images[i]) == 0.95 * F.Opacity(s.images[i])
      && F.Depth(Paint(s).images[i]) + 0.1 == 0.95 * (F.Depth(s.images[i]) + 0.1)
  {
    assert F.Smoothed(s.images[i], Paint(s).images[i], i == s.carousel.cursor);
  }
}
