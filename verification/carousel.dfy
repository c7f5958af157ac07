/**
 The cursor state machine of the `CourseImage3D` component.

 The component holds one piece of state, `currentIndex`, which starts at 0 and
 indexes the list of image URLs it receives as props. Two events move it: the
 interval timer and a click on the component's surface. Both apply the same
 update `prev -> (prev + 1) % N`. For a click N is the current length of the
 list; for a tick it is the length the interval captured when it was set, which
 is the current one once the effect has re-run after the last list change.
 An image is active exactly when its position in the list equals the cursor.
 An empty list renders nothing, so no timer is armed and there is no surface to
 click: events cannot reach the cursor then.

 JavaScript numbers are modelled by `nat`: the cursor starts at 0 and the update
 only ever produces a remainder of a non-negative number by a positive length, so
 the truncating `%` of JavaScript and Dafny's Euclidean `%` agree on every value
 that can arise.
 */
module Carousel {

  /** The two sources of an advance: the 3500 ms interval and a pointer click. */
  datatype Event = Tick | Click

  /** The component's props (the URL list) together with its React state (the cursor). */
  datatype Carousel = Carousel(urls: seq<string>, cursor: nat)

  /** What one image element receives when the component renders. */
  datatype ImageProps = ImageProps(url: string, active: bool)

  /** The render result: `null` for an empty list, otherwise one image per URL. */
  datatype View = Null | Shown(images: seq<ImageProps>)

  /** First render: the cursor starts at 0, so the first image (if any) is the active one. */
  function Mount(urls: seq<string>): (c: Carousel)
    ensures c.urls == urls && c.cursor == 0
    ensures |urls| > 0 ==> ActiveIndices(Render(c)) == {0}
    ensures |urls| == 0 ==> ActiveIndices(Render(c)) == {}
  {
    var c := Carousel(urls, 0);
    ActiveImages(c);
    c
  }

  /**
   A re-render with new props: React keeps the cursor, whatever the new length,
   so the new list shows the image at the old cursor if it still exists and no
   active image otherwise.
   */
  function Resize(c: Carousel, urls: seq<string>): (r: Carousel)
    ensures r.urls == urls && r.cursor == c.cursor
    ensures c.cursor < |urls| ==> ActiveIndices(Render(r)) == {c.cursor}
    ensures c.cursor >= |urls| ==> ActiveIndices(Render(r)) == {}
  {
    var r := Carousel(urls, c.cursor);
    ActiveImages(r);
    r
  }

  /** The state update shared by the timer and the click handler. */
  function Advance(prev: nat, n: nat): (r: nat)
    requires n >= 1
    ensures r < n
    ensures prev < n - 1 ==> r == prev + 1
    ensures prev == n - 1 ==> r == 0
  {
    (prev + 1) % n
  }

  /** True when the component is mounted with a timer and a clickable surface. */
  predicate Live(c: Carousel)
  {
    |c.urls| > 0
  }

  /** The interval the effect holds: none, or one whose callback captured a list length. */
  datatype Interval = Idle | Armed(length: nat)

  /**
   The effect's interval together with the number of `setInterval` and
   `clearInterval` calls made so far.
   */
  datatype Timer = Timer(interval: Interval, started: nat, cleared: nat)

  /** Before the first render no interval exists. */
  function NoTimer(): Timer
  {
    Timer(Idle, 0, 0)
  }

  /** Every interval set has been cleared, except the one that is live. */
  predicate Balanced(t: Timer)
  {
    if t.interval.Idle? then t.started == t.cleared else t.started == t.cleared + 1
  }

  /**
   The effect after a render with a list of length `n`. An empty list returns
   before the effect is reached. Otherwise the effect re-runs only when the
   length differs from the one its live interval captured: it clears that
   interval and sets a new one that captures `n`.
   */
  function Commit(t: Timer, n: nat): (r: Timer)
    ensures n == 0 ==> r == t
    ensures n > 0 ==> r.interval == Armed(n)
    ensures Balanced(t) ==> Balanced(r)
    ensures r.started <= t.started + 1 && r.cleared <= t.cleared + 1
    ensures t.interval == Armed(n) ==> r == t
    ensures n > 0 && t.interval != Armed(n) ==> r.started == t.started + 1
    ensures n > 0 && t.interval.Armed? && t.interval.length != n ==> r.cleared == t.cleared + 1
    ensures t.interval.Idle? ==> r.cleared == t.cleared
  {
    if n == 0 then t
    else match t.interval
      case Idle => Timer(Armed(n), t.started + 1, t.cleared)
      case Armed(m) => if m == n then t else Timer(Armed(n), t.started + 1, t.cleared + 1)
  }

  /** Unmounting runs the effect's cleanup, which clears the live interval. */
  function Unmount(t: Timer): (r: Timer)
    ensures r.interval == Idle
    ensures Balanced(t) ==> r.started == r.cleared
    ensures r.started == t.started
  {
    match t.interval
    case Idle => t
    case Armed(_) => Timer(Idle, t.started, t.cleared + 1)
  }

  /** The effect after a sequence of renders, given by their list lengths. */
  function CommitAll(t: Timer, lengths: seq<nat>): (r: Timer)
    decreases |lengths|
  {
    if |lengths| == 0 then t else CommitAll(Commit(t, lengths[0]), lengths[1..])
  }

  /**
   Over any sequence of renders, at most one interval is live, and once the
   effect of a render of a non-empty list has run, the live interval holds that
   list's length. Ticks that fire before the effect runs are `StaleTick`.
   */
  lemma {:induction false} TimerTracksLength(t: Timer, lengths: seq<nat>)
    requires Balanced(t)
    ensures Balanced(CommitAll(t, lengths))
    ensures |lengths| > 0 && lengths[|lengths| - 1] > 0 ==>
      CommitAll(t, lengths).interval == Armed(lengths[|lengths| - 1])
    decreases |lengths|
  {
    if |lengths| > 0 {
      TimerTracksLength(Commit(t, lengths[0]), lengths[1..]);
      if |lengths| == 1 {
        assert CommitAll(t, lengths) == CommitAll(Commit(t, lengths[0]), []);
      } else {
        assert lengths[1..][|lengths[1..]| - 1] == lengths[|lengths| - 1];
      }
    }
  }

  /** Renders of an empty list from the start never set an interval. */
  lemma {:induction false} EmptyRendersSetNoTimer(lengths: seq<nat>)
    requires forall i :: 0 <= i < |lengths| ==> lengths[i] == 0
    ensures CommitAll(NoTimer(), lengths) == NoTimer()
    decreases |lengths|
  {
    if |lengths| > 0 {
      EmptyRendersSetNoTimer(lengths[1..]);
    }
  }

  /** After any renders and the unmount, every interval that was set has been cleared. */
  lemma NoIntervalOutlivesUnmount(lengths: seq<nat>)
    ensures Unmount(CommitAll(NoTimer(), lengths)).interval == Idle
    ensures Unmount(CommitAll(NoTimer(), lengths)).started == Unmount(CommitAll(NoTimer(), lengths)).cleared
  {
    TimerTracksLength(NoTimer(), lengths);
  }

  /**
   Delivers one event. Both events run the same update; with an empty list
   neither has a source (no timer, no surface), so the state does not change.
   */
  function Step(c: Carousel, e: Event): (r: Carousel)
    ensures r.urls == c.urls
    ensures |c.urls| == 0 ==> r == c
    ensures |c.urls| > 0 ==> r.cursor < |c.urls|
    ensures c.cursor < |c.urls| - 1 ==> r.cursor == c.cursor + 1
    ensures |c.urls| > 0 && c.cursor == |c.urls| - 1 ==> r.cursor == 0
  {
    match e
    case Tick => if Live(c) then c.(cursor := Advance(c.cursor, |c.urls|)) else c
    case Click => if Live(c) then c.(cursor := Advance(c.cursor, |c.urls|)) else c
  }

  /** Delivers a sequence of events in order. */
  function Run(c: Carousel, events: seq<Event>): (r: Carousel)
    ensures r.urls == c.urls
    decreases |events|
  {
    if |events| == 0 then c else Run(Step(c, events[0]), events[1..])
  }

  /** Renders the component: `null` when the list is empty, else one image per URL. */
  function Render(c: Carousel): (v: View)
    ensures v.Null? <==> |c.urls| == 0
    ensures v.Shown? ==> |v.images| == |c.urls|
    ensures v.Shown? ==> forall i :: 0 <= i < |v.images| ==> v.images[i].url == c.urls[i]
    ensures v.Shown? ==> forall i :: 0 <= i < |v.images| ==> (v.images[i].active <==> i == c.cursor)
  {
    if |c.urls| == 0 then Null
    else Shown(seq(|c.urls|, i requires 0 <= i < |c.urls| => ImageProps(c.urls[i], i == c.cursor)))
  }

  /** The positions of the images rendered active. */
  function ActiveIndices(v: View): set<int>
  {
    match v
    case Null => {}
    case Shown(images) => set i | 0 <= i < |images| && images[i].active
  }

  // ---------------------------------------------------------------------------
  // Properties
  // ---------------------------------------------------------------------------

  /** The timer and the click are the same transition. */
  lemma TickIsClick(c: Carousel)
    ensures Step(c, Tick) == Step(c, Click)
    ensures Live(c) ==> Step(c, Tick).cursor == (c.cursor + 1) % |c.urls|
  {
  }

  /** A non-zero multiple of a positive number is at least that number away from 0. */
  lemma MultipleGap(d: int, n: int)
    requires n >= 1
    ensures d == 0 || d * n >= n || d * n <= -n
  {
    if d >= 1 {
      assert d * n == (d - 1) * n + n;
      assert (d - 1) * n >= 0;
    } else if d <= -1 {
      assert d * n == (d + 1) * n - n;
      assert (d + 1) * n <= 0;
    }
  }

  /** A remainder is determined by any division with a remainder in range. */
  lemma ModUnique(x: int, q: int, r: int, n: int)
    requires n >= 1 && 0 <= r < n && x == q * n + r
    ensures x % n == r
  {
    var q', r' := x / n, x % n;
    assert x == q' * n + r' && 0 <= r' < n;
    var d := q - q';
    assert d * n == r' - r by { assert d * n == q * n - q' * n; }
    MultipleGap(d, n);
  }

  /** Taking a remainder first does not change a later remainder. */
  lemma ModAddLeft(a: nat, b: nat, n: nat)
    requires n >= 1
    ensures (a % n + b) % n == (a + b) % n
  {
    var q, r := (a % n + b) / n, (a % n + b) % n;
    assert a % n + b == q * n + r;
    assert a + b == (a / n + q) * n + r by {
      assert a == (a / n) * n + a % n;
      assert (a / n + q) * n == (a / n) * n + q * n;
    }
    ModUnique(a + b, a / n + q, r, n);
  }

  /** From a cursor in range, k events of any kind add k to the cursor modulo N. */
  lemma {:induction false} RunAddsCount(c: Carousel, events: seq<Event>)
    requires |c.urls| >= 1 && c.cursor < |c.urls|
    ensures Run(c, events).cursor == (c.cursor + |events|) % |c.urls|
    decreases |events|
  {
    var n := |c.urls|;
    if |events| == 0 {
      ModUnique(c.cursor, 0, c.cursor, n);
    } else {
      var c' := Step(c, events[0]);
      var k := |events| - 1;
      assert Run(c, events) == Run(c', events[1..]);
      assert c'.cursor == (c.cursor + 1) % n;
      RunAddsCount(c', events[1..]);
      assert Run(c', events[1..]).cursor == ((c.cursor + 1) % n + k) % n;
      ModAddLeft(c.cursor + 1, k, n);
      assert c.cursor + 1 + k == c.cursor + |events|;
    }
  }

  /** Starting from the mounted state, the cursor after k events is k mod N. */
  lemma CursorIsEventCount(urls: seq<string>, events: seq<Event>)
    requires |urls| >= 1
    ensures Run(Mount(urls), events).cursor == |events| % |urls|
  {
    RunAddsCount(Mount(urls), events);
  }

  /** Only the number of events matters, not which mix of ticks and clicks. */
  lemma {:induction false} OnlyCountMatters(c: Carousel, e1: seq<Event>, e2: seq<Event>)
    requires |e1| == |e2|
    ensures Run(c, e1) == Run(c, e2)
    decreases |e1|
  {
    if |e1| > 0 {
      TickIsClick(c);
      assert Step(c, e1[0]) == Step(c, e2[0]);
      OnlyCountMatters(Step(c, e1[0]), e1[1..], e2[1..]);
    }
  }

  /** The end-to-end scenario with three images: click, tick, click give 1, 2, 0. */
  lemma ThreeImageScenario()
    ensures var c := Mount(["a.png", "b.png", "c.png"]);
      && Run(c, [Click]).cursor == 1
      && Run(c, [Click, Tick]).cursor == 2
      && Run(c, [Click, Tick, Click]).cursor == 0
  {
    var c := Mount(["a.png", "b.png", "c.png"]);
    assert Run(c, [Click]) == Run(Step(c, Click), []);
    assert Run(c, [Click, Tick]) == Run(Step(Step(c, Click), Tick), []) by {
      assert [Click, Tick][1..] == [Tick];
      assert [Tick][1..] == [];
    }
    assert Run(c, [Click, Tick, Click]) == Run(Step(Step(Step(c, Click), Tick), Click), []) by {
      assert [Click, Tick, Click][1..] == [Tick, Click];
      assert [Tick, Click][1..] == [Click];
      assert [Click][1..] == [];
    }
  }

  /** An empty list renders nothing, leaves the timer as it is, and ignores every event. */
  lemma {:induction false} EmptyListIsInert(c: Carousel, t: Timer, events: seq<Event>)
    requires |c.urls| == 0
    ensures Render(c) == Null
    ensures Commit(t, |c.urls|) == t
    ensures ActiveIndices(Render(c)) == {}
    ensures Run(c, events) == c
    decreases |events|
  {
    if |events| > 0 {
      EmptyListIsInert(Step(c, events[0]), t, events[1..]);
    }
  }

  /**
   The active-image invariant: with the cursor in range exactly the image at
   the cursor is active; with the cursor past the end (after the list shrank)
   no image is.
   */
  lemma ActiveImages(c: Carousel)
    ensures c.cursor < |c.urls| ==> ActiveIndices(Render(c)) == {c.cursor}
    ensures c.cursor >= |c.urls| ==> ActiveIndices(Render(c)) == {}
  {
    var v := Render(c);
    if v.Shown? {
      var s := ActiveIndices(v);
      forall i | i in s ensures i == c.cursor {
      }
      if c.cursor < |c.urls| {
        assert v.images[c.cursor].active;
        assert c.cursor in s;
      }
    }
  }

  /**
   A list that shrinks below the cursor leaves no image active until the next
   event, which brings the cursor back in range. This assumes the interval's
   effect has re-run with the new length; see `StaleTick` for a tick before it.
   */
  lemma ShrinkThenAdvance(c: Carousel, urls: seq<string>, e: Event)
    requires 1 <= |urls| <= c.cursor
    ensures ActiveIndices(Render(Resize(c, urls))) == {}
    ensures Step(Resize(c, urls), e).cursor < |urls|
    ensures ActiveIndices(Render(Step(Resize(c, urls), e))) == {Step(Resize(c, urls), e).cursor}
  {
    ActiveImages(Resize(c, urls));
    ActiveImages(Step(Resize(c, urls), e));
  }

  /**
   A tick from an interval set by an earlier render. Its callback computes the
   next cursor with the length `captured` of the list it closed over, not with
   the current one. Once the effect has re-run, `captured` is the current
   length and the tick is `Step`.
   */
  function StaleTick(c: Carousel, captured: nat): (r: Carousel)
    requires captured >= 1
    ensures r.urls == c.urls
    ensures r.cursor < captured
    ensures c.cursor < captured - 1 ==> r.cursor == c.cursor + 1
    ensures c.cursor == captured - 1 ==> r.cursor == 0
    ensures captured == |c.urls| ==> r == Step(c, Tick)
  {
    c.(cursor := Advance(c.cursor, captured))
  }

  /**
   Whenever the interval captured a longer list and the cursor is not on the
   last captured position, a stale tick from the last image of the current list
   or beyond leaves no image active.
   */
  lemma StaleTickPastCurrentEnd(c: Carousel, captured: nat)
    requires 1 <= |c.urls| <= c.cursor + 1 < captured
    ensures StaleTick(c, captured).cursor == c.cursor + 1
    ensures ActiveIndices(Render(StaleTick(c, captured))) == {}
  {
    ActiveImages(StaleTick(c, captured));
  }

  /**
   Between a render that shrinks the list and the effect's cleanup, a tick of
   the old interval can still leave no image active: three images with the
   cursor at 1 shrink to two, and the stale tick moves the cursor to 2. A tick
   with the current length, as `Step` computes it, moves it to 0.
   */
  lemma StaleTickAfterShrink()
    ensures var c := Resize(Carousel(["a.png", "b.png", "c.png"], 1), ["a.png", "b.png"]);
      && StaleTick(c, 3).cursor == 2
      && ActiveIndices(Render(StaleTick(c, 3))) == {}
      && Step(c, Tick).cursor == 0
      && ActiveIndices(Render(Step(c, Tick))) == {0}
  {
    var c := Resize(Carousel(["a.png", "b.png", "c.png"], 1), ["a.png", "b.png"]);
    ActiveImages(StaleTick(c, 3));
    ActiveImages(Step(c, Tick));
  }

  /** In the mounted component exactly one image is active after any run of events. */
  lemma ExactlyOneActiveAfterEvents(urls: seq<string>, events: seq<Event>)
    requires |urls| >= 1
    ensures var c := Run(Mount(urls), events);
      ActiveIndices(Render(c)) == {|events| % |urls|}
  {
    CursorIsEventCount(urls, events);
    ActiveImages(Run(Mount(urls), events));
  }
}
