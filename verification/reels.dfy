/** Index navigation in the full-screen reels view: wheel, touch and key
    events move the current index over a list of `len` videos, and each slide
    is placed above, on or below the screen relative to it. The 800 ms timer
    that clears the scrolling gate is not modelled; the gate is a boolean. */
module Reels {

  /** The current index and the scrolling gate that blocks wheel and touch
      events while a transition runs. */
  datatype Nav = Nav(index: int, scrolling: bool)

  /** The smallest swipe, in pixels, that moves the index. */
  const MinSwipe: real := 50.0

  /** The index update shared by wheel and touch events: one step in
      `direction`, clamped to the list. An empty list yields -1 for a
      forward step. */
  function Clamp(prev: int, direction: int, len: nat): (r: int)
    requires direction == 1 || direction == -1
    ensures prev + direction < 0 ==> r == 0
    ensures 0 <= prev + direction < len ==> r == prev + direction
    ensures prev + direction >= 0 && prev + direction >= len ==> r == len - 1
  {
    var next := prev + direction;
    if next < 0 then 0 else if next >= len then len - 1 else next
  }

  /** `handleScroll`: ignored while the gate is set; otherwise the gate is set
      and the index moves down for a positive `deltaY` and up for any other. */
  function Wheel(nav: Nav, deltaY: real, len: nat): (r: Nav)
    ensures nav.scrolling ==> r == nav
    ensures !nav.scrolling ==> r.scrolling && r.index == Clamp(nav.index, if deltaY > 0.0 then 1 else -1, len)
  {
    if nav.scrolling then nav
    else Nav(Clamp(nav.index, if deltaY > 0.0 then 1 else -1, len), true)
  }

  function Abs(x: real): real
  {
    if x < 0.0 then -x else x
  }

  /** `handleTouchMove`: a move of at most 50 pixels from the touch start does
      nothing, not even set the gate; past that it acts like a wheel event, an
      upward swipe (start below the current point) moving down the list. */
  function Touch(nav: Nav, startY: real, currentY: real, len: nat): (r: Nav)
    ensures Abs(startY - currentY) <= MinSwipe || nav.scrolling ==> r == nav
    ensures Abs(startY - currentY) > MinSwipe && !nav.scrolling ==>
      r.scrolling && r.index == Clamp(nav.index, if startY > currentY then 1 else -1, len)
  {
    var diff := startY - currentY;
    if Abs(diff) <= MinSwipe || nav.scrolling then nav
    else Nav(Clamp(nav.index, if diff > 0.0 then 1 else -1, len), true)
  }

  /** The window key handler: "ArrowDown" and " " step down unless at the last
      video, "ArrowUp" steps up unless at the first, any other key does
      nothing. The scrolling gate plays no part. */
  function Key(nav: Nav, key: string, len: nat): (r: Nav)
    ensures r.scrolling == nav.scrolling
    ensures (key == "ArrowDown" || key == " ") && nav.index < len - 1 ==> r.index == nav.index + 1
    ensures (key == "ArrowDown" || key == " ") && nav.index >= len - 1 ==> r.index == nav.index
    ensures key == "ArrowUp" && nav.index > 0 ==> r.index == nav.index - 1
    ensures key == "ArrowUp" && nav.index <= 0 ==> r.index == nav.index
    ensures key != "ArrowDown" && key != " " && key != "ArrowUp" ==> r == nav
  {
    if key == "ArrowDown" || key == " " then
      nav.(index := if nav.index < len - 1 then nav.index + 1 else nav.index)
    else if key == "ArrowUp" then
      nav.(index := if nav.index > 0 then nav.index - 1 else nav.index)
    else nav
  }

  /** Where a slide sits: on screen, one screen above (-100%), or one below (+100%). */
  datatype Position = Above | OnScreen | Below

  function SlidePosition(slide: int, current: int): (r: Position)
    ensures r == OnScreen <==> slide == current
    ensures r == Above <==> slide < current
    ensures r == Below <==> slide > current
  {
    if slide == current then OnScreen else if slide < current then Above else Below
  }

  /** The one navigation event the view reacts to. */
  datatype Event = WheelEvent(deltaY: real) | TouchEvent(startY: real, currentY: real) | KeyEvent(key: string)

  function Apply(nav: Nav, e: Event, len: nat): Nav
  {
    match e
    case WheelEvent(d) => Wheel(nav, d, len)
    case TouchEvent(s, c) => Touch(nav, s, c, len)
    case KeyEvent(k) => Key(nav, k, len)
  }

  // ------------------------------------------------------------- properties

  predicate InRange(i: int, len: nat)
  {
    0 <= i < len
  }

  /** On a non-empty list, every event keeps an in-range index in range and
      moves it by at most one. */
  lemma {:induction false} StepStaysInRange(nav: Nav, e: Event, len: nat)
    requires len > 0 && InRange(nav.index, len)
    ensures InRange(Apply(nav, e, len).index, len)
    ensures -1 <= Apply(nav, e, len).index - nav.index <= 1
  {
  }

  /** Any run of events from an in-range index stays in range, and moves the
      index by at most the number of events. */
  lemma {:induction false} RunStaysInRange(nav: Nav, es: seq<Event>, len: nat)
    requires len > 0 && InRange(nav.index, len)
    ensures InRange(Run(nav, es, len).index, len)
    ensures -|es| <= Run(nav, es, len).index - nav.index <= |es|
    decreases |es|
  {
    if es != [] {
      StepStaysInRange(nav, es[0], len);
      RunStaysInRange(Apply(nav, es[0], len), es[1..], len);
    }
  }

  function Run(nav: Nav, es: seq<Event>, len: nat): Nav
    decreases |es|
  {
    if es == [] then nav else Run(Apply(nav, es[0], len), es[1..], len)
  }

  /** A zero `deltaY` counts as an upward scroll. */
  lemma ZeroDeltaMovesUp(nav: Nav, len: nat)
    requires !nav.scrolling && len > 0 && 0 < nav.index < len
    ensures Wheel(nav, 0.0, len).index == nav.index - 1
  {
  }

  /** While the gate is set, a burst of wheel events leaves the navigation
      unchanged. */
  lemma {:induction false} GateAbsorbsBurst(nav: Nav, ds: seq<real>, len: nat)
    requires nav.scrolling
    ensures WheelBurst(nav, ds, len) == nav
    decreases |ds|
  {
    if ds != [] {
      GateAbsorbsBurst(Wheel(nav, ds[0], len), ds[1..], len);
    }
  }

  function WheelBurst(nav: Nav, ds: seq<real>, len: nat): Nav
    decreases |ds|
  {
    if ds == [] then nav else WheelBurst(Wheel(nav, ds[0], len), ds[1..], len)
  }

  /** For an in-range current index, exactly one slide is on screen, and the
      slides before it sit above and those after it below. */
  lemma {:induction false} OneSlideOnScreen(current: int, len: nat)
    requires InRange(current, len)
    ensures forall i :: 0 <= i < len ==> (SlidePosition(i, current) == OnScreen <==> i == current)
    ensures forall i, j :: 0 <= i < j < len && SlidePosition(j, current) == Above ==> SlidePosition(i, current) == Above
  {
  }
}
