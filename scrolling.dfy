/**
 * Smooth scrolling to in-page anchors, and the navigation bar's background
 * as a function of the scroll offset.
 */
module Scrolling {
  import opened Wrappers

  /** Gap left between the bottom of the navigation bar and the target. */
  const ScrollGap := 20

  /** An element an in-page href can name: its id and its offsetTop. */
  datatype Target = Target(id: string, offsetTop: int)

  /** `document.querySelector(href)` for an href of the form '#id': the
      first element, in document order, with that id. */
  function FindTarget(targets: seq<Target>, href: string): (r: Option<nat>)
    ensures r.Some? ==>
      && r.value < |targets| && "#" + targets[r.value].id == href
      && forall j :: 0 <= j < r.value ==> "#" + targets[j].id != href
    ensures r.None? ==> forall j :: 0 <= j < |targets| ==> "#" + targets[j].id != href
  {
    if |targets| == 0 then None
    else if "#" + targets[0].id == href then Some(0)
    else match FindTarget(targets[1..], href)
      case None => None
      case Some(i) => Some(i + 1)
  }

  datatype ScrollRequest = NoScroll | ScrollTo(top: int)

  /** The scroll offset that puts an element whose offsetTop is `offsetTop`
      just below a navigation bar `navHeight` high. */
  function ScrollTarget(offsetTop: int, navHeight: int): int {
    offsetTop - navHeight - ScrollGap
  }

  /** The click listener of a nav link and of the call-to-action link. It
      always suppresses the browser's own jump; it asks for a scroll only
      when the href names an element. */
  function SmoothScroll(targets: seq<Target>, href: string, navHeight: int): ScrollRequest {
    match FindTarget(targets, href)
    case None => NoScroll
    case Some(i) => ScrollTo(ScrollTarget(targets[i].offsetTop, navHeight))
  }

  /** A missing target means no scroll is requested; otherwise the requested
      scroll offset would put the first element with that id exactly
      `ScrollGap` below the bottom of the navigation bar. */
  lemma SmoothScrollTarget(targets: seq<Target>, href: string, navHeight: int)
    ensures SmoothScroll(targets, href, navHeight) == NoScroll <==>
      forall j :: 0 <= j < |targets| ==> "#" + targets[j].id != href
    ensures SmoothScroll(targets, href, navHeight).ScrollTo? ==>
      exists i :: 0 <= i < |targets| && "#" + targets[i].id == href
        && (forall j :: 0 <= j < i ==> "#" + targets[j].id != href)
        && targets[i].offsetTop - SmoothScroll(targets, href, navHeight).top == navHeight + ScrollGap
  {
    match FindTarget(targets, href)
    case None =>
    case Some(i) =>
      assert "#" + targets[i].id == href;
  }

  // ----- the navigation bar's background -----

  /** rgba(250, 247, 240, 0.95) once scrolled, var(--warm-white) at the top. */
  datatype Background = ScrolledBackground | WarmWhite

  /** Past this scroll offset the navigation bar takes its scrolled look. */
  const ScrolledThreshold := 50

  /** handleNavbarBackground. */
  function NavbarBackground(scrollY: int): Background {
    if scrollY > ScrolledThreshold then ScrolledBackground else WarmWhite
  }

  /** The scrolled look holds exactly above offset 50: at 50 the bar is
      still warm white, at 51 it is scrolled, and once the scrolled look
      appears, scrolling further down keeps it. */
  lemma NavbarBackgroundThreshold(scrollY: int, further: int)
    requires scrollY <= further
    ensures NavbarBackground(ScrolledThreshold) == WarmWhite
    ensures NavbarBackground(ScrolledThreshold + 1) == ScrolledBackground
    ensures NavbarBackground(scrollY) == ScrolledBackground ==> NavbarBackground(further) == ScrolledBackground
    ensures NavbarBackground(scrollY) == ScrolledBackground <==> scrollY > ScrolledThreshold
  {
  }
}
