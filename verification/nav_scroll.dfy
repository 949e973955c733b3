/**
 The navigation bar's scroll handler. Past a small offset the bar carries the `scrolled`
 class; on wide viewports it slides out of view while the reader scrolls down far into the
 page and comes back on any other scroll. The handler remembers the last position it saw.
 */
module NavScroll {

  const ScrolledAfter: int := 100
  const HideAfter: int := 500
  /** Viewports strictly wider than this count as desktop. */
  const DesktopAbove: int := 768

  /** `scrolled`: the class is present; `hidden`: the transform is `translateY(-100%)` rather than `translateY(0)`. */
  datatype Nav = Nav(scrolled: bool, hidden: bool, lastScrollY: int)

  /** Before the first scroll event: no class, no transform, and the position read at load time. */
  function Init(scrollY: int): Nav {
    Nav(false, false, scrollY)
  }

  predicate IsDesktop(innerWidth: int) {
    innerWidth > DesktopAbove
  }

  /** One scroll event at position `scrollY` with viewport width `innerWidth`. */
  function OnScroll(nav: Nav, scrollY: int, innerWidth: int): (r: Nav)
    ensures r.scrolled <==> scrollY > 100
    ensures innerWidth > 768 ==> (r.hidden <==> scrollY > nav.lastScrollY && scrollY > 500)
    ensures innerWidth <= 768 ==> r.hidden == nav.hidden
    ensures r.lastScrollY == scrollY
  {
    var hidden :=
      if IsDesktop(innerWidth) then scrollY > nav.lastScrollY && scrollY > HideAfter
      else nav.hidden;
    Nav(scrollY > ScrolledAfter, hidden, scrollY)
  }

  /** On desktop a hidden bar is always a scrolled one. */
  lemma DesktopHiddenIsScrolled(nav: Nav, scrollY: int, innerWidth: int)
    requires IsDesktop(innerWidth)
    ensures OnScroll(nav, scrollY, innerWidth).hidden ==> OnScroll(nav, scrollY, innerWidth).scrolled
  {
  }

  /** On desktop nothing but the remembered position matters: the previous flags are overwritten. */
  lemma DesktopForgetsFlags(a: Nav, b: Nav, scrollY: int, innerWidth: int)
    requires IsDesktop(innerWidth) && a.lastScrollY == b.lastScrollY
    ensures OnScroll(a, scrollY, innerWidth) == OnScroll(b, scrollY, innerWidth)
  {
  }

  /** Scrolling up, or staying put, always brings the bar back on desktop. */
  lemma ScrollingUpShows(nav: Nav, scrollY: int, innerWidth: int)
    requires IsDesktop(innerWidth) && scrollY <= nav.lastScrollY
    ensures !OnScroll(nav, scrollY, innerWidth).hidden
  {
  }

  /** A repeated event at the same position shows the bar on desktop, so the handler is not idempotent once it hides the bar. */
  lemma RepeatedEventShows(nav: Nav, scrollY: int, innerWidth: int)
    requires IsDesktop(innerWidth)
    ensures !OnScroll(OnScroll(nav, scrollY, innerWidth), scrollY, innerWidth).hidden
    ensures OnScroll(OnScroll(nav, scrollY, innerWidth), scrollY, innerWidth).scrolled
        == OnScroll(nav, scrollY, innerWidth).scrolled
  {
  }

  /** A scroll event: the position and the viewport width at the time. */
  datatype Event = Event(scrollY: int, innerWidth: int)

  function Replay(nav: Nav, events: seq<Event>): Nav
    decreases |events|
  {
    if |events| == 0 then nav
    else Replay(OnScroll(nav, events[0].scrollY, events[0].innerWidth), events[1..])
  }

  /**
   After any sequence of events the bar reflects the last one: the class follows the last
   position, and if the last event came on desktop the bar is hidden exactly when that
   event moved down, past the hiding threshold, from the position seen before it.
   */
  lemma {:induction false} ReplayReflectsLastEvent(nav: Nav, events: seq<Event>)
    requires |events| >= 1
    ensures var r := Replay(nav, events);
      var last := events[|events| - 1];
      var before := if |events| == 1 then nav.lastScrollY else events[|events| - 2].scrollY;
      && r.lastScrollY == last.scrollY
      && (r.scrolled <==> last.scrollY > 100)
      && (IsDesktop(last.innerWidth) ==> (r.hidden <==> last.scrollY > before && last.scrollY > 500))
    decreases |events|
  {
    if |events| > 1 {
      var next := OnScroll(nav, events[0].scrollY, events[0].innerWidth);
      ReplayReflectsLastEvent(next, events[1..]);
      assert events[1..][|events| - 2] == events[|events| - 1];
      if |events| > 2 {
        assert events[1..][|events| - 3] == events[|events| - 2];
      }
    }
  }

  /** While no event goes past the hiding threshold, a shown bar stays shown, on any viewport. */
  lemma {:induction false} ShownNearTop(nav: Nav, events: seq<Event>)
    requires !nav.hidden
    requires forall i :: 0 <= i < |events| ==> events[i].scrollY <= 500
    ensures !Replay(nav, events).hidden
    decreases |events|
  {
    if |events| > 0 {
      ShownNearTop(OnScroll(nav, events[0].scrollY, events[0].innerWidth), events[1..]);
    }
  }

  /** From page load the bar stays shown until some event goes past the hiding threshold. */
  lemma ShownFromLoad(scrollY: int, events: seq<Event>)
    requires forall i :: 0 <= i < |events| ==> events[i].scrollY <= 500
    ensures !Replay(Init(scrollY), events).hidden
    ensures Replay(Init(scrollY), events).scrolled ==> |events| > 0 && events[|events| - 1].scrollY > 100
  {
    ShownNearTop(Init(scrollY), events);
    if |events| > 0 {
      ReplayReflectsLastEvent(Init(scrollY), events);
    }
  }

}
