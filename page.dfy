/**
 * The page's listeners that reach more than one of the parts above: the
 * scroll handler's per-frame work, and the clicks on a nav link and on the
 * call-to-action link, each of which reaches several listeners.
 */
module PageBehaviour {
  import Navigation
  import ActiveLink
  import Scrolling

  class Page {
    const menu: Navigation.NavMenu
    const links: ActiveLink.NavLinks
    var background: Scrolling.Background

    ghost predicate Valid()
      reads this, links
    {
      links.Valid()
    }

    constructor (menu: Navigation.NavMenu, links: ActiveLink.NavLinks, background: Scrolling.Background)
      requires links.Valid()
      ensures Valid()
      ensures this.menu == menu && this.links == links && this.background == background
    {
      this.menu := menu;
      this.links := links;
      this.background := background;
    }

    /** The animation-frame callback of the scroll handler: the active link
        and the navigation bar's background, both from the same offset. */
    method OnScrollFrame(sections: seq<ActiveLink.Section>, scrollY: int, navHeight: int)
      requires Valid()
      modifies this, links.active
      ensures Valid()
      ensures background == Scrolling.NavbarBackground(scrollY)
      ensures forall k :: 0 <= k < links.active.Length ==>
        var anchor := ActiveLink.SelectedAnchor(sections, ActiveLink.ScrollProbe(scrollY, navHeight));
        (links.active[k] <==> anchor != "" && ActiveLink.IsFirstLink(links.hrefs, k, anchor))
      ensures links.AtMostOneActive()
    {
      links.UpdateActiveNavLink(sections, scrollY, navHeight);
      background := Scrolling.NavbarBackground(scrollY);
    }

    /** A click on nav link `k`: its closing listener, its smooth-scroll
        listener, then the document's click listener (a nav link is inside
        the menu, so that one does nothing). */
    method OnNavLinkClick(k: nat, targets: seq<Scrolling.Target>, navHeight: int)
      returns (scroll: Scrolling.ScrollRequest)
      requires Valid() && k < |links.hrefs|
      modifies menu
      ensures menu.State() == Navigation.Closed
      ensures scroll == Scrolling.SmoothScroll(targets, links.hrefs[k], navHeight)
    {
      menu.OnNavLinkClick();
      scroll := Scrolling.SmoothScroll(targets, links.hrefs[k], navHeight);
      menu.OnDocumentClick(true, false);
    }

    /** A click on the call-to-action link, taken to lie outside the menu and
        the hamburger: its smooth-scroll listener, then the document's click
        listener, which closes an open menu. */
    method OnCtaClick(href: string, targets: seq<Scrolling.Target>, navHeight: int)
      returns (scroll: Scrolling.ScrollRequest)
      modifies menu
      ensures menu.State() == Navigation.Step(old(menu.State()), Navigation.Click(Navigation.Outside))
      ensures scroll == Scrolling.SmoothScroll(targets, href, navHeight)
    {
      scroll := Scrolling.SmoothScroll(targets, href, navHeight);
      menu.OnDocumentClick(false, false);
    }
  }
}
