/**
 * Active-link highlighting (updateActiveNavLink): the last section whose
 * vertical extent holds the probe line names the anchor, every nav link
 * loses 'active', and the first link whose href is that anchor gains it.
 */
module ActiveLink {
  import opened Wrappers

  /** A `section` element: its id attribute (possibly absent), offsetTop and
      offsetHeight. */
  datatype Section = Section(id: Option<string>, top: int, height: int)

  /** `'#' + section.getAttribute('id')`: an absent id concatenates as the
      text "null". */
  function Anchor(id: Option<string>): string {
    "#" + match id
          case Some(s) => s
          case None => "null"
  }

  /** The probe line sits this far below the bottom of the navigation bar. */
  const ProbeOffset := 100

  function ScrollProbe(scrollY: int, navHeight: int): int {
    scrollY + navHeight + ProbeOffset
  }

  /** The half-open extent [top, top + height) holds the probe. */
  predicate Covers(s: Section, probe: int) {
    s.top <= probe < s.top + s.height
  }

  /** The last section, in document order, that covers the probe. */
  function LastCovering(sections: seq<Section>, probe: int): (r: Option<nat>)
    ensures r.Some? ==>
      && r.value < |sections| && Covers(sections[r.value], probe)
      && forall j :: r.value < j < |sections| ==> !Covers(sections[j], probe)
    ensures r.None? ==> forall j :: 0 <= j < |sections| ==> !Covers(sections[j], probe)
  {
    if |sections| == 0 then None
    else if Covers(sections[|sections| - 1], probe) then Some(|sections| - 1)
    else LastCovering(sections[..|sections| - 1], probe)
  }

  /** The value `activeSection` ends with: '' when no section covers the
      probe, else the anchor of the last one that does. */
  function SelectedAnchor(sections: seq<Section>, probe: int): string {
    match LastCovering(sections, probe)
    case None => ""
    case Some(i) => Anchor(sections[i].id)
  }

  /** Anchors are never empty, so the empty selection means exactly that no
      section covers the probe. */
  lemma SelectedAnchorEmptyIffUncovered(sections: seq<Section>, probe: int)
    ensures SelectedAnchor(sections, probe) == "" <==>
      forall j :: 0 <= j < |sections| ==> !Covers(sections[j], probe)
  {
    match LastCovering(sections, probe)
    case None =>
    case Some(i) =>
      assert Anchor(sections[i].id)[0] == '#';
  }

  /** No two sections' extents overlap. */
  predicate NonOverlapping(sections: seq<Section>) {
    forall i, j :: 0 <= i < j < |sections| ==>
      sections[i].top + sections[i].height <= sections[j].top
      || sections[j].top + sections[j].height <= sections[i].top
  }

  /** When the extents do not overlap, the selected section is the one
      section that covers the probe. */
  lemma UniqueCoveringSection(sections: seq<Section>, probe: int, i: nat)
    requires NonOverlapping(sections)
    requires i < |sections| && Covers(sections[i], probe)
    ensures LastCovering(sections, probe) == Some(i)
    ensures SelectedAnchor(sections, probe) == Anchor(sections[i].id)
  {
  }

  /** The loop over the sections, overwriting the candidate on each hit. */
  method ActiveSection(sections: seq<Section>, probe: int) returns (activeSection: string)
    ensures activeSection == SelectedAnchor(sections, probe)
  {
    activeSection := "";
    for n := 0 to |sections|
      invariant activeSection == SelectedAnchor(sections[..n], probe)
    {
      assert sections[..n + 1][..n] == sections[..n];
      var sectionTop := sections[n].top;
      var sectionBottom := sectionTop + sections[n].height;
      if probe >= sectionTop && probe < sectionBottom {
        activeSection := Anchor(sections[n].id);
      }
    }
    assert sections[..|sections|] == sections;
  }

  /** Link `k` is the first, in document order, whose href is `h`: the one
      `querySelector` returns. */
  predicate IsFirstLink(hrefs: seq<string>, k: int, h: string) {
    && 0 <= k < |hrefs| && hrefs[k] == h
    && forall j :: 0 <= j < k ==> hrefs[j] != h
  }

  /** The nav links: their href attributes, in document order, and whether
      each carries 'active'. */
  class NavLinks {
    const hrefs: seq<string>
    const active: array<bool>

    ghost predicate Valid()
      reads this
    {
      active.Length == |hrefs|
    }

    ghost predicate AtMostOneActive()
      reads this, active
    {
      forall i, j :: 0 <= i < active.Length && 0 <= j < active.Length && active[i] && active[j] ==> i == j
    }

    constructor (hrefs: seq<string>, initiallyActive: seq<bool>)
      requires |initiallyActive| == |hrefs|
      ensures Valid() && fresh(active)
      ensures this.hrefs == hrefs && active[..] == initiallyActive
    {
      this.hrefs := hrefs;
      active := new bool[|hrefs|](i requires 0 <= i < |hrefs| => initiallyActive[i]);
    }

    /** `document.querySelector('.nav-link[href="' + h + '"]')`. */
    method FindLink(h: string) returns (idx: Option<nat>)
      ensures idx.Some? ==> IsFirstLink(hrefs, idx.value, h)
      ensures idx.None? ==> forall j :: 0 <= j < |hrefs| ==> hrefs[j] != h
    {
      var i := 0;
      while i < |hrefs|
        invariant i <= |hrefs|
        invariant forall j :: 0 <= j < i ==> hrefs[j] != h
      {
        if hrefs[i] == h {
          return Some(i);
        }
        i := i + 1;
      }
      return None;
    }

    /** Removes 'active' from every link. */
    method ClearActive()
      modifies active
      ensures forall i :: 0 <= i < active.Length ==> !active[i]
    {
      for i := 0 to active.Length
        invariant forall j :: 0 <= j < i ==> !active[j]
      {
        active[i] := false;
      }
    }

    /** updateActiveNavLink: afterwards exactly the first link whose href is
        the selected anchor is active, and no other. */
    method UpdateActiveNavLink(sections: seq<Section>, scrollY: int, navHeight: int)
      requires Valid()
      modifies active
      ensures Valid()
      ensures forall k :: 0 <= k < active.Length ==>
        var anchor := SelectedAnchor(sections, ScrollProbe(scrollY, navHeight));
        (active[k] <==> anchor != "" && IsFirstLink(hrefs, k, anchor))
      ensures AtMostOneActive()
    {
      var scrollPosition := ScrollProbe(scrollY, navHeight);
      var activeSection := ActiveSection(sections, scrollPosition);
      ClearActive();
      if activeSection != "" {
        var activeLink := FindLink(activeSection);
        if activeLink.Some? {
          active[activeLink.value] := true;
        }
      }
    }
  }
}
