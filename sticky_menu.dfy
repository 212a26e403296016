/**
 * initStickyMenuAndActiveNavigation: the hero menu becomes fixed once the page is scrolled
 * past its original position, and the link of the section being read gets `active`.
 * Geometry (scrollTop, offsetTop, offsetHeight) arrives as integers with each event.
 */
module StickyMenu {
  import opened Wrappers
  import opened ClassFlags
  import Strings

  /** A section getSections found: the element id, its offsetTop and the position of the
      menu link that points to it. */
  datatype Section = Section(id: string, top: int, link: nat)

  /** A link with this href attribute points to a section on the page: the href starts
      with '#' and names an element id present in `doc` (element id to offsetTop). A bare
      "#" names the empty id, which getElementById never finds. */
  predicate Anchored(href: Option<string>, doc: map<string, int>)
  {
    href.Some? && Strings.StartsWith(href.value, "#") && |href.value| > 1 && href.value[1..] in doc
  }

  /** The section that link l, with this href, points to. */
  function SectionFor(href: Option<string>, doc: map<string, int>, l: nat): Section
    requires Anchored(href, doc)
  {
    var id := href.value[1..];
    Section(id, doc[id], l)
  }

  /** getSections: the sections of the links, in link order, skipping links without an
      anchor href or whose target is missing. */
  function SectionsOf(links: seq<Option<string>>, doc: map<string, int>): (secs: seq<Section>)
    ensures forall j :: 0 <= j < |secs| ==>
      secs[j].link < |links| && Anchored(links[secs[j].link], doc)
      && secs[j] == SectionFor(links[secs[j].link], doc, secs[j].link)
    ensures forall j, k :: 0 <= j < k < |secs| ==> secs[j].link < secs[k].link
  {
    if links == [] then []
    else
      var n := |links|;
      var prefix := SectionsOf(links[..n - 1], doc);
      assert forall l :: 0 <= l < n - 1 ==> links[..n - 1][l] == links[l];
      if Anchored(links[n - 1], doc) then prefix + [SectionFor(links[n - 1], doc, n - 1)] else prefix
  }

  /** The loop of updateActiveMenuItem: the last section, in order, whose top is at most
      `limit`; None when none is. */
  function LastQualifying(secs: seq<Section>, limit: int): (r: Option<nat>)
    ensures r.Some? ==> r.value < |secs| && secs[r.value].top <= limit
    ensures r.Some? ==> forall j :: r.value < j < |secs| ==> secs[j].top > limit
    ensures r.None? <==> forall j :: 0 <= j < |secs| ==> secs[j].top > limit
  {
    if secs == [] then None
    else if secs[|secs| - 1].top <= limit then Some(|secs| - 1)
    else LastQualifying(secs[..|secs| - 1], limit)
  }

  /** The link that should be active, stated over the links themselves: the last link, in
      link order, that points to a section whose top is at most `limit`. */
  function LastLinkWithin(links: seq<Option<string>>, doc: map<string, int>, limit: int): (r: Option<nat>)
    ensures r.Some? ==> r.value < |links| && Anchored(links[r.value], doc)
                        && SectionFor(links[r.value], doc, r.value).top <= limit
    ensures r.Some? ==> forall l :: r.value < l < |links| && Anchored(links[l], doc) ==>
                        SectionFor(links[l], doc, l).top > limit
    ensures r.None? <==> forall l :: 0 <= l < |links| && Anchored(links[l], doc) ==>
                        SectionFor(links[l], doc, l).top > limit
  {
    if links == [] then None
    else
      var n := |links|;
      if Anchored(links[n - 1], doc) && SectionFor(links[n - 1], doc, n - 1).top <= limit then Some(n - 1)
      else
        var r := LastLinkWithin(links[..n - 1], doc, limit);
        assert forall l :: 0 <= l < n - 1 ==> links[..n - 1][l] == links[l];
        r
  }

  /** The link getSections and the loop of updateActiveMenuItem select. */
  function ActiveLink(links: seq<Option<string>>, doc: map<string, int>, limit: int): (r: Option<nat>)
    ensures r.Some? ==> r.value < |links| && Anchored(links[r.value], doc)
                        && SectionFor(links[r.value], doc, r.value).top <= limit
    ensures (forall l :: 0 <= l < |links| && Anchored(links[l], doc) ==>
               SectionFor(links[l], doc, l).top > limit) ==> r.None?
  {
    var secs := SectionsOf(links, doc);
    match LastQualifying(secs, limit)
    case None => None
    case Some(j) => Some(secs[j].link)
  }

  /** Going through the sections picks the same link as the statement over the links. */
  lemma {:induction false} ActiveLinkIsLastWithin(links: seq<Option<string>>, doc: map<string, int>, limit: int)
    ensures ActiveLink(links, doc, limit) == LastLinkWithin(links, doc, limit)
  {
    if links != [] {
      var n := |links|;
      var prefix := links[..n - 1];
      ActiveLinkIsLastWithin(prefix, doc, limit);
      var psecs := SectionsOf(prefix, doc);
      SectionsSnoc(links, doc);
      LastLinkSnoc(links, doc, limit);
      if Anchored(links[n - 1], doc) {
        var x := SectionFor(links[n - 1], doc, n - 1);
        LastQualifyingSnoc(psecs, x, limit);
        if x.top > limit {
          match LastQualifying(psecs, limit)
          case None =>
          case Some(j) => assert (psecs + [x])[j] == psecs[j];
        }
      }
    }
  }

  /** One more link adds its section at the end when it is anchored. */
  lemma SectionsSnoc(links: seq<Option<string>>, doc: map<string, int>)
    requires links != []
    ensures var n := |links|;
      SectionsOf(links, doc) ==
        if Anchored(links[n - 1], doc) then SectionsOf(links[..n - 1], doc) + [SectionFor(links[n - 1], doc, n - 1)]
        else SectionsOf(links[..n - 1], doc)
  {
  }

  /** One more link is the one selected exactly when it is anchored within the limit. */
  lemma LastLinkSnoc(links: seq<Option<string>>, doc: map<string, int>, limit: int)
    requires links != []
    ensures var n := |links|;
      LastLinkWithin(links, doc, limit) ==
        if Anchored(links[n - 1], doc) && SectionFor(links[n - 1], doc, n - 1).top <= limit then Some(n - 1)
        else LastLinkWithin(links[..n - 1], doc, limit)
  {
  }

  /** One more section is the one selected exactly when its top is within the limit. */
  lemma LastQualifyingSnoc(secs: seq<Section>, x: Section, limit: int)
    ensures LastQualifying(secs + [x], limit) ==
      if x.top <= limit then Some(|secs|) else LastQualifying(secs, limit)
  {
    assert (secs + [x])[..|secs|] == secs;
  }

  /** getSections as the page runs it: a forEach that pushes each section found. */
  method GetSections(links: seq<Option<string>>, doc: map<string, int>) returns (secs: seq<Section>)
    ensures secs == SectionsOf(links, doc)
  {
    secs := [];
    var i := 0;
    while i < |links|
      invariant 0 <= i <= |links|
      invariant secs == SectionsOf(links[..i], doc)
    {
      assert links[..i + 1][..i] == links[..i];
      assert Anchored(links[..i + 1][i], doc) == Anchored(links[i], doc);
      if Anchored(links[i], doc) {
        var id := links[i].value[1..];
        secs := secs + [Section(id, doc[id], i)];
      }
      i := i + 1;
    }
    assert links[..|links|] == links;
  }

  /** The loop of updateActiveMenuItem: every section whose top is within `limit`
      reassigns activeSection. */
  method FindActiveSection(secs: seq<Section>, limit: int) returns (active: Option<nat>)
    ensures active == LastQualifying(secs, limit)
  {
    active := None;
    var i := 0;
    while i < |secs|
      invariant 0 <= i <= |secs|
      invariant active == LastQualifying(secs[..i], limit)
    {
      assert secs[..i + 1][..i] == secs[..i];
      if secs[i].top <= limit {
        active := Some(i);
      }
      i := i + 1;
    }
    assert secs[..|secs|] == secs;
  }

  /** The sections found and the loop over them, as updateActiveMenuItem runs them: the
      link of the last section within `limit`. */
  method SelectLink(links: seq<Option<string>>, doc: map<string, int>, limit: int) returns (link: Option<nat>)
    ensures link == LastLinkWithin(links, doc, limit)
  {
    var secs := GetSections(links, doc);
    var active := FindActiveSection(secs, limit);
    link := if active.Some? then Some(secs[active.value].link) else None;
    ActiveLinkIsLastWithin(links, doc, limit);
  }

  /** The hero menu: its links' hrefs, the isMenuFixed flag, menuOriginalTop, whether the
      fixed inline styles are applied, whether the spacer is displayed, and `active` on
      each link. */
  class Menu {
    const links: seq<Option<string>>
    var isMenuFixed: bool
    var menuOriginalTop: int
    var fixedStyles: bool
    var spacerShown: bool
    var linkActive: seq<bool>

    /** The styles and the spacer follow the flag, and there is one class flag per link. */
    ghost predicate Valid()
      reads this
    {
      fixedStyles == isMenuFixed && spacerShown == isMenuFixed && |linkActive| == |links|
    }

    /** Initialisation, run only when the menu, the hero section and at least one link
        exist: create the hidden spacer, take menuOriginalTop from .hero-content, then run
        handleScroll once. */
    constructor (links: seq<Option<string>>, linkActive: seq<bool>, heroContentHeight: int,
                 scrollTop: int, menuHeight: int, doc: map<string, int>)
      requires |links| > 0 && |linkActive| == |links|
      ensures this.links == links && Valid()
      ensures menuOriginalTop == heroContentHeight
      ensures isMenuFixed <==> scrollTop >= heroContentHeight
      ensures this.linkActive == OnlyAt(|links|, LastLinkWithin(links, doc, scrollTop + menuHeight + 10))
    {
      this.links := links;
      isMenuFixed := false;
      menuOriginalTop := heroContentHeight;
      fixedStyles := false;
      spacerShown := false;
      this.linkActive := linkActive;
      new;
      HandleScroll(scrollTop, heroContentHeight, menuHeight, doc);
    }

    /** makeMenuFixed: only acts when the menu is not fixed yet. */
    method MakeMenuFixed()
      modifies this
      requires Valid()
      ensures Valid() && isMenuFixed
      ensures menuOriginalTop == old(menuOriginalTop) && linkActive == old(linkActive)
    {
      if !isMenuFixed {
        isMenuFixed := true;
        fixedStyles := true;
        spacerShown := true;
      }
    }

    /** makeMenuNormal: only acts when the menu is fixed. */
    method MakeMenuNormal()
      modifies this
      requires Valid()
      ensures Valid() && !isMenuFixed
      ensures menuOriginalTop == old(menuOriginalTop) && linkActive == old(linkActive)
    {
      if isMenuFixed {
        isMenuFixed := false;
        fixedStyles := false;
        spacerShown := false;
      }
    }

    /** updateActiveMenuItem: clear `active` from every link, then give it to the link of the
        last section whose top is within menuHeight + 10 of the scroll position. */
    method UpdateActiveMenuItem(scrollTop: int, menuHeight: int, doc: map<string, int>)
      modifies this
      requires Valid()
      ensures Valid()
      ensures isMenuFixed == old(isMenuFixed) && menuOriginalTop == old(menuOriginalTop)
      ensures linkActive == OnlyAt(|links|, LastLinkWithin(links, doc, scrollTop + menuHeight + 10))
      ensures CountSet(linkActive) <= 1
    {
      var link := SelectLink(links, doc, scrollTop + menuHeight + 10);
      linkActive := ExclusiveFlags(|links|, link);
    }

    /** handleScroll: measure menuOriginalTop if it is still 0, fix the menu exactly when the
        scroll position has reached it, then update the active link. */
    method HandleScroll(scrollTop: int, heroContentHeight: int, menuHeight: int, doc: map<string, int>)
      modifies this
      requires Valid()
      ensures Valid()
      ensures menuOriginalTop == if old(menuOriginalTop) == 0 then heroContentHeight else old(menuOriginalTop)
      ensures isMenuFixed <==> scrollTop >= menuOriginalTop
      ensures linkActive == OnlyAt(|links|, LastLinkWithin(links, doc, scrollTop + menuHeight + 10))
    {
      if menuOriginalTop == 0 {
        menuOriginalTop := heroContentHeight;
      }
      if scrollTop >= menuOriginalTop {
        MakeMenuFixed();
      } else {
        MakeMenuNormal();
      }
      UpdateActiveMenuItem(scrollTop, menuHeight, doc);
    }

    /** The resize listener: re-read menuOriginalTop from .hero-content, then handleScroll. */
    method OnResize(scrollTop: int, heroContentHeight: int, menuHeight: int, doc: map<string, int>)
      modifies this
      requires Valid()
      ensures Valid()
      ensures menuOriginalTop == heroContentHeight
      ensures isMenuFixed <==> scrollTop >= heroContentHeight
      ensures linkActive == OnlyAt(|links|, LastLinkWithin(links, doc, scrollTop + menuHeight + 10))
    {
      menuOriginalTop := heroContentHeight;
      HandleScroll(scrollTop, heroContentHeight, menuHeight, doc);
    }
  }
}
