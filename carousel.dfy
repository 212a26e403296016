/**
 * initCustomTabs as the page runs it: the closure variables and the classes and inline
 * styles of the tabs and images are the fields of a TabCarousel, and every handler is a
 * method that updates them in place. Each method is proved to leave exactly the state the
 * corresponding function of module CarouselSpec computes, so the laws proved there hold of
 * the object; the forEach passes are loops proved against the same functions.
 */
module Carousel {
  import opened Wrappers
  import TabOrder
  import opened CarouselSpec

  /** The tabHeights pass of activateTab: record each panel's natural height under its
      data-tab, later tabs overwriting earlier ones. */
  method MeasureHeights(items: seq<TabItem>) returns (m: map<int, nat>)
    ensures m == MeasuredHeights(items)
  {
    m := map[];
    var i := 0;
    while i < |items|
      invariant 0 <= i <= |items|
      invariant m == MeasuredHeights(items[..i])
    {
      assert items[..i + 1][..i] == items[..i];
      if items[i].panel.Some? {
        m := m[items[i].id := items[i].panel.value];
      }
      i := i + 1;
    }
    assert items[..|items|] == items;
  }

  /** The two class passes of activateTab: remove is-inactive everywhere, then add it to
      every tab whose data-tab is not n. */
  method MarkInactive(items: seq<TabItem>, n: int) returns (flags: seq<bool>)
    ensures flags == InactiveAfter(items, n)
  {
    flags := [];
    var i := 0;
    while i < |items|
      invariant 0 <= i <= |items| && |flags| == i
      invariant forall j :: 0 <= j < i ==> !flags[j]
    {
      flags := flags + [false];
      i := i + 1;
    }
    i := 0;
    while i < |items|
      invariant 0 <= i <= |items| && |flags| == |items|
      invariant forall j :: 0 <= j < |items| ==> (flags[j] <==> j < i && items[j].id != n)
    {
      if items[i].id != n {
        flags := flags[i := true];
      }
      i := i + 1;
    }
  }

  /** The two line passes of activateTab: clear every line's opacity, then hide the line of
      the tab just before each active tab. */
  method HideLines(items: seq<TabItem>, inactive: seq<bool>) returns (hidden: seq<bool>)
    requires |inactive| == |items|
    ensures hidden == LinesAfter(items, inactive)
  {
    hidden := [];
    var i := 0;
    while i < |items|
      invariant 0 <= i <= |items| && |hidden| == i
      invariant forall j :: 0 <= j < i ==> !hidden[j]
    {
      hidden := hidden + [false];
      i := i + 1;
    }
    i := 0;
    while i < |items|
      invariant 0 <= i <= |items| && |hidden| == |items|
      invariant forall j :: 0 <= j < |items| ==>
        (hidden[j] <==> items[j].hasLine && j + 1 < i && !inactive[j + 1])
    {
      if !inactive[i] && i > 0 && items[i - 1].hasLine {
        hidden := hidden[i - 1 := true];
      }
      i := i + 1;
    }
  }

  /** The height pass of activateTab: the panels of tab n open to the measured height, every
      other panel closes to 0. */
  method ApplyHeights(items: seq<TabItem>, n: int, m: map<int, nat>, heights: seq<Height>)
    returns (r: seq<Height>)
    requires |heights| == |items|
    requires forall i :: 0 <= i < |items| && items[i].panel.Some? ==> items[i].id in m
    ensures r == HeightsAfter(items, n, m, heights)
  {
    r := heights;
    var i := 0;
    while i < |items|
      invariant 0 <= i <= |items| && |r| == |items|
      invariant forall j :: 0 <= j < i ==> r[j] == HeightsAfter(items, n, m, heights)[j]
      invariant forall j :: i <= j < |items| ==> r[j] == heights[j]
    {
      if items[i].panel.Some? {
        if items[i].id == n {
          r := r[i := Px(m[items[i].id])];
        } else {
          r := r[i := Px(0)];
        }
      }
      i := i + 1;
    }
  }

  /** The image pass of activateTab: display block for the images of tab n, none for the rest. */
  method ShowImages(images: seq<int>, n: int) returns (display: seq<Display>)
    ensures display == DisplayAfter(images, n)
  {
    display := [];
    var j := 0;
    while j < |images|
      invariant 0 <= j <= |images| && |display| == j
      invariant forall i :: 0 <= i < j ==> display[i] == (if images[i] == n then Block else DisplayNone)
    {
      display := display + [if images[j] == n then Block else DisplayNone];
      j := j + 1;
    }
  }

  /** querySelector('.tab-item:not(.is-inactive)'): the first tab without is-inactive. */
  method FindActive(inactive: seq<bool>) returns (k: Option<nat>)
    ensures k == FirstActive(inactive)
  {
    var i := 0;
    while i < |inactive| && inactive[i]
      invariant 0 <= i <= |inactive|
      invariant forall j :: 0 <= j < i ==> inactive[j]
    {
      i := i + 1;
    }
    k := if i < |inactive| then Some(i) else None;
  }

  /** The panel pass of initTabHeights: the first panel at its natural height, the rest at 0. */
  method FirstPanelOpen(items: seq<TabItem>) returns (heights: seq<Height>)
    ensures heights == InitialHeights(items)
  {
    heights := [];
    var i := 0;
    while i < |items|
      invariant 0 <= i <= |items| && |heights| == i
      invariant forall j :: 0 <= j < i ==> heights[j] == InitialHeights(items)[j]
    {
      var h := if items[i].panel.None? then Unstyled
               else if i == 0 then Px(items[0].panel.value) else Px(0);
      heights := heights + [h];
      i := i + 1;
    }
  }

  /** The class pass of initTabHeights: is-inactive on every tab but the first. */
  method FirstTabOnly(n: nat) returns (flags: seq<bool>)
    ensures flags == InitialInactive(n)
  {
    flags := [];
    var i := 0;
    while i < n
      invariant 0 <= i <= n && |flags| == i
      invariant forall j :: 0 <= j < i ==> (flags[j] <==> j != 0)
    {
      flags := flags + [i != 0];
      i := i + 1;
    }
  }

  /** The image pass of initTabHeights: only the first image displayed. */
  method FirstImageOnly(m: nat) returns (display: seq<Display>)
    ensures display == InitialDisplay(m)
  {
    display := [];
    var j := 0;
    while j < m
      invariant 0 <= j <= m && |display| == j
      invariant forall i :: 0 <= i < j ==> display[i] == (if i == 0 then Block else DisplayNone)
    {
      display := display + [if j == 0 then Block else DisplayNone];
      j := j + 1;
    }
  }

  /** The carousel of one .block-como-afeta-tabs container: its tabs and images, which never
      change, and everything the handlers update. */
  class TabCarousel {
    const items: seq<TabItem>
    const images: seq<int>
    var current: Option<int>
    var progress: nat
    var paused: bool
    var intersecting: bool
    var intervalCreated: bool
    var intervalLive: bool
    var intervalBar: nat
    var inactive: seq<bool>
    var heights: seq<Height>
    var lineHidden: seq<bool>
    var fill: seq<Option<nat>>
    var display: seq<Display>
    var pendingChecks: nat

    /** The fields as a value of the state machine. */
    ghost function Snapshot(): State
      reads this
    {
      State(current, progress, paused, intersecting, intervalCreated, intervalLive, intervalBar,
            inactive, heights, lineHidden, fill, display, pendingChecks)
    }

    ghost predicate Valid()
      reads this
    {
      Inv(Snapshot(), items, images)
    }

    /** initCustomTabs up to the observer: the closure variables, and initTabHeights when
        there is at least one tab. */
    constructor (items: seq<TabItem>, images: seq<int>)
      ensures this.items == items && this.images == images
      ensures Valid() && Snapshot() == Init(items, images)
    {
      this.items := items;
      this.images := images;
      current := None;
      progress := 0;
      paused := false;
      intersecting := false;
      intervalCreated := false;
      intervalLive := false;
      intervalBar := 0;
      lineHidden := seq(|items|, i => false);
      fill := seq(|items|, i => None);
      pendingChecks := 0;
      if |items| > 0 {
        var h := FirstPanelOpen(items);
        var f := FirstTabOnly(|items|);
        var d := FirstImageOnly(|images|);
        heights, inactive, display := h, f, d;
      } else {
        heights, inactive, display := [], [], seq(|images|, j => DisplayUnset);
      }
    }

    /** startProgressBar. */
    method StartProgressBar()
      modifies this
      requires TimerInv(Snapshot(), items, images)
      ensures Snapshot() == StartProgress(old(Snapshot()), items)
    {
      var k := FindActive(inactive);
      if k.None? {
        return;
      }
      if !items[k.value].hasBar {
        return;
      }
      progress := 0;
      fill := fill[k.value := Some(0)];
      if intervalCreated {
        intervalLive := false;
      }
      if intersecting {
        intervalCreated := true;
        intervalLive := true;
        intervalBar := k.value;
      }
    }

    /** The passes of activateTab before startProgressBar, computed from the current page:
        the tabs' inactive classes, the separator lines, the panel heights and the images. */
    method RestylePasses(n: int) returns (flags: seq<bool>, lines: seq<bool>, hs: seq<Height>, shown: seq<Display>)
      requires Valid()
      ensures flags == InactiveAfter(items, n) && lines == LinesAfter(items, flags)
      ensures hs == HeightsAfter(items, n, MeasuredHeights(items), heights)
      ensures shown == DisplayAfter(images, n)
    {
      var m := MeasureHeights(items);
      flags := MarkInactive(items, n);
      lines := HideLines(items, flags);
      hs := ApplyHeights(items, n, m, heights);
      shown := ShowImages(images, n);
    }

    /** The passes of activateTab before startProgressBar, applied to the page. */
    method RestyleFor(n: int)
      modifies this
      requires Valid()
      ensures TimerInv(Snapshot(), items, images)
      ensures Snapshot() == Restyle(old(Snapshot()), items, images, n)
    {
      ghost var s0 := Snapshot();
      var flags, lines, hs, shown := RestylePasses(n);
      ghost var r := Restyle(s0, items, images, n);
      assert r == s0.(inactive := flags, lineHidden := lines, heights := hs, display := shown, current := Some(n));
      assert TimerInv(r, items, images);
      inactive, lineHidden, heights, display, current := flags, lines, hs, shown, Some(n);
      assert Snapshot() == r;
    }

    /** activateTab(n). */
    method ActivateTab(n: int)
      modifies this
      requires Valid()
      ensures Valid() && Snapshot() == Activate(old(Snapshot()), items, images, n)
    {
      ghost var s0 := Snapshot();
      RestyleFor(n);
      StartProgressBar();
      ghost var s2 := Snapshot();
      assert s2 == StartProgress(Restyle(s0, items, images, n), items);
      pendingChecks := pendingChecks + 1;
      assert Snapshot() == s2.(pendingChecks := s2.pendingChecks + 1);
    }

    /** goToNextTab: activate the data-tab that follows the current one in ascending cyclic
        order. */
    method GoToNextTab()
      modifies this
      requires Valid() && |items| > 0
      ensures Valid()
      ensures Snapshot() == Activate(old(Snapshot()), items, images, TabOrder.NextTab(Ids(items), old(current)))
    {
      ActivateTab(TabOrder.NextTab(Ids(items), current));
    }

    /** pauseProgress. */
    method PauseProgress()
      modifies this
      requires Valid()
      ensures Valid() && Snapshot() == Pause(old(Snapshot()))
    {
      paused := true;
    }

    /** resumeProgress. */
    method ResumeProgress()
      modifies this
      requires TimerInv(Snapshot(), items, images)
      ensures Valid() && Snapshot() == Resume(old(Snapshot()), items, images)
    {
      paused := false;
      if intersecting && current.Some? && !intervalCreated {
        StartProgressBar();
      }
    }

    /** The IntersectionObserver callback for one entry. */
    method OnVisibility(halfVisible: bool)
      modifies this
      requires Valid()
      ensures Valid() && Snapshot() == Observe(old(Snapshot()), items, images, halfVisible)
    {
      if halfVisible {
        if !intersecting {
          intersecting := true;
          if current.None? && |items| > 0 {
            current := Some(1);
            StartProgressBar();
          } else if current.Some? {
            ResumeProgress();
          }
        }
      } else if intersecting {
        intersecting := false;
        PauseProgress();
      }
    }

    /** One firing of the live 50 ms interval. */
    method OnTick()
      modifies this
      requires Valid() && intervalLive
      ensures Valid() && Snapshot() == Tick(old(Snapshot()), items, images)
    {
      if !paused && intersecting {
        progress := progress + 1;
        fill := fill[intervalBar := Some(Min(progress, Full))];
        if progress >= Full {
          intervalLive := false;
          GoToNextTab();
        }
      }
    }

    /** The click listener of tab i. */
    method OnClick(i: nat)
      modifies this
      requires Valid() && i < |items|
      ensures Valid() && Snapshot() == Click(old(Snapshot()), items, images, i)
    {
      if inactive[i] {
        ActivateTab(items[i].id);
      }
    }

    /** The mouseenter listener of tab i. */
    method OnMouseEnter(i: nat)
      modifies this
      requires Valid() && i < |items|
      ensures Valid() && Snapshot() == MouseEnter(old(Snapshot()), items, images, i)
    {
      if !inactive[i] {
        PauseProgress();
      }
    }

    /** The mouseleave listener of tab i. */
    method OnMouseLeave(i: nat)
      modifies this
      requires Valid() && i < |items|
      ensures Valid() && Snapshot() == MouseLeave(old(Snapshot()), items, images, i)
    {
      if !inactive[i] {
        ResumeProgress();
      }
    }

    /** The delayed check activateTab schedules; pointer is the tab under the mouse, if any. */
    method OnHoverCheck(pointer: Option<nat>)
      modifies this
      requires Valid() && pendingChecks > 0
      ensures Valid() && Snapshot() == HoverCheck(old(Snapshot()), items, images, pointer)
    {
      var active := FindActive(inactive);
      pendingChecks := pendingChecks - 1;
      if active.Some? && pointer == active {
        PauseProgress();
      }
    }
  }
}
