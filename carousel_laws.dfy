/**
 * What the carousel promises, proved about the state machine of module CarouselSpec:
 * a single active tab, the cyclic auto-advance after 200 effective ticks, ticks that do
 * nothing while hidden or paused, hover and visibility round trips that keep progress,
 * and clicks that only act on inactive tabs.
 */
module CarouselLaws {
  import opened Wrappers
  import opened CarouselSpec
  import TabOrder

  /** After initialisation exactly the first tab is active and only the first image is shown;
      no tab is current yet and no interval exists. */
  lemma InitSelectsFirst(items: seq<TabItem>, images: seq<int>)
    requires |items| > 0
    ensures var s := Init(items, images);
      && (forall i :: 0 <= i < |items| ==> (!s.inactive[i] <==> i == 0))
      && FirstActive(s.inactive) == Some(0)
      && (forall j :: 0 <= j < |images| ==> (s.display[j] == Block <==> j == 0))
      && s.current.None? && s.progress == 0 && !s.intervalCreated && !s.intervalLive
  {
  }

  /** With distinct data-tab values, the only tab left active by activating items[k].id is
      tab k, and it is the one startProgressBar finds. */
  lemma {:induction false} ExclusiveFirstActive(items: seq<TabItem>, k: nat)
    requires TabOrder.Distinct(Ids(items)) && k < |items|
    ensures forall i :: 0 <= i < |items| ==> (!InactiveAfter(items, items[k].id)[i] <==> i == k)
    ensures FirstActive(InactiveAfter(items, items[k].id)) == Some(k)
  {
    var flags := InactiveAfter(items, items[k].id);
    forall i | 0 <= i < |items| ensures !flags[i] <==> i == k {
      if i != k {
        assert Ids(items)[i] != Ids(items)[k];
      }
    }
    assert !flags[k];
    var f := FirstActive(flags);
    assert f.Some? && !flags[f.value];
  }

  /** With distinct data-tab values, the height measured for tab k's data-tab is tab k's own. */
  lemma MeasuredOwnHeight(items: seq<TabItem>, k: nat)
    requires TabOrder.Distinct(Ids(items)) && k < |items| && items[k].panel.Some?
    ensures MeasuredHeights(items)[items[k].id] == items[k].panel.value
  {
    forall j | k < j < |items| ensures items[j].id != items[k].id {
      assert Ids(items)[k] != Ids(items)[j];
    }
  }

  /** Activating the data-tab of tab k, with distinct data-tab values: tab k is the only
      active tab, its panel opens to its natural height and every other panel closes, only
      the line just before it is hidden, only its images are shown, and it becomes current.
      isPaused is untouched. When tab k has a progress bar, progress restarts from 0 and an
      interval on that bar is live exactly when the carousel is visible. */
  lemma {:induction false} ActivateSelects(s: State, items: seq<TabItem>, images: seq<int>, k: nat)
    requires Inv(s, items, images) && TabOrder.Distinct(Ids(items)) && k < |items|
    ensures var r := Activate(s, items, images, items[k].id);
      && (forall i :: 0 <= i < |items| ==> (!r.inactive[i] <==> i == k))
      && (forall i :: 0 <= i < |items| && items[i].panel.Some? ==>
            r.heights[i] == Px(if i == k then items[k].panel.value else 0))
      && (forall i :: 0 <= i < |items| ==>
            (r.lineHidden[i] <==> items[i].hasLine && i + 1 == k))
      && (forall j :: 0 <= j < |images| ==> (r.display[j] == Block <==> images[j] == items[k].id))
      && r.current == Some(items[k].id)
      && r.paused == s.paused && r.intersecting == s.intersecting
      && (items[k].hasBar ==>
            r.progress == 0 && r.fill[k] == Some(0) && r.intervalLive == s.intersecting
            && (s.intersecting ==> r.intervalBar == k))
      && (!items[k].hasBar ==>
            r.progress == s.progress && r.intervalLive == s.intervalLive && r.fill == s.fill)
  {
    ExclusiveFirstActive(items, k);
    if items[k].panel.Some? {
      MeasuredOwnHeight(items, k);
    }
  }

  /** Clicking the active tab changes nothing: no reset, no restyling. */
  lemma ClickOnActiveIsNoop(s: State, items: seq<TabItem>, images: seq<int>, i: nat)
    requires Inv(s, items, images) && i < |items| && !s.inactive[i]
    ensures Click(s, items, images, i) == s
  {
  }

  /** Neither hovering nor a click on an inactive tab touches the pause flag of a hover. */
  lemma MouseOnInactiveIsNoop(s: State, items: seq<TabItem>, images: seq<int>, i: nat)
    requires Inv(s, items, images) && i < |items| && s.inactive[i]
    ensures MouseEnter(s, items, images, i) == s && MouseLeave(s, items, images, i) == s
  {
  }

  /** Entering and then leaving the active tab, with no tick in between, leaves progress, the
      selection and the interval as they were, and the carousel unpaused. */
  lemma HoverRoundTrip(s: State, items: seq<TabItem>, images: seq<int>, i: nat)
    requires Inv(s, items, images) && i < |items| && !s.inactive[i]
    ensures var r := MouseLeave(MouseEnter(s, items, images, i), items, images, i);
      && r == s.(paused := false)
      && r.progress == s.progress && r.current == s.current && r.inactive == s.inactive
  {
  }

  /** While paused or hidden every tick is a no-op, however many fire. */
  lemma {:induction false} ElapseWhileHeld(s: State, items: seq<TabItem>, images: seq<int>, k: nat)
    requires Inv(s, items, images) && (s.paused || !s.intersecting)
    ensures Elapse(s, items, images, k) == s
    decreases k
  {
    if k > 0 && s.intervalLive {
      ElapseWhileHeld(s, items, images, k - 1);
    }
  }

  /** Going below half visibility pauses without touching progress; ticks while hidden do
      nothing; coming back resumes with the progress, the current tab and the selection
      it had when it was hidden. */
  lemma {:induction false} VisibilityRoundTrip(s: State, items: seq<TabItem>, images: seq<int>, k: nat)
    requires Inv(s, items, images) && s.intersecting && s.current.Some?
    ensures var h := Observe(s, items, images, false);
      && h.paused && !h.intersecting && h.progress == s.progress
      && Elapse(h, items, images, k) == h
      && var v := Observe(Elapse(h, items, images, k), items, images, true);
         v.progress == s.progress && v.current == s.current && v.inactive == s.inactive
         && v.intersecting && !v.paused
  {
    var h := Observe(s, items, images, false);
    ElapseWhileHeld(h, items, images, k);
  }

  /** A notification on the side the carousel is already on changes nothing. */
  lemma RepeatedVisibilityIsNoop(s: State, items: seq<TabItem>, images: seq<int>, halfVisible: bool)
    requires Inv(s, items, images) && s.intersecting == halfVisible
    ensures Observe(s, items, images, halfVisible) == s
  {
  }

  /** The first crossing into view with no current tab makes ordinal 1 current, keeps the
      first tab as the active one, and starts its bar from 0 when it has one. */
  lemma FirstVisibilityStarts(items: seq<TabItem>, images: seq<int>)
    requires |items| > 0
    ensures var r := Observe(Init(items, images), items, images, true);
      && r.current == Some(1) && r.intersecting && !r.paused
      && r.inactive == Init(items, images).inactive
      && (items[0].hasBar ==> r.intervalLive && r.progress == 0 && r.intervalBar == 0)
  {
    InitSelectsFirst(items, images);
  }

  /** Time passing splits into consecutive periods. */
  lemma {:induction false} ElapseSplit(s: State, items: seq<TabItem>, images: seq<int>, a: nat, b: nat)
    requires Inv(s, items, images)
    ensures Elapse(s, items, images, a + b) ==
            Elapse(Elapse(s, items, images, a), items, images, b)
    decreases a
  {
    if a > 0 && s.intervalLive {
      ElapseSplit(Tick(s, items, images), items, images, a - 1, b);
      assert a + b - 1 == (a - 1) + b;
    }
  }

  /** While visible and unpaused, each tick adds one unit of progress and shows it on the
      live bar, nothing else changes, as long as the bar is not full. */
  lemma {:induction false} TicksAccumulate(s: State, items: seq<TabItem>, images: seq<int>, j: nat)
    requires Inv(s, items, images) && s.intervalLive && !s.paused && s.intersecting
    requires s.progress + j < Full
    ensures var r := Elapse(s, items, images, j);
      && r.progress == s.progress + j
      && r.intervalLive && r.intervalBar == s.intervalBar && !r.paused && r.intersecting
      && r.current == s.current && r.inactive == s.inactive && r.display == s.display
      && (j > 0 ==> r.fill == s.fill[s.intervalBar := Some(s.progress + j)])
    decreases j
  {
    if j > 0 {
      var t := Tick(s, items, images);
      assert t.progress == s.progress + 1;
      TicksAccumulate(t, items, images, j - 1);
    }
  }

  /** The tick that fills the bar: from progress p, the (Full - p)-th effective tick clears
      the interval and activates the cyclic successor of the current tab (so from a reset bar,
      exactly 200 ticks, 10 s, per tab). When that tab has a progress bar it restarts from 0
      with a live interval; the carousel stays visible and unpaused. */
  lemma {:induction false} FullBarAdvances(s: State, items: seq<TabItem>, images: seq<int>)
    requires Inv(s, items, images) && s.intervalLive && !s.paused && s.intersecting
    ensures |items| > 0
    ensures var next := TabOrder.NextTab(Ids(items), s.current);
      var r := Elapse(s, items, images, Full - s.progress);
      && r.current == Some(next)
      && r.inactive == InactiveAfter(items, next)
      && r.display == DisplayAfter(images, next)
      && !r.paused && r.intersecting
      && (BarFound(r.inactive, items) ==>
            r.progress == 0 && r.intervalLive && r.intervalBar == FirstActive(r.inactive).value)
  {
    var s1 := FullBarActivates(s, items, images);
    ActivateEffect(s1, items, images, TabOrder.NextTab(Ids(items), s.current));
  }

  /** Running a live bar to full is one activation of goToNextTab's choice, from a state
      with the same current tab, visible and unpaused. */
  lemma FullBarActivates(s: State, items: seq<TabItem>, images: seq<int>) returns (s1: State)
    requires Inv(s, items, images) && s.intervalLive && !s.paused && s.intersecting
    ensures |items| > 0 && Inv(s1, items, images)
    ensures s1.current == s.current && !s1.paused && s1.intersecting
    ensures Elapse(s, items, images, Full - s.progress) ==
            Activate(s1, items, images, TabOrder.NextTab(Ids(items), s.current))
  {
    var j := Full - s.progress - 1;
    TicksAccumulate(s, items, images, j);
    var pre := Elapse(s, items, images, j);
    assert pre.progress + 1 == Full && pre.intervalLive && !pre.paused && pre.intersecting;
    s1 := FillingTick(pre, items, images);
    ElapseSplit(s, items, images, j, 1);
    ElapseOnce(pre, items, images);
    assert j + 1 == Full - s.progress;
  }

  /** One period with a live interval is one tick. */
  lemma ElapseOnce(s: State, items: seq<TabItem>, images: seq<int>)
    requires Inv(s, items, images) && s.intervalLive
    ensures Elapse(s, items, images, 1) == Tick(s, items, images)
  {
    assert Elapse(Tick(s, items, images), items, images, 0) == Tick(s, items, images);
  }

  /** The tick that fills a bar clears the interval and activates goToNextTab's choice. */
  lemma FillingTick(s: State, items: seq<TabItem>, images: seq<int>) returns (s1: State)
    requires Inv(s, items, images) && s.intervalLive && !s.paused && s.intersecting
    requires s.progress + 1 == Full
    ensures Inv(s1, items, images)
    ensures s1.current == s.current && !s1.paused && s1.intersecting
    ensures Tick(s, items, images) == Activate(s1, items, images, TabOrder.NextTab(Ids(items), s.current))
  {
    s1 := s.(progress := Full, fill := s.fill[s.intervalBar := Some(Full)], intervalLive := false);
  }

  /** What activateTab(n) does to the selection, the images and the timer, for any n. */
  lemma ActivateEffect(s: State, items: seq<TabItem>, images: seq<int>, n: int)
    requires Inv(s, items, images)
    ensures var r := Activate(s, items, images, n);
      && r.current == Some(n)
      && r.inactive == InactiveAfter(items, n)
      && r.display == DisplayAfter(images, n)
      && r.paused == s.paused && r.intersecting == s.intersecting
      && (BarFound(r.inactive, items) ==>
            && r.progress == 0 && (r.intervalLive <==> s.intersecting)
            && (s.intersecting ==> r.intervalBar == FirstActive(r.inactive).value))
  {
    var t := Restyle(s, items, images, n);
    assert t.inactive == InactiveAfter(items, n);
    var u := StartProgress(t, items);
    assert Activate(s, items, images, n) == u.(pendingChecks := u.pendingChecks + 1);
  }

  /** With distinct data-tab values, the tab that fills its bar hands over to the tab with the
      next larger ordinal (the smallest after the largest); that tab becomes the only active
      one and, having a progress bar, restarts it from 0 on a live interval. */
  lemma {:induction false} AutoAdvance(s: State, items: seq<TabItem>, images: seq<int>, k: nat, ticks: nat)
    requires Inv(s, items, images) && s.intervalLive && !s.paused && s.intersecting
    requires TabOrder.Distinct(Ids(items)) && k < |items|
    requires items[k].id == TabOrder.NextTab(Ids(items), s.current)
    requires ticks == Full - s.progress
    ensures var r := Elapse(s, items, images, ticks);
      && r.current == Some(items[k].id)
      && (forall i :: 0 <= i < |items| ==> (!r.inactive[i] <==> i == k))
      && !r.paused && r.intersecting
      && (items[k].hasBar ==> RunningFromStart(r, items, images, k))
  {
    FullBarAdvances(s, items, images);
    ExclusiveFirstActive(items, k);
  }

  /** The carousel runs tab k: visible, unpaused, tab k the only active tab and the current
      one, and a live interval filling tab k's bar from 0. */
  predicate RunningFromStart(s: State, items: seq<TabItem>, images: seq<int>, k: nat)
  {
    && Inv(s, items, images) && k < |items|
    && s.current == Some(items[k].id)
    && (forall i :: 0 <= i < |items| ==> (!s.inactive[i] <==> i == k))
    && s.intervalLive && s.intervalBar == k && s.progress == 0 && !s.paused && s.intersecting
  }

  /** One full period of tab k hands over to tab k2, which must carry the next data-tab in
      cyclic order and a progress bar, and the carousel runs tab k2 from the start. */
  lemma {:induction false} PeriodHandsOver(s: State, items: seq<TabItem>, images: seq<int>, k: nat, k2: nat)
    requires RunningFromStart(s, items, images, k) && TabOrder.Distinct(Ids(items))
    requires k2 < |items| && items[k2].hasBar
    requires items[k2].id == TabOrder.NextTab(Ids(items), Some(items[k].id))
    ensures RunningFromStart(Elapse(s, items, images, Full), items, images, k2)
  {
    AutoAdvance(s, items, images, k2, Full);
  }

  /** Three tabs with data-tab 1, 2 and 3, each with a panel and a progress bar. */
  const ThreeTabs: seq<TabItem> :=
    [TabItem(1, Some(120), true, true), TabItem(2, Some(80), true, true), TabItem(3, Some(100), false, true)]

  /** Among distinct data-tab values, b follows a when it is the smallest value above a. */
  lemma {:induction false} FollowsAbove(ids: seq<int>, a: int, b: int)
    requires TabOrder.Distinct(ids) && a in ids && b in ids && a < b
    requires forall x :: x in ids && x > a ==> b <= x
    ensures TabOrder.NextTab(ids, Some(a)) == b
  {
    TabOrder.NextTabIsSuccessor(ids, a);
    var n := TabOrder.NextTab(ids, Some(a));
    assert n in ids && n > a;
  }

  /** Among distinct data-tab values, the smallest follows the largest. */
  lemma {:induction false} FollowsLargest(ids: seq<int>, a: int, b: int)
    requires TabOrder.Distinct(ids) && a in ids && b in ids
    requires forall x :: x in ids ==> b <= x <= a
    ensures TabOrder.NextTab(ids, Some(a)) == b
  {
    TabOrder.NextTabWraps(ids, a);
  }

  /** The cyclic order of the data-tab values 1, 2, 3: 1, 2, 3, then 1 again. */
  lemma ThreeTabOrder(ids: seq<int>)
    requires ids == [1, 2, 3]
    ensures TabOrder.Distinct(ids)
    ensures TabOrder.NextTab(ids, Some(1)) == 2
    ensures TabOrder.NextTab(ids, Some(2)) == 3
    ensures TabOrder.NextTab(ids, Some(3)) == 1
  {
    assert forall x :: x in ids ==> x == 1 || x == 2 || x == 3;
    assert TabOrder.Distinct(ids);
    assert forall x :: x in ids ==> 1 <= x <= 3;
    FollowsLargest(ids, 3, 1);
    FollowsAbove(ids, 1, 2);
    FollowsAbove(ids, 2, 3);
  }

  /** Once visible, tab 1 runs its bar; every 200 uninterrupted ticks the next tab takes over,
      and after tab 3 the carousel wraps to tab 1. */
  lemma ThreeTabCycle(items: seq<TabItem>, images: seq<int>)
    requires items == ThreeTabs && images == [1, 2, 3]
    ensures var s1 := Observe(Init(items, images), items, images, true);
      var s2 := Elapse(s1, items, images, Full);
      var s3 := Elapse(s2, items, images, Full);
      var s4 := Elapse(s3, items, images, Full);
      && RunningFromStart(s1, items, images, 0) && s1.current == Some(1)
      && RunningFromStart(s2, items, images, 1) && s2.current == Some(2)
      && RunningFromStart(s3, items, images, 2) && s3.current == Some(3)
      && RunningFromStart(s4, items, images, 0) && s4.current == Some(1)
  {
    assert Ids(items) == [1, 2, 3];
    ThreeTabOrder(Ids(items));
    FirstVisibilityStarts(items, images);
    InitSelectsFirst(items, images);
    var s1 := Observe(Init(items, images), items, images, true);
    assert RunningFromStart(s1, items, images, 0);
    PeriodHandsOver(s1, items, images, 0, 1);
    var s2 := Elapse(s1, items, images, Full);
    PeriodHandsOver(s2, items, images, 1, 2);
    var s3 := Elapse(s2, items, images, Full);
    PeriodHandsOver(s3, items, images, 2, 0);
  }

  /** Two tabs, data-tab 1 and 2, each with a progress bar. */
  const TwoTabs: seq<TabItem> := [TabItem(1, Some(120), true, true), TabItem(2, Some(80), false, true)]

  /** The carousel as written stalls: shown, hidden, a click on the other tab while hidden,
      shown again. The click resets progress but creates no interval (the carousel is not
      visible), and on return resumeProgress does not start one because an interval was
      created before; from then on time passes without any progress. */
  lemma HiddenClickStalls(k: nat)
    ensures var items, images := TwoTabs, [];
      var s1 := Observe(Init(items, images), items, images, true);
      var s2 := Observe(s1, items, images, false);
      var s3 := Click(s2, items, images, 1);
      var s4 := Observe(s3, items, images, true);
      && s1.intervalLive
      && s4.current == Some(2) && !s4.inactive[1] && s4.intersecting && !s4.paused
      && s4.progress == 0 && !s4.intervalLive
      && Elapse(s4, items, images, k) == s4
      && Click(s4, items, images, 0).intervalLive
  {
    var items, images := TwoTabs, [];
    assert Ids(items) == [1, 2];
    FirstVisibilityStarts(items, images);
    InitSelectsFirst(items, images);
    var s4 := Observe(Click(Observe(Observe(Init(items, images), items, images, true), items, images, false), items, images, 1), items, images, true);
    ClickInViewRestarts(s4, items, images, 0);
  }

  /** The stall lasts only until the next click on an inactive tab while the carousel is in
      view: activateTab's startProgressBar then clears the old interval and, the carousel
      being visible, creates a new one filling the clicked tab's bar from 0. */
  lemma ClickInViewRestarts(s: State, items: seq<TabItem>, images: seq<int>, i: nat)
    requires Inv(s, items, images) && TabOrder.Distinct(Ids(items))
    requires i < |items| && s.inactive[i] && items[i].hasBar && s.intersecting
    ensures var r := Click(s, items, images, i);
      && r.current == Some(items[i].id) && (forall j :: 0 <= j < |items| ==> (!r.inactive[j] <==> j == i))
      && r.intervalLive && r.intervalBar == i && r.progress == 0
  {
    ActivateEffect(s, items, images, items[i].id);
    ExclusiveFirstActive(items, i);
  }

  /** Exactly one tab is without is-inactive. */
  predicate OneActive(inactive: seq<bool>)
  {
    FirstActive(inactive).Some? &&
    forall i :: 0 <= i < |inactive| && i != FirstActive(inactive).value ==> inactive[i]
  }

  /** With distinct data-tab values, activating any tab's data-tab leaves one tab active. */
  lemma ActivateOneActive(s: State, items: seq<TabItem>, images: seq<int>, n: int)
    requires Inv(s, items, images) && TabOrder.Distinct(Ids(items)) && n in Ids(items)
    ensures OneActive(Activate(s, items, images, n).inactive)
  {
    var k :| 0 <= k < |items| && Ids(items)[k] == n;
    ExclusiveFirstActive(items, k);
  }

  /** Every event keeps exactly one tab active: only activations restyle the tabs, and they
      activate a data-tab that some tab carries. */
  lemma StepOneActive(s: State, items: seq<TabItem>, images: seq<int>, e: PageEvent)
    requires Inv(s, items, images) && TabOrder.Distinct(Ids(items)) && OneActive(s.inactive)
    ensures OneActive(Step(s, items, images, e).inactive)
  {
    match e
    case IntervalTick =>
      if s.intervalLive && !s.paused && s.intersecting && s.progress + 1 >= Full {
        var s1 := s.(progress := s.progress + 1,
                     fill := s.fill[s.intervalBar := Some(Min(s.progress + 1, Full))],
                     intervalLive := false);
        ActivateOneActive(s1, items, images, TabOrder.NextTab(Ids(items), s.current));
      }
    case TabClick(i) =>
      if i < |items| && s.inactive[i] {
        ActivateOneActive(s, items, images, items[i].id);
      }
    case _ =>
  }

  /** Any number of interval periods keeps exactly one tab active. */
  lemma {:induction false} ElapseOneActive(s: State, items: seq<TabItem>, images: seq<int>, k: nat)
    requires Inv(s, items, images) && TabOrder.Distinct(Ids(items)) && OneActive(s.inactive)
    ensures OneActive(Elapse(s, items, images, k).inactive)
    decreases k
  {
    if k > 0 && s.intervalLive {
      StepOneActive(s, items, images, IntervalTick);
      ElapseOneActive(Tick(s, items, images), items, images, k - 1);
    }
  }

  /** Any sequence of events keeps exactly one tab active. */
  lemma {:induction false} RunOneActive(s: State, items: seq<TabItem>, images: seq<int>, events: seq<PageEvent>)
    requires Inv(s, items, images) && TabOrder.Distinct(Ids(items)) && OneActive(s.inactive)
    ensures OneActive(Run(s, items, images, events).inactive)
    decreases |events|
  {
    if events != [] {
      StepOneActive(s, items, images, events[0]);
      RunOneActive(Step(s, items, images, events[0]), items, images, events[1..]);
    }
  }

  /** From initialisation on, whatever the page delivers, exactly one tab is active. */
  lemma OneActiveAlways(items: seq<TabItem>, images: seq<int>, events: seq<PageEvent>)
    requires |items| > 0 && TabOrder.Distinct(Ids(items))
    ensures OneActive(Run(Init(items, images), items, images, events).inactive)
  {
    InitSelectsFirst(items, images);
    RunOneActive(Init(items, images), items, images, events);
  }

  /** While one tab is active, the hover check pauses exactly when the pointer is on it. */
  lemma HoverCheckOnActive(s: State, items: seq<TabItem>, images: seq<int>, pointer: Option<nat>)
    requires Inv(s, items, images) && s.pendingChecks > 0 && OneActive(s.inactive)
    ensures HoverCheck(s, items, images, pointer).paused <==>
              s.paused || (pointer.Some? && pointer.value < |items| && !s.inactive[pointer.value])
  {
    if pointer.Some? && pointer.value < |items| && !s.inactive[pointer.value] {
      assert pointer.value == FirstActive(s.inactive).value;
    }
  }
}
