/**
 * The auto-advancing tab carousel of initCustomTabs as a state machine over values.
 * Each event the page delivers (a visibility crossing, a 50 ms interval tick, a click,
 * mouseenter and mouseleave on a tab, the delayed hover check after an activation) is
 * a function from the state before it to the state after it. The class in module
 * Carousel runs the same events imperatively and is proved against these functions.
 *
 * Progress is counted in half-percent units: the source adds 100 / (10000 / 50) = 0.5
 * percent per 50 ms tick, so one unit per tick, and a bar is full at 200 units.
 */
module CarouselSpec {
  import opened Wrappers
  import TabOrder

  /** Progress units that make a full bar (100 percent, 10 000 ms of 50 ms ticks). */
  const Full: nat := 200

  /** One .tab-item: its data-tab ordinal; the natural height of its .tab-item-list, when it
      has one; whether it has a .tab-item-line and a .progress-bar-item. */
  datatype TabItem = TabItem(id: int, panel: Option<nat>, hasLine: bool, hasBar: bool)

  /** The inline height of a .tab-item-list. */
  datatype Height = Unstyled | Px(px: nat)

  /** The inline display of a .tab-image-item. */
  datatype Display = DisplayUnset | Block | DisplayNone

  /** The closure state of initCustomTabs and the inline styles and classes it writes. */
  datatype State = State(
    current: Option<int>,      // currentActiveTab
    progress: nat,             // progressWidth, in half-percent units
    paused: bool,              // isPaused
    intersecting: bool,        // isIntersecting
    intervalCreated: bool,     // progressInterval !== null (it is never reset)
    intervalLive: bool,        // the last interval created has not been cleared
    intervalBar: nat,          // the tab whose progress bar that interval fills
    inactive: seq<bool>,       // is-inactive on each tab
    heights: seq<Height>,      // each tab's .tab-item-list height
    lineHidden: seq<bool>,     // opacity '0' on each tab's .tab-item-line
    fill: seq<Option<nat>>,    // each tab's progress-bar height, in half-percent units
    display: seq<Display>,     // each image's display
    pendingChecks: nat)        // hover checks scheduled by activateTab that have not run

  function Ids(items: seq<TabItem>): (ids: seq<int>)
    ensures |ids| == |items| && forall i :: 0 <= i < |items| ==> ids[i] == items[i].id
  {
    seq(|items|, i requires 0 <= i < |items| => items[i].id)
  }

  function Min(a: int, b: int): int { if a <= b then a else b }

  /** The tab `querySelector('.tab-item:not(.is-inactive)')` finds: the first one not inactive. */
  function FirstActive(inactive: seq<bool>): (k: Option<nat>)
    ensures k.Some? ==> k.value < |inactive| && !inactive[k.value]
    ensures k.Some? ==> forall j :: 0 <= j < k.value ==> inactive[j]
    ensures k.None? <==> forall j :: 0 <= j < |inactive| ==> inactive[j]
  {
    if inactive == [] then None
    else if !inactive[0] then Some(0)
    else match FirstActive(inactive[1..])
      case None => None
      case Some(j) => Some(j + 1)
  }

  /** startProgressBar finds an active tab and a progress bar inside it. */
  predicate BarFound(inactive: seq<bool>, items: seq<TabItem>)
    requires |inactive| == |items|
  {
    FirstActive(inactive).Some? && items[FirstActive(inactive).value].hasBar
  }

  /** The sequences have one entry per tab and per image. */
  predicate Shaped(s: State, items: seq<TabItem>, images: seq<int>)
  {
    && |s.inactive| == |items| && |s.heights| == |items| && |s.lineHidden| == |items|
    && |s.fill| == |items| && |s.display| == |images|
  }

  /** What every reachable state satisfies. A live interval fills the bar of a tab that has
      one, is below full, and runs only after a tab was chosen. While visible with a tab
      chosen and no interval ever created, startProgressBar would find nothing to start. */
  predicate Inv(s: State, items: seq<TabItem>, images: seq<int>)
  {
    && TimerInv(s, items, images)
    && (s.intersecting && s.current.Some? && !s.intervalCreated ==> !BarFound(s.inactive, items))
  }

  /** The part of Inv about the shape of the state and the live interval. */
  predicate TimerInv(s: State, items: seq<TabItem>, images: seq<int>)
  {
    && Shaped(s, items, images)
    && s.progress <= Full
    && (s.intervalLive ==>
          s.intervalCreated && s.intervalBar < |items| && items[s.intervalBar].hasBar
          && s.progress < Full && s.current.Some?)
  }

  /** initTabHeights on the panels: the first tab's at its natural height, every other at 0. */
  function InitialHeights(items: seq<TabItem>): (heights: seq<Height>)
    ensures |heights| == |items|
  {
    seq(|items|, i requires 0 <= i < |items| =>
      if items[i].panel.None? then Unstyled
      else if i == 0 then Px(items[0].panel.value) else Px(0))
  }

  /** initTabHeights on the tabs: is-inactive on all but the first of n. */
  function InitialInactive(n: nat): (flags: seq<bool>)
    ensures |flags| == n
  {
    seq(n, i => i != 0)
  }

  /** initTabHeights on the m images: only the first displayed. */
  function InitialDisplay(m: nat): (display: seq<Display>)
    ensures |display| == m
  {
    seq(m, j => if j == 0 then Block else DisplayNone)
  }

  /** The state initCustomTabs sets up: nothing current, no interval, and, only when there is
      at least one tab, the styles of initTabHeights; without tabs the images keep no inline
      display. */
  function Init(items: seq<TabItem>, images: seq<int>): (s: State)
    ensures Inv(s, items, images)
  {
    var n := |items|;
    State(
      None, 0, false, false, false, false, 0,
      InitialInactive(n), InitialHeights(items), seq(n, i => false), seq(n, i => None),
      if n == 0 then seq(|images|, j => DisplayUnset) else InitialDisplay(|images|),
      0)
  }

  /** startProgressBar: when the first active tab has a progress bar, reset progress and that
      bar to 0, clear the previous interval and, only if visible, create a new one filling
      that bar. Otherwise nothing changes, and a live interval keeps running. */
  function StartProgress(s: State, items: seq<TabItem>): (r: State)
    requires |s.inactive| == |items| && |s.fill| == |items|
    // only the timer and the one bar it resets change
    ensures r.(progress := s.progress, fill := s.fill, intervalLive := s.intervalLive,
               intervalCreated := s.intervalCreated, intervalBar := s.intervalBar) == s
    ensures !BarFound(s.inactive, items) ==> r == s
    ensures BarFound(s.inactive, items) ==>
              var k := FirstActive(s.inactive).value;
              && r.progress == 0 && r.fill == s.fill[k := Some(0)]
              && (r.intervalLive <==> s.intersecting)
              && (s.intersecting ==> r.intervalCreated && r.intervalBar == k)
              && (!s.intersecting ==> r.intervalCreated == s.intervalCreated && r.intervalBar == s.intervalBar)
  {
    if !BarFound(s.inactive, items) then s
    else
      var k := FirstActive(s.inactive).value;
      s.(progress := 0, fill := s.fill[k := Some(0)],
         intervalLive := s.intersecting,
         intervalCreated := s.intervalCreated || s.intersecting,
         intervalBar := if s.intersecting then k else s.intervalBar)
  }

  /** The tabHeights object activateTab builds: every tab with a panel records its natural
      height under its data-tab, a later tab overwriting an earlier one with the same data-tab. */
  function MeasuredHeights(items: seq<TabItem>): (m: map<int, nat>)
    ensures forall i :: 0 <= i < |items| && items[i].panel.Some? ==> items[i].id in m
    ensures forall i :: 0 <= i < |items| && items[i].panel.Some? &&
              (forall j :: i < j < |items| && items[j].id == items[i].id ==> items[j].panel.None?)
              ==> m[items[i].id] == items[i].panel.value
  {
    if items == [] then map[]
    else
      var n := |items|;
      var m := MeasuredHeights(items[..n - 1]);
      assert forall i :: 0 <= i < n - 1 ==> items[..n - 1][i] == items[i];
      match items[n - 1].panel
      case None => m
      case Some(h) => m[items[n - 1].id := h]
  }

  /** is-inactive after activateTab(n): on every tab whose data-tab is not n. */
  function InactiveAfter(items: seq<TabItem>, n: int): (flags: seq<bool>)
    ensures |flags| == |items|
    ensures forall i :: 0 <= i < |items| ==> (!flags[i] <==> items[i].id == n)
    ensures FirstActive(flags).None? <==> n !in Ids(items)
    ensures FirstActive(flags).Some? ==>
              && items[FirstActive(flags).value].id == n
              && forall j :: 0 <= j < FirstActive(flags).value ==> items[j].id != n
  {
    seq(|items|, i requires 0 <= i < |items| => items[i].id != n)
  }

  /** Line opacity after activateTab: cleared everywhere, then '0' on the line of the tab just
      before each active tab. */
  function LinesAfter(items: seq<TabItem>, inactive: seq<bool>): (hidden: seq<bool>)
    requires |inactive| == |items|
    ensures |hidden| == |items|
    // for each active tab after the first, the line of the tab before it is hidden
    ensures forall i :: 0 < i < |items| && !inactive[i] ==> (hidden[i - 1] <==> items[i - 1].hasLine)
    // and no other line is
    ensures forall i :: 0 <= i < |items| && (i + 1 == |items| || inactive[i + 1]) ==> !hidden[i]
  {
    seq(|items|, i requires 0 <= i < |items| =>
      items[i].hasLine && i + 1 < |items| && !inactive[i + 1])
  }

  /** Panel heights after activateTab(n): panels of tabs with data-tab n at the measured
      height, every other panel at 0; tabs without a panel keep what they had. */
  function HeightsAfter(items: seq<TabItem>, n: int, m: map<int, nat>, heights: seq<Height>): (r: seq<Height>)
    requires |heights| == |items|
    requires forall i :: 0 <= i < |items| && items[i].panel.Some? ==> items[i].id in m
    ensures |r| == |items|
    ensures forall i :: 0 <= i < |items| && items[i].panel.None? ==> r[i] == heights[i]
    ensures forall i :: 0 <= i < |items| && items[i].panel.Some? ==>
              r[i] == if items[i].id == n then Px(m[n]) else Px(0)
    // at most the panels of tab n stay open
    ensures forall i :: 0 <= i < |items| && items[i].panel.Some? && r[i] != Px(0) ==> items[i].id == n
  {
    seq(|items|, i requires 0 <= i < |items| =>
      if items[i].panel.None? then heights[i]
      else if items[i].id == n then Px(m[n]) else Px(0))
  }

  /** Image display after activateTab(n): block for images with data-tab n, none for the rest. */
  function DisplayAfter(images: seq<int>, n: int): (r: seq<Display>)
    ensures |r| == |images|
    ensures forall j :: 0 <= j < |images| ==> r[j] != DisplayUnset
    ensures forall j :: 0 <= j < |images| ==> (r[j] == Block <==> images[j] == n)
  {
    seq(|images|, j requires 0 <= j < |images| => if images[j] == n then Block else DisplayNone)
  }

  /** The passes of activateTab before startProgressBar: classes, lines, panel heights and
      images for tab n, and n recorded as current. The timer is untouched. */
  function Restyle(s: State, items: seq<TabItem>, images: seq<int>, n: int): (r: State)
    requires Shaped(s, items, images)
    ensures TimerInv(s, items, images) ==> TimerInv(r, items, images)
  {
    var inactive := InactiveAfter(items, n);
    s.(inactive := inactive,
       lineHidden := LinesAfter(items, inactive),
       heights := HeightsAfter(items, n, MeasuredHeights(items), s.heights),
       display := DisplayAfter(images, n),
       current := Some(n))
  }

  /** activateTab(n): restyle every tab and image, record n as current, start the progress bar
      and schedule the hover check. isPaused is left as it was. */
  function Activate(s: State, items: seq<TabItem>, images: seq<int>, n: int): (r: State)
    requires Inv(s, items, images)
    ensures Inv(r, items, images)
  {
    var s2 := StartProgress(Restyle(s, items, images, n), items);
    s2.(pendingChecks := s2.pendingChecks + 1)
  }

  /** pauseProgress. */
  function Pause(s: State): (r: State)
    ensures r.paused && r.(paused := s.paused) == s
  {
    s.(paused := true)
  }

  /** resumeProgress: clear the pause, and start the progress bar only when visible, a tab
      is current and no interval was ever created. */
  function Resume(s: State, items: seq<TabItem>, images: seq<int>): (r: State)
    requires TimerInv(s, items, images)
    ensures Inv(r, items, images)
  {
    var s1 := s.(paused := false);
    if s1.intersecting && s1.current.Some? && !s1.intervalCreated then StartProgress(s1, items) else s1
  }

  /** The IntersectionObserver callback for one entry; halfVisible is intersectionRatio >= 0.5. */
  function Observe(s: State, items: seq<TabItem>, images: seq<int>, halfVisible: bool): (r: State)
    requires Inv(s, items, images)
    ensures Inv(r, items, images)
  {
    if halfVisible then
      if s.intersecting then s
      else
        var s1 := s.(intersecting := true);
        if s1.current.None? && |items| > 0 then StartProgress(s1.(current := Some(1)), items)
        else if s1.current.Some? then Resume(s1, items, images)
        else s1
    else if s.intersecting then Pause(s.(intersecting := false))
    else s
  }

  /** One firing of the live 50 ms interval. Only when not paused and visible: one more
      unit of progress, the bar shows min(progress, full), and on reaching full the interval
      is cleared and the next tab activated. */
  function Tick(s: State, items: seq<TabItem>, images: seq<int>): (r: State)
    requires Inv(s, items, images) && s.intervalLive
    ensures Inv(r, items, images)
  {
    if s.paused || !s.intersecting then s
    else
      var p := s.progress + 1;
      var s1 := s.(progress := p, fill := s.fill[s.intervalBar := Some(Min(p, Full))]);
      if p >= Full then
        Activate(s1.(intervalLive := false), items, images, TabOrder.NextTab(Ids(items), s1.current))
      else s1
  }

  /** A click on tab i: only an inactive tab is activated. */
  function Click(s: State, items: seq<TabItem>, images: seq<int>, i: nat): (r: State)
    requires Inv(s, items, images) && i < |items|
    ensures Inv(r, items, images)
  {
    if s.inactive[i] then Activate(s, items, images, items[i].id) else s
  }

  /** mouseenter on tab i: pauses only when that tab is active. */
  function MouseEnter(s: State, items: seq<TabItem>, images: seq<int>, i: nat): (r: State)
    requires Inv(s, items, images) && i < |items|
    ensures Inv(r, items, images)
  {
    if !s.inactive[i] then Pause(s) else s
  }

  /** mouseleave on tab i: resumes only when that tab is active. */
  function MouseLeave(s: State, items: seq<TabItem>, images: seq<int>, i: nat): (r: State)
    requires Inv(s, items, images) && i < |items|
    ensures Inv(r, items, images)
  {
    if !s.inactive[i] then Resume(s, items, images) else s
  }

  /** The check activateTab schedules 10 ms later: pause if the pointer (over tab `pointer`,
      if any) is on the first active tab. */
  function HoverCheck(s: State, items: seq<TabItem>, images: seq<int>, pointer: Option<nat>): (r: State)
    requires Inv(s, items, images) && s.pendingChecks > 0
    ensures Inv(r, items, images)
    // the check is used up and nothing but the pause flag can change
    ensures r.pendingChecks == s.pendingChecks - 1
    ensures r.(paused := s.paused, pendingChecks := s.pendingChecks) == s
    // it pauses exactly when the pointer is on a tab without is-inactive that no such tab precedes
    ensures r.paused <==>
              || s.paused
              || (pointer.Some? && pointer.value < |s.inactive| && !s.inactive[pointer.value] &&
                  forall j :: 0 <= j < pointer.value ==> s.inactive[j])
  {
    var s1 := s.(pendingChecks := s.pendingChecks - 1);
    if FirstActive(s.inactive).Some? && pointer == FirstActive(s.inactive) then Pause(s1) else s1
  }

  /** k periods of 50 ms with no other event: the live interval fires each period; once no
      interval is live nothing happens. */
  function Elapse(s: State, items: seq<TabItem>, images: seq<int>, k: nat): (r: State)
    requires Inv(s, items, images)
    ensures Inv(r, items, images)
    decreases k
  {
    if k == 0 || !s.intervalLive then s else Elapse(Tick(s, items, images), items, images, k - 1)
  }

  /** Everything the page can deliver to the carousel. */
  datatype PageEvent =
    | Visibility(halfVisible: bool)      // an IntersectionObserver entry
    | IntervalTick                       // the 50 ms interval fires
    | TabClick(i: nat)                   // click on tab i
    | TabEnter(i: nat)                   // mouseenter on tab i
    | TabLeave(i: nat)                   // mouseleave on tab i
    | HoverCheckRuns(pointer: Option<nat>)  // a scheduled hover check, the pointer over tab `pointer`

  /** The effect of one event. An event that cannot occur in the state (a tick with no live
      interval, a tab index past the last tab, a hover check none was scheduled for) is ignored. */
  function Step(s: State, items: seq<TabItem>, images: seq<int>, e: PageEvent): (r: State)
    requires Inv(s, items, images)
    ensures Inv(r, items, images)
  {
    match e
    case Visibility(halfVisible) => Observe(s, items, images, halfVisible)
    case IntervalTick => if s.intervalLive then Tick(s, items, images) else s
    case TabClick(i) => if i < |items| then Click(s, items, images, i) else s
    case TabEnter(i) => if i < |items| then MouseEnter(s, items, images, i) else s
    case TabLeave(i) => if i < |items| then MouseLeave(s, items, images, i) else s
    case HoverCheckRuns(pointer) => if s.pendingChecks > 0 then HoverCheck(s, items, images, pointer) else s
  }

  /** The events in order. */
  function Run(s: State, items: seq<TabItem>, images: seq<int>, events: seq<PageEvent>): (r: State)
    requires Inv(s, items, images)
    ensures Inv(r, items, images)
    decreases |events|
  {
    if events == [] then s else Run(Step(s, items, images, events[0]), items, images, events[1..])
  }
}
