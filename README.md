# NMOSD landing page: carousel, menus and analytics in Dafny

This project models the page behaviour in `src/js/main.js` and `src/js/dataLayer.js` of
the NMOSD landing page, and proves what that behaviour promises.

**Tab carousel (`initCustomTabs`).**
- The carousel's closure state is `currentActiveTab`, `progressWidth`, `isPaused`,
  `isIntersecting` and `progressInterval`. Its per-tab outputs are the `is-inactive` class,
  the `.tab-item-list` height, the `.tab-item-line` opacity, the progress-bar height and the
  image display.
- Module `CarouselSpec` states each page event as a function from the state before it to the
  state after it. The events are:
  - a visibility crossing of one half;
  - a 50 ms interval tick;
  - a click, mouseenter or mouseleave on a tab;
  - the hover check that runs 10 ms after an activation;
  - `k` periods of 50 ms (`Elapse`).
  `Step` dispatches one of these events and `Run` a sequence of them.
- Class `Carousel.TabCarousel` holds the same state in fields. Its methods update them in
  place and are proved equal to those functions. The `forEach` passes of `activateTab` and
  `initTabHeights` are loop methods, each proved against the function that specifies it.
- Progress counts half-percent units. `100 / (10000 / 50)` is half a percent per tick, so
  one tick is one unit and a bar is full at `Full = 200`.
- `progressInterval` is modelled by three fields:
  - `intervalCreated` is set once and never cleared, as in the source;
  - `intervalLive` says whether the last interval has not been cleared;
  - `intervalBar` is the tab whose bar that interval fills.
- Module `CarouselLaws` proves:
  - exactly one active tab from initialisation on, across any sequence of page events;
  - the cyclic auto-advance after exactly 200 effective ticks;
  - ticks that do nothing while paused or hidden;
  - hover and visibility round trips;
  - clicks that act only on inactive tabs;
  - a full three-tab cycle.
- Module `TabOrder` models `goToNextTab`'s ordering: sort the data-tab values, take `indexOf`,
  then step by one modulo the count.

**Smaller page rules in `main.js`.**
- The diagnosis tab switcher is `DiagnosisTabs.Switcher`.
- The sticky menu and its active link are `StickyMenu.Menu`.
- The horizontal menu's gradients are `MenuScroll.HorizontalMenu`.
- The radial chart's percentage text is `RadialChart`.
- Class lists, `trim` and `includes` are `Strings`.

**Analytics (`dataLayer.js`).**
- `window.dataLayer` is the `log` field of `Analytics.Tracker`. The scroll tracker's
  `triggeredThresholds` set and the section tracker's `viewedSections` set are fields of the
  same class.
- The invariant `Valid` says three things about this page's part of the log:
  - every threshold and every section was reported at most once;
  - the triggered set is exactly the set of thresholds reported;
  - the viewed set is exactly the set of sections reported.
- `getButtonInfo` and the two click listeners are functions in `AnalyticsRules`. They work
  over the path from the click target up to the root, so `closest` is a search along that path.

Behaviours modelled as the code has them, where a plain reading of the design would expect
otherwise:
- Going below half visibility only sets `isPaused`. The interval keeps firing, and its
  ticks do nothing.
- The hover check runs 10 ms after an activation, as a separate event, not immediately.
- `activateTab` leaves `isPaused` as it was.
- `startProgressBar` does nothing when no tab is active or the active tab has no progress
  bar. A live interval then keeps running.
- `resumeProgress` starts a bar only if no interval was ever created. So a click on a tab
  while the carousel is hidden, followed by scrolling back into view, leaves the carousel
  without a running interval until a tab is clicked again while the carousel is in view.
  `CarouselLaws.HiddenClickStalls` shows this on two tabs, and
  `CarouselLaws.ClickInViewRestarts` shows that such a click ends the stall: its
  `startProgressBar` clears the old interval and, the carousel being visible, creates a new one.

## Model

| member | source | states |
|---|---|---|
| ClassFlags.OnlyAtCount | src/js/main.js:304-315 | a flag list set only at position k has exactly one set flag when k is a position, and none otherwise |
| ClassFlags.ExclusiveFlags | src/js/main.js:304-315 | removing a class from every element and then adding it to element k leaves element i with it exactly when i = k; one element has it when k exists, none otherwise |
| TabOrder.Insert | src/js/main.js:191 | inserting into a sorted list keeps it sorted and adds exactly that element |
| TabOrder.SortAscending | src/js/main.js:191 | the numeric sort returns an ascending permutation of the data-tab values |
| TabOrder.SortedMembers | src/js/main.js:191 | sorting keeps exactly the same values |
| TabOrder.SortedDistinct | src/js/main.js:191 | distinct data-tab values sort strictly ascending |
| TabOrder.IndexOf | src/js/main.js:192 | indexOf is -1 exactly when the value is absent, and otherwise the first position holding it |
| TabOrder.Successor | src/js/main.js:192-194 | the chosen value is one of the sorted values |
| TabOrder.SuccessorAt | src/js/main.js:192-194 | from position i of a strictly ascending list, the next is position i+1, or position 0 after the last |
| TabOrder.SuccessorFromAbsent | src/js/main.js:192-194 | a current value that is null or absent (indexOf -1) selects position 0, the smallest value |
| TabOrder.SuccessorIsNext | src/js/main.js:192-194 | when larger values exist, the successor is larger than the current one and no larger than any of them |
| TabOrder.SuccessorWraps | src/js/main.js:192-194 | the successor of the largest value is the first, smallest, one |
| TabOrder.NextTab | src/js/main.js:189-194 | goToNextTab always selects one of the tabs' data-tab values |
| TabOrder.NextTabAt | src/js/main.js:189-194 | with distinct values, the tab after the i-th smallest is the (i+1)-th smallest, wrapping to the smallest |
| TabOrder.NextTabFromAbsent | src/js/main.js:189-194 | with no current tab, or one not among the values, the smallest value is selected |
| TabOrder.NextTabIsSuccessor | src/js/main.js:189-194 | with distinct values, the next tab is the smallest value larger than the current one |
| TabOrder.NextTabWraps | src/js/main.js:189-194 | with distinct values, the largest value is followed by the smallest |
| TabOrder.NextTabsAscend | src/js/main.js:189-194 | each value of the ascending order is followed by the next one in that order |
| TabOrder.AdvanceAlong | src/js/main.js:189-197 | repeating goToNextTab j times along a chain of successors reaches the j-th element of the chain |
| TabOrder.AdvanceVisits | src/js/main.js:189-197 | j advances from the smallest value reach the j-th smallest, so every tab is visited in ascending order |
| TabOrder.AdvanceCycles | src/js/main.js:189-197 | as many advances as there are tabs return to the first tab |
| Strings.TrimStart | src/js/dataLayer.js:115 | the result is a suffix of the input, everything removed is whitespace, and it starts with no whitespace |
| Strings.TrimEnd | src/js/dataLayer.js:115 | the result is a prefix of the input, everything removed is whitespace, and it ends with no whitespace |
| Strings.Trim | src/js/dataLayer.js:115 | the trimmed text neither starts nor ends with whitespace, is empty exactly when the text is all whitespace, and leaves clean text unchanged |
| Strings.TrimIdempotent | src/js/dataLayer.js:115 | trimming twice is trimming once |
| Strings.ContainsAt | src/js/dataLayer.js:129-133 | includes holds exactly when the needle starts at some position of the string |
| Strings.ContainsEmpty | src/js/dataLayer.js:161 | every string includes the empty string |
| Strings.LeadingToken | src/js/dataLayer.js:135-137 | the first class token is a whitespace-free prefix ending at whitespace or at the end |
| Strings.ClassTokens | src/js/dataLayer.js:135-137 | the class list holds only non-empty tokens without whitespace |
| Strings.ClassTokensAt | src/js/dataLayer.js:135-137 | for a class name without whitespace, classList.contains holds exactly when the name occurs in the attribute as a run bounded on each side by whitespace or an end |
| Strings.SingleClass | src/js/dataLayer.js:135-137 | a class attribute that is one token contains that token |
| CarouselSpec.FirstActive | src/js/main.js:156-157 | the tab found is the first without is-inactive; none is found exactly when every tab is inactive |
| CarouselSpec.MeasuredHeights | src/js/main.js:70-80 | every tab with a panel has its data-tab recorded, with its own natural height unless a later tab with the same data-tab overwrites it |
| CarouselSpec.StartProgress | src/js/main.js:155-186 | with no active tab or no bar in it nothing changes; otherwise progress and that bar reset to 0, an interval on that bar is live exactly when visible, and only the timer and that bar change |
| CarouselSpec.InactiveAfter | src/js/main.js:82-92 | a tab is left without is-inactive exactly when its data-tab is n; the first such tab is what startProgressBar finds, and none is found exactly when no tab carries n |
| CarouselSpec.LinesAfter | src/js/main.js:94-115 | for each active tab after the first, the line of the tab before it is hidden when it has one; no line before an inactive tab, and not the last tab's line, is hidden |
| CarouselSpec.HeightsAfter | src/js/main.js:118-131 | panels of tab n open to the measured height, every other panel closes to 0, tabs without a panel keep their height; only tab n's panels stay open |
| CarouselSpec.DisplayAfter | src/js/main.js:133-140 | every image gets an explicit display, block exactly for the images of tab n |
| CarouselSpec.Pause | src/js/main.js:201-203 | pauseProgress sets the pause flag and changes nothing else |
| CarouselSpec.Init | src/js/main.js:238-289 | the initial state satisfies the carousel invariant Inv |
| CarouselSpec.Restyle | src/js/main.js:82-143 | the restyling passes of activateTab keep the timer invariant |
| CarouselSpec.Activate | src/js/main.js:68-152 | activateTab keeps Inv |
| CarouselSpec.Resume | src/js/main.js:205-211 | resumeProgress leads to a state satisfying Inv |
| CarouselSpec.Observe | src/js/main.js:36-59 | the visibility callback keeps Inv |
| CarouselSpec.Tick | src/js/main.js:173-183 | an interval tick keeps Inv |
| CarouselSpec.Click | src/js/main.js:216-221 | a tab click keeps Inv |
| CarouselSpec.MouseEnter | src/js/main.js:224-228 | mouseenter keeps Inv |
| CarouselSpec.MouseLeave | src/js/main.js:230-234 | mouseleave keeps Inv |
| CarouselSpec.HoverCheck | src/js/main.js:145-151 | the delayed hover check uses up one scheduled check, changes nothing but the pause flag, and pauses exactly when the pointer is on the first tab without is-inactive; it keeps Inv |
| CarouselSpec.Elapse | src/js/main.js:173-184 | any number of 50 ms periods keep Inv |
| CarouselSpec.Step | src/js/main.js:36-234 | each page event delivered to the carousel keeps Inv |
| CarouselSpec.Run | src/js/main.js:36-234 | any sequence of page events keeps Inv |
| CarouselLaws.InitSelectsFirst | src/js/main.js:238-289 | after initialisation exactly the first tab is active and only the first image is displayed; no tab is current, progress is 0 and no interval exists |
| CarouselLaws.ExclusiveFirstActive | src/js/main.js:82-92 | with distinct data-tab values, activating tab k's value leaves exactly tab k without is-inactive, and it is the tab startProgressBar finds |
| CarouselLaws.MeasuredOwnHeight | src/js/main.js:70-80 | with distinct data-tab values, the height measured for tab k's value is tab k's own |
| CarouselLaws.ActivateSelects | src/js/main.js:68-152 | after activateTab for tab k with distinct values, these hold. Tab k alone is active. Its panel opens to its natural height and every other panel closes to 0. Only the line just before it is hidden. Only its images display. It is current, and the pause and visibility flags are unchanged. With a bar, progress and the bar restart from 0 and an interval on that bar is live iff visible. Without a bar, the timer is untouched. |
| CarouselLaws.ClickOnActiveIsNoop | src/js/main.js:216-221 | clicking the active tab changes no state at all |
| CarouselLaws.MouseOnInactiveIsNoop | src/js/main.js:224-234 | mouseenter and mouseleave on an inactive tab change nothing |
| CarouselLaws.HoverRoundTrip | src/js/main.js:201-211 | entering and leaving the active tab with no tick between keeps progress, selection and timer, and ends unpaused |
| CarouselLaws.ElapseWhileHeld | src/js/main.js:173-174 | while paused or hidden, any number of ticks change nothing |
| CarouselLaws.VisibilityRoundTrip | src/js/main.js:36-59 | falling below one half pauses and keeps progress; ticks while hidden do nothing; coming back resumes with the same progress, current tab and selection |
| CarouselLaws.RepeatedVisibilityIsNoop | src/js/main.js:38-58 | a notification on the side the carousel is already on changes nothing |
| CarouselLaws.FirstVisibilityStarts | src/js/main.js:40-46 | the first crossing into view with no current tab makes ordinal 1 current, keeps the first tab active and starts its bar from 0 when it has one |
| CarouselLaws.ElapseSplit | src/js/main.js:173-184 | elapsed time splits into consecutive periods |
| CarouselLaws.TicksAccumulate | src/js/main.js:173-176 | visible and unpaused, each tick below full adds one unit and shows it on the live bar; nothing else changes |
| CarouselLaws.FullBarAdvances | src/js/main.js:162-182 | from progress p, the (200 - p)-th effective tick clears the interval and activates goToNextTab's choice, restarting its bar from 0 when it has one |
| CarouselLaws.AutoAdvance | src/js/main.js:173-197 | with distinct values, a full bar hands over to the tab with the cyclic successor value, which becomes the only active tab |
| CarouselLaws.PeriodHandsOver | src/js/main.js:173-197 | a carousel running tab k from 0 runs the next tab from 0 after exactly 200 ticks |
| CarouselLaws.FollowsAbove | src/js/main.js:189-197 | among distinct values, the smallest value above the current one is next |
| CarouselLaws.FollowsLargest | src/js/main.js:189-197 | among distinct values, the smallest follows the largest |
| CarouselLaws.ThreeTabOrder | src/js/main.js:189-197 | the values 1, 2, 3 advance 1 to 2, 2 to 3 and 3 to 1 |
| CarouselLaws.ThreeTabCycle | src/js/main.js:36-197 | three tabs: once visible, tab 1 runs, then tabs 2 and 3 each after 200 ticks, then tab 1 again |
| CarouselLaws.HiddenClickStalls | src/js/main.js:167-172 | shown, hidden, a click on the other tab, shown again: that tab is current with progress 0 but no live interval, time then changes nothing, and a click on the other tab restarts the interval |
| CarouselLaws.ClickInViewRestarts | src/js/main.js:216-221 | with distinct values, a click on an inactive tab with a bar while the carousel is in view makes it the only active tab and runs a live interval on its bar from 0, whatever the interval's history |
| CarouselLaws.ActivateOneActive | src/js/main.js:82-92 | with distinct data-tab values, activating any tab's data-tab leaves exactly one tab active |
| CarouselLaws.StepOneActive | src/js/main.js:36-234 | every page event keeps exactly one tab active |
| CarouselLaws.ElapseOneActive | src/js/main.js:173-197 | any number of interval periods keep exactly one tab active |
| CarouselLaws.RunOneActive | src/js/main.js:36-234 | any sequence of page events keeps exactly one tab active |
| CarouselLaws.OneActiveAlways | src/js/main.js:238-289 | from initialisation on, whatever events the page delivers, exactly one tab is active |
| CarouselLaws.HoverCheckOnActive | src/js/main.js:145-151 | while one tab is active, the hover check pauses exactly when the pointer is on that tab |
| Carousel.MeasureHeights | src/js/main.js:70-80 | the measuring pass computes the height table of CarouselSpec.MeasuredHeights |
| Carousel.MarkInactive | src/js/main.js:82-92 | the two class passes mark is-inactive on exactly the tabs whose data-tab is not n |
| Carousel.HideLines | src/js/main.js:94-115 | the two line passes hide exactly the lines just before an active tab |
| Carousel.ApplyHeights | src/js/main.js:118-131 | the height pass opens the panels of tab n to the measured height, closes the others and leaves tabs without a panel alone |
| Carousel.ShowImages | src/js/main.js:133-140 | the image pass displays exactly the images of tab n |
| Carousel.FindActive | src/js/main.js:156 | the search finds the first tab without is-inactive |
| Carousel.FirstPanelOpen | src/js/main.js:251-265 | the panel pass opens the first panel to its natural height and closes the rest |
| Carousel.FirstTabOnly | src/js/main.js:267-275 | the class pass leaves only the first tab active |
| Carousel.FirstImageOnly | src/js/main.js:277-283 | the image pass displays only the first image |
| Carousel.TabCarousel.constructor | src/js/main.js:19-31 | the fields start as CarouselSpec.Init |
| Carousel.TabCarousel.StartProgressBar | src/js/main.js:155-186 | the fields change as CarouselSpec.StartProgress prescribes |
| Carousel.TabCarousel.RestylePasses | src/js/main.js:69-143 | the loops of activateTab compute exactly the inactive flags, separator lines, panel heights and image displays CarouselSpec prescribes for tab n |
| Carousel.TabCarousel.RestyleFor | src/js/main.js:69-143 | the passes of activateTab change the fields as CarouselSpec.Restyle prescribes and keep the timer invariant |
| Carousel.TabCarousel.ActivateTab | src/js/main.js:68-152 | activateTab changes the fields as CarouselSpec.Activate prescribes and keeps Valid |
| Carousel.TabCarousel.GoToNextTab | src/js/main.js:189-198 | goToNextTab activates TabOrder.NextTab of the data-tab values and the current tab |
| Carousel.TabCarousel.PauseProgress | src/js/main.js:201-203 | pauseProgress is CarouselSpec.Pause |
| Carousel.TabCarousel.ResumeProgress | src/js/main.js:205-211 | resumeProgress is CarouselSpec.Resume and establishes Valid |
| Carousel.TabCarousel.OnVisibility | src/js/main.js:36-59 | the observer callback is CarouselSpec.Observe |
| Carousel.TabCarousel.OnTick | src/js/main.js:173-184 | one interval firing is CarouselSpec.Tick |
| Carousel.TabCarousel.OnClick | src/js/main.js:216-221 | the click listener is CarouselSpec.Click |
| Carousel.TabCarousel.OnMouseEnter | src/js/main.js:224-228 | the mouseenter listener is CarouselSpec.MouseEnter |
| Carousel.TabCarousel.OnMouseLeave | src/js/main.js:230-234 | the mouseleave listener is CarouselSpec.MouseLeave |
| Carousel.TabCarousel.OnHoverCheck | src/js/main.js:145-151 | the delayed hover check is CarouselSpec.HoverCheck |
| DiagnosisTabs.Switcher.constructor | src/js/main.js:293-298 | the buttons and items start with the classes the markup gives them |
| DiagnosisTabs.Switcher.OnButtonClick | src/js/main.js:301-316 | after a click on button i, button i is the only active button; item i is the only active item if it exists, and otherwise no item is active; the counts are 1, and 1 or 0 |
| StickyMenu.SectionsOf | src/js/main.js:458-475 | every section found is the target of its link's '#id' href with a non-empty id, in link order |
| StickyMenu.LastQualifying | src/js/main.js:487-497 | the loop keeps the last section whose top is within the limit; none exactly when no section is within it |
| StickyMenu.LastLinkWithin | src/js/main.js:478-505 | the active link is the last anchored link whose section top is within the limit; none exactly when no anchored link qualifies |
| StickyMenu.ActiveLink | src/js/main.js:478-505 | the link chosen points to a section whose top is within the limit; none is chosen when no anchored link qualifies |
| StickyMenu.ActiveLinkIsLastWithin | src/js/main.js:478-505 | getSections followed by the selection loop chooses exactly that link |
| StickyMenu.GetSections | src/js/main.js:458-475 | the push loop builds the sections of StickyMenu.SectionsOf |
| StickyMenu.FindActiveSection | src/js/main.js:487-497 | the forEach reassigning activeSection computes StickyMenu.LastQualifying |
| StickyMenu.SelectLink | src/js/main.js:478-505 | the selection picks StickyMenu.LastLinkWithin with limit scrollTop + menuHeight + 10 |
| StickyMenu.Menu.constructor | src/js/main.js:558-575 | after initialisation menuOriginalTop is the hero content height, the menu is fixed iff scrollTop reaches it, and only the selected link is active |
| StickyMenu.Menu.MakeMenuFixed | src/js/main.js:422-437 | the menu is fixed afterwards, its styles and spacer follow, and nothing else changes; a second call does nothing |
| StickyMenu.Menu.MakeMenuNormal | src/js/main.js:440-455 | the menu is not fixed afterwards, its styles and spacer follow, and nothing else changes; a second call does nothing |
| StickyMenu.Menu.UpdateActiveMenuItem | src/js/main.js:478-506 | exactly the link of the last section within scrollTop + menuHeight + 10 is active, at most one link is active, and the fixed state is unchanged |
| StickyMenu.Menu.HandleScroll | src/js/main.js:524-544 | menuOriginalTop is set from the hero content only when it is 0; the menu is fixed iff scrollTop reaches it; the active link is reselected |
| StickyMenu.Menu.OnResize | src/js/main.js:578-586 | menuOriginalTop is recomputed; the menu is fixed iff scrollTop reaches it; the active link is reselected |
| MenuScroll.GradientsSignalOverflow | src/js/main.js:636-655 | at scroll position 0 no left gradient shows and scrolled to the end no right one, while a list overflowing by more than 10 px shows the right one at the start and the left one at the end; a list that overflows by more than 20 px shows at least one gradient wherever it is scrolled; one within 10 px shows no right gradient |
| MenuScroll.HorizontalMenu.constructor | src/js/main.js:600-615 | both gradients start hidden |
| MenuScroll.HorizontalMenu.UpdateGradientVisibility | src/js/main.js:636-655 | the left gradient shows iff scrollLeft > 10 and the right one iff scrollLeft < scrollWidth - clientWidth - 10 |
| MenuScroll.HorizontalMenu.HideGradients | src/js/main.js:658-661 | both gradients are hidden |
| MenuScroll.HorizontalMenu.CheckMenuScroll | src/js/main.js:618-633 | the list scrolls iff the screen is at most 1260 px wide; the result says so; the gradients follow the scroll position then and are hidden otherwise |
| RadialChart.Split | src/js/main.js:341 | split returns at least one piece, and no piece contains the separator |
| RadialChart.JoinSplit | src/js/main.js:341 | joining the pieces with the separator gives back the string |
| RadialChart.SplitJoin | src/js/main.js:341 | splitting the join of separator-free pieces gives back the pieces |
| RadialChart.LabelOf | src/js/main.js:340-347 | the number contains no '.' and is the text up to the first '.' or the end; the text is "%" or ',' followed by at least one character, then '%', with no '.' anywhere |
| RadialChart.RadialText | src/js/main.js:340-347 | the texts are produced exactly when data-percentage is present |
| RadialChart.WholeNumberLabel | src/js/main.js:340-347 | "a" reads a and "%" |
| RadialChart.DecimalLabel | src/js/main.js:340-347 | "a.b" reads a and ",b%" |
| RadialChart.TrailingDotLabel | src/js/main.js:340-347 | "a." reads a and "%" (an empty decimal part is dropped) |
| RadialChart.LabelOfPieces | src/js/main.js:340-347 | for any value with a '.', the number is the text before the first '.', and the text is "%" when nothing stands before the next '.' or the end, else ',' + that piece + '%'; anything after a second '.' is dropped |
| AnalyticsRules.Crossed | src/js/dataLayer.js:28-39 | the thresholds reported are exactly those of the list at or below the percentage and not reported before |
| AnalyticsRules.CrossedIncreasing | src/js/dataLayer.js:19-39 | from the ascending threshold list they are reported in ascending order |
| AnalyticsRules.ReachedMonotone | src/js/dataLayer.js:28-31 | scrolling further never un-reaches a threshold: the reached set, and its size, only grow with the percentage |
| AnalyticsRules.ReachedThresholds | src/js/dataLayer.js:19-31 | on the page's thresholds nothing is reached below 20, all five from 100, and in general the multiples of 20 from 20 up to the percentage |
| AnalyticsRules.ReportsOfAppend | src/js/dataLayer.js:10-13 | the thresholds and sections reported in an appended log are those of each part, in order |
| AnalyticsRules.ReportsOfScrollEvents | src/js/dataLayer.js:32-38 | scroll events report exactly their thresholds and no section |
| AnalyticsRules.PageLoadStartsSession | src/js/dataLayer.js:211-220 | a page whose log holds only page_load agrees with empty trackers |
| AnalyticsRules.SessionAfterScroll | src/js/dataLayer.js:28-39 | reporting new thresholds once each keeps the trackers in agreement with the log |
| AnalyticsRules.ScrollKeepsAgreement | src/js/dataLayer.js:22-41 | a scroll evaluation keeps every threshold reported at most once and the triggered set equal to the thresholds reported |
| AnalyticsRules.SessionAfterSection | src/js/dataLayer.js:77-89 | reporting a section not viewed before keeps every section reported at most once and the viewed set equal to the sections reported |
| AnalyticsRules.SessionAfterClick | src/js/dataLayer.js:166-205 | click events keep the trackers in agreement |
| AnalyticsRules.NothingReported | src/js/dataLayer.js:166-205 | click events report no threshold and no section |
| AnalyticsRules.Find | src/js/dataLayer.js:79 | find returns the first entry with the id, or none when no entry has it |
| AnalyticsRules.SectionNames | src/js/dataLayer.js:57-67 | with distinct ids, each listed section reports its own name, and an unlisted id reports itself |
| AnalyticsRules.SectionName | src/js/dataLayer.js:80-85 | section_name is the name of the first table entry with the id, and the id itself when no entry has it |
| AnalyticsRules.Closest | src/js/dataLayer.js:124 | closest finds the first element from the given one upwards that matches, or none when none matches |
| AnalyticsRules.Href | src/js/dataLayer.js:116 | a non-empty href property wins, else a non-empty href attribute, and the result is '' exactly when neither is non-empty |
| AnalyticsRules.Classify | src/js/dataLayer.js:120-152 | inside .tabs-diagnostico-nav the pair is tab_navigation and 'diagnostico_tabs'; otherwise inside the menu list it is navigation_menu and 'hero_menu'; outside sections and both it is generic and '' |
| AnalyticsRules.GetButtonInfo | src/js/dataLayer.js:112-163 | button_url is a non-empty href property, else a non-empty href attribute, and is '' exactly when neither is non-empty; button_target is the target property or ''; element_classes is the class attribute |
| AnalyticsRules.FirstApplying | src/js/dataLayer.js:129-139 | the first applying rule decides, and the default applies when none does |
| AnalyticsRules.FiveRules | src/js/dataLayer.js:129-139 | a five-rule priority list decides as the if/else chain does |
| AnalyticsRules.SectionButtonType | src/js/dataLayer.js:129-139 | inside a section the type is the first applying of azplay, azmed, identity.astrazeneca, btn-secondary, btn, else generic |
| AnalyticsRules.DiagnosisNavWins | src/js/dataLayer.js:148-152 | inside .tabs-diagnostico-nav the type is tab_navigation in 'diagnostico_tabs', whatever else holds |
| AnalyticsRules.MenuListOverrides | src/js/dataLayer.js:142-146 | inside the menu list and outside the diagnosis navigation, the type is navigation_menu in 'hero_menu' |
| AnalyticsRules.SectionDecides | src/js/dataLayer.js:120-140 | outside both, inside a section the priority decides and the context is that section's id; outside any section the type is generic with context '' |
| AnalyticsRules.ClassifyWithoutOverrides | src/js/dataLayer.js:120-152 | without the two overrides around it, the nearest section alone decides type and context |
| AnalyticsRules.ButtonLinkAndText | src/js/dataLayer.js:114-161 | is_external_link holds iff the href starts with "http" and the hostname occurs at no position; button_text is the trimmed first-span text, else the trimmed element text |
| AnalyticsRules.NoExternalWithoutHostname | src/js/dataLayer.js:161 | with an empty hostname no link is external |
| AnalyticsRules.ButtonListenerFires | src/js/dataLayer.js:170-175 | the listener's test holds exactly when the target or one of its ancestors is an A, a BUTTON or has class btn |
| AnalyticsRules.ButtonEvents | src/js/dataLayer.js:166-189 | the button listener pushes at most one entry, and only button clicks |
| AnalyticsRules.TabEvents | src/js/dataLayer.js:192-205 | the tab listener pushes at most one entry, and only tab interactions |
| AnalyticsRules.ClickEvents | src/js/dataLayer.js:166-205 | one click pushes at most two entries, all of them clicks or tab interactions |
| AnalyticsRules.TabEventsOf | src/js/dataLayer.js:192-205 | the tab listener reports the data-tab of the nearest .tab-item that has one |
| AnalyticsRules.PlainTabClick | src/js/dataLayer.js:166-205 | a click in a tab item with no link, button or .btn around it pushes exactly one tab interaction |
| AnalyticsRules.ButtonInTabClick | src/js/dataLayer.js:166-205 | a click on a link, button or .btn inside a tab item pushes the button click, then the tab interaction |
| Analytics.Tracker.constructor | src/js/dataLayer.js:7-13 | the earlier entries are kept, page_load is appended, the trackers start empty and agree with the log |
| Analytics.Tracker.Push | src/js/dataLayer.js:10-13 | exactly one entry is appended at the end and nothing before it changes |
| Analytics.Tracker.ReportThreshold | src/js/dataLayer.js:28-39 | a threshold reached and not reported before is reported once and added to the set; otherwise nothing changes |
| Analytics.Tracker.ReportThresholds | src/js/dataLayer.js:28-40 | the forEach appends exactly the events of the thresholds reached and not reported before, in list order, and adds exactly the reached thresholds to the set |
| Analytics.ThresholdStep | src/js/dataLayer.js:28-39 | one more threshold of the forEach keeps the account: the log holds the events of the thresholds crossed so far in list order and the set grew by exactly those reached |
| Analytics.CrossedStep | src/js/dataLayer.js:28-30 | with no repeated thresholds, the next threshold is reported after the earlier ones exactly when it is reached and not in the set as the pass left it |
| Analytics.Tracker.OnScroll | src/js/dataLayer.js:22-41 | handleScroll reports the not-yet-reported thresholds at or below the percentage in ascending order; the triggered set only grows, and each threshold is reported at most once per page |
| Analytics.Tracker.OnSectionEntry | src/js/dataLayer.js:72-92 | an entry at least half visible of a section not viewed before reports it once with its table name, falling back to the id; anything else changes nothing |
| Analytics.Tracker.ButtonListener | src/js/dataLayer.js:166-189 | the button listener appends exactly its button events |
| Analytics.Tracker.TabListener | src/js/dataLayer.js:192-205 | the tab listener appends exactly its tab events |
| Analytics.Tracker.OnClick | src/js/dataLayer.js:166-205 | a click appends the button events, then the tab events, and keeps the trackers in agreement |

## Left out

- Timer and observer plumbing. `setInterval`, `setTimeout`, `requestAnimationFrame`,
  IntersectionObserver, MutationObserver and the scroll and resize throttling are not
  modelled. Their callbacks are delivered as explicit events to the methods.
- The `requestAnimationFrame` deferral inside `activateTab`. The restyling it defers is
  applied at once.
- Layout measurement. `scrollHeight`, `offsetHeight`, `offsetTop`, `innerWidth` and the scroll
  offsets arrive as integer inputs. The overflow and transition styles that `initTabHeights`
  sets while measuring are not modelled.
- Floating point. The scroll percentage `Math.round((scrollTop / documentHeight) * 100)` is
  taken as an integer input. A NaN from a zero document height acts like a value below 20, and
  Infinity like one of at least 100.
- Tab ordinals. data-tab values are modelled as integers, which assumes each is a canonical
  decimal string for `parseInt`. A NaN ordinal from a missing or non-numeric data-tab is not
  modelled.
- Missing containers. When `initCustomTabs`, `initDiagnosticoTabs`, the sticky menu or the
  horizontal menu find no container, they return early. The models cover only the case
  where the component exists.
- Missing `.hero-content`. The sticky menu reads `document.querySelector('.hero-content').offsetHeight`
  (`src/js/main.js:531`, `562` and `583`) without a null check, and its early return
  (`src/js/main.js:404`) tests only the menu, the hero section and the links. Without a
  `.hero-content` element the initialisation throws a TypeError at line 562, before the scroll
  listener and the first `handleScroll` are set up. The model takes the hero content's height
  as a plain integer, so it assumes the element exists; the thrown error is not modelled.
- The pie-chart path generation (`src/js/main.js:353-396`) and the radial chart's
  stroke-dashoffset (`src/js/main.js:332-337`). These are trigonometry and floating-point
  arithmetic.
- `centerActiveMenuItem` and `observeActiveChanges` (`src/js/main.js:664-720`). These do
  pixel geometry and smooth scrolling. `setupEventListeners` only wires the events that the
  `MenuScroll.HorizontalMenu` methods receive.
- `smoothScrollTo` and the menu link click handler (`src/js/main.js:509-556`). These are a
  window scroll with no state of the component.
- `adjustHeroContentHeight`. It sets layout only.
- The spacer's height on resize. It is pixel layout; the model keeps only whether the spacer
  is shown.
- DOM creation. `createSpacer` and `createGradientIndicators` are reduced to their effect on
  the modelled flags.
- `src/js/animation.js`, `src/js/svg-inline.js`, `src/js/bundle.js` and
  `src/libs/tailwind.config.js` are not part of this model. They contain animation, network
  fetches, an import list and styling data.
- Payload fields. `page_url`, `page_title`, `timestamp` and `page_type` are not modelled,
  and neither is the `console.log` output. They are environment values.
- `element.className` on SVG elements, which is not a string. Every element is given a
  string class attribute.
- Analytics.Tracker.ButtonListener: the `|| element` fallback after `closest` is not
  modelled as a separate path. The contract of `AnalyticsRules.ButtonListenerFires` shows it
  is never taken.
- Carousel.TabCarousel.OnTick: the displayed bar height is kept in half-percent units, not as
  a CSS percentage string.
