/**
 * The decisions of dataLayer.js, as functions over values: which scroll thresholds a
 * scroll evaluation reports, the name a section view carries, what getButtonInfo reports
 * about a clicked element and which events a click produces. The page is reduced to the
 * elements on the path from the click target up to the root, each with the attributes and
 * query results the script reads.
 */
module AnalyticsRules {
  import opened Wrappers
  import opened Strings

  /** The button_type values getButtonInfo assigns. */
  datatype ButtonType =
    | Generic          // 'generic'
    | VideoLink        // 'video_link'
    | ExternalGuide    // 'external_guide'
    | Registration     // 'registration'
    | SecondaryAction  // 'secondary_action'
    | PrimaryAction    // 'primary_action'
    | NavigationMenu   // 'navigation_menu'
    | TabNavigation    // 'tab_navigation'

  /** The fields getButtonInfo returns. */
  datatype ButtonInfo = ButtonInfo(
    text: string,            // button_text
    buttonType: ButtonType,  // button_type
    url: string,             // button_url
    target: string,          // button_target
    sectionContext: string,  // section_context
    classes: string,         // element_classes
    isExternal: bool)        // is_external_link

  /** The entries the script pushes onto window.dataLayer, without the page_url, page_title
      and timestamp fields every entry also carries. */
  datatype Event =
    | PageLoad                                          // 'page_load'
    | ScrollView(percentage: int)                       // 'scroll_view'
    | SectionView(sectionId: string, sectionName: string)  // 'section_view'
    | ButtonClick(info: ButtonInfo)                     // 'button_click'
    | TabInteraction(tabId: string)                     // 'tab_interaction'

  /** One element: tagName, the class attribute, id, the text of its first descendant span
      (None when it has none), textContent, the href property (None where the element has
      none), the href attribute (None when absent), the target property and data-tab. */
  datatype Node = Node(
    tag: string, className: string, id: string, firstSpanText: Option<string>, text: string,
    hrefProperty: Option<string>, hrefAttribute: Option<string>, targetProperty: Option<string>,
    dataTab: Option<string>)

  // ---------------------------------------------------------------- scroll thresholds

  /** The scroll percentages reported, in this order. */
  const Thresholds: seq<int> := [20, 40, 60, 80, 100]

  predicate Increasing(s: seq<int>)
  {
    forall i, j :: 0 <= i < j < |s| ==> s[i] < s[j]
  }

  /** The thresholds of `ts` a scroll at `percentage` has reached. */
  function Reached(ts: seq<int>, percentage: int): (r: set<int>)
    ensures forall x :: x in r <==> x in ts && x <= percentage
  {
    set t | t in ts && t <= percentage
  }

  /** Scrolling further never un-reaches a threshold. */
  lemma ReachedMonotone(ts: seq<int>, p: int, q: int)
    requires p <= q
    ensures Reached(ts, p) <= Reached(ts, q)
    ensures |Reached(ts, p)| <= |Reached(ts, q)|
  {
    SubsetCard(Reached(ts, p), Reached(ts, q));
  }

  lemma {:induction false} SubsetCard<T>(a: set<T>, b: set<T>)
    requires a <= b
    ensures |a| <= |b|
    decreases |a|
  {
    if a != {} {
      var x :| x in a;
      SubsetCard(a - {x}, b - {x});
    }
  }

  /** Against the page's thresholds: nothing is reached below 20 percent, all five from
      100 percent, and otherwise the multiples of 20 up to the percentage. */
  lemma ReachedThresholds(p: int)
    ensures p < 20 ==> Reached(Thresholds, p) == {}
    ensures p >= 100 ==> Reached(Thresholds, p) == {20, 40, 60, 80, 100}
    ensures 40 <= p < 60 ==> Reached(Thresholds, p) == {20, 40}
    ensures forall x :: x in Reached(Thresholds, p) <==> 20 <= x <= p && x <= 100 && x % 20 == 0
  {
  }

  /** The thresholds a scroll evaluation at `percentage` reports: those reached and not
      reported before, in the order of `ts`. */
  function Crossed(ts: seq<int>, triggered: set<int>, percentage: int): (r: seq<int>)
    ensures forall x :: x in r <==> x in ts && x <= percentage && x !in triggered
    ensures |r| <= |ts|
  {
    if ts == [] then []
    else
      var n := |ts|;
      var t := ts[n - 1];
      var prefix := Crossed(ts[..n - 1], triggered, percentage);
      assert forall x :: x in ts <==> x in ts[..n - 1] || x == t by {
        assert ts == ts[..n - 1] + [t];
      }
      if percentage >= t && t !in triggered then prefix + [t] else prefix
  }

  /** Reported thresholds come in ascending order, so each at most once. */
  lemma {:induction false} CrossedIncreasing(ts: seq<int>, triggered: set<int>, percentage: int)
    requires Increasing(ts)
    ensures Increasing(Crossed(ts, triggered, percentage))
  {
    if ts != [] {
      var n := |ts|;
      var prefix := ts[..n - 1];
      assert Increasing(prefix);
      CrossedIncreasing(prefix, triggered, percentage);
      var c := Crossed(prefix, triggered, percentage);
      var t := ts[n - 1];
      forall x | x in c ensures x < t {
        var k :| 0 <= k < n - 1 && prefix[k] == x;
        assert ts[k] == x;
      }
      if percentage >= t && t !in triggered {
        var r := c + [t];
        forall i, j | 0 <= i < j < |r| ensures r[i] < r[j] {
          if j < |c| {
            assert r[i] == c[i] && r[j] == c[j];
          } else {
            assert r[i] in c;
          }
        }
      }
    }
  }

  /** The events for reported thresholds. */
  function ScrollEvents(ts: seq<int>): (es: seq<Event>)
    ensures |es| == |ts| && forall i :: 0 <= i < |ts| ==> es[i] == ScrollView(ts[i])
  {
    seq(|ts|, i requires 0 <= i < |ts| => ScrollView(ts[i]))
  }

  /** The scroll percentages reported in a stretch of the log, in order. */
  function ScrollPercentages(log: seq<Event>): seq<int>
  {
    if log == [] then []
    else
      var prefix := ScrollPercentages(log[..|log| - 1]);
      match log[|log| - 1]
      case ScrollView(p) => prefix + [p]
      case _ => prefix
  }

  /** The section ids viewed in a stretch of the log, in order. */
  function ViewedIds(log: seq<Event>): seq<string>
  {
    if log == [] then []
    else
      var prefix := ViewedIds(log[..|log| - 1]);
      match log[|log| - 1]
      case SectionView(id, _) => prefix + [id]
      case _ => prefix
  }

  /** Appending to the log appends to what it reports. */
  lemma {:induction false} ReportsOfAppend(a: seq<Event>, b: seq<Event>)
    ensures ScrollPercentages(a + b) == ScrollPercentages(a) + ScrollPercentages(b)
    ensures ViewedIds(a + b) == ViewedIds(a) + ViewedIds(b)
    decreases |b|
  {
    if b == [] {
      assert a + b == a;
    } else {
      var n := |b|;
      assert (a + b)[..|a + b| - 1] == a + b[..n - 1];
      ReportsOfAppend(a, b[..n - 1]);
    }
  }

  /** Scroll events report their thresholds and no section. */
  lemma {:induction false} ReportsOfScrollEvents(ts: seq<int>)
    ensures ScrollPercentages(ScrollEvents(ts)) == ts
    ensures ViewedIds(ScrollEvents(ts)) == []
  {
    if ts != [] {
      var n := |ts|;
      assert ScrollEvents(ts)[..n - 1] == ScrollEvents(ts[..n - 1]);
      ReportsOfScrollEvents(ts[..n - 1]);
      assert ts[..n - 1] + [ts[n - 1]] == ts;
    }
  }

  /** No element occurs twice. */
  predicate NoRepeats<T(==)>(s: seq<T>)
  {
    forall i, j :: 0 <= i < j < |s| ==> s[i] != s[j]
  }

  /** What the trackers remember agrees with what this page pushed: every threshold and every
      section was reported at most once, and the triggered and viewed sets are exactly what
      was reported. */
  ghost predicate SessionAgrees(session: seq<Event>, triggered: set<int>, viewed: set<string>)
  {
    && NoRepeats(ScrollPercentages(session))
    && (forall t :: t in ScrollPercentages(session) <==> t in triggered)
    && NoRepeats(ViewedIds(session))
    && (forall id :: id in ViewedIds(session) <==> id in viewed)
  }

  /** Reporting thresholds not reported before, each once, keeps the trackers in agreement. */
  lemma {:induction false} SessionAfterScroll(session: seq<Event>, triggered: set<int>, viewed: set<string>, c: seq<int>)
    requires SessionAgrees(session, triggered, viewed)
    requires NoRepeats(c) && forall x :: x in c ==> x !in triggered
    ensures SessionAgrees(session + ScrollEvents(c), triggered + (set x | x in c), viewed)
  {
    ReportsOfAppend(session, ScrollEvents(c));
    ReportsOfScrollEvents(c);
    var old_ := ScrollPercentages(session);
    var all := old_ + c;
    forall i, j | 0 <= i < j < |all| ensures all[i] != all[j] {
      if j < |old_| {
        assert all[i] == old_[i] && all[j] == old_[j];
      } else if i >= |old_| {
        assert all[i] == c[i - |old_|] && all[j] == c[j - |old_|];
      } else {
        assert all[i] == old_[i] && all[i] in triggered;
        assert all[j] == c[j - |old_|] && all[j] in c;
      }
    }
    assert ViewedIds(session + ScrollEvents(c)) == ViewedIds(session) + [];
  }

  /** A page whose only entry is the page load has reported nothing. */
  lemma PageLoadStartsSession()
    ensures SessionAgrees([PageLoad], {}, {})
  {
    assert [PageLoad][..0] == [];
  }

  /** An increasing list has no repeats. */
  lemma IncreasingNoRepeats(s: seq<int>)
    requires Increasing(s)
    ensures NoRepeats(s)
  {
  }

  /** A scroll evaluation over increasing thresholds keeps the trackers in agreement: the
      triggered set grows by exactly the thresholds reached. */
  lemma ScrollKeepsAgreement(session: seq<Event>, triggered: set<int>, viewed: set<string>, ts: seq<int>, percentage: int)
    requires SessionAgrees(session, triggered, viewed) && Increasing(ts)
    ensures SessionAgrees(session + ScrollEvents(Crossed(ts, triggered, percentage)),
                          triggered + Reached(ts, percentage), viewed)
  {
    var c := Crossed(ts, triggered, percentage);
    CrossedIncreasing(ts, triggered, percentage);
    IncreasingNoRepeats(c);
    SessionAfterScroll(session, triggered, viewed, c);
    assert triggered + (set x | x in c) == triggered + Reached(ts, percentage);
  }

  /** Reporting a section not viewed before keeps the trackers in agreement. */
  lemma {:induction false} SessionAfterSection(session: seq<Event>, triggered: set<int>, viewed: set<string>, id: string, name: string)
    requires SessionAgrees(session, triggered, viewed) && id !in viewed
    ensures SessionAgrees(session + [SectionView(id, name)], triggered, viewed + {id})
  {
    var s2 := session + [SectionView(id, name)];
    assert s2[..|s2| - 1] == session;
    var ids := ViewedIds(session);
    assert ViewedIds(s2) == ids + [id];
    forall i, j | 0 <= i < j < |ids + [id]| ensures (ids + [id])[i] != (ids + [id])[j] {
      if j < |ids| {
        assert (ids + [id])[i] == ids[i] && (ids + [id])[j] == ids[j];
      } else {
        assert (ids + [id])[i] == ids[i] && ids[i] in viewed;
      }
    }
  }

  /** Clicks report neither thresholds nor sections, so the trackers stay in agreement. */
  lemma {:induction false} SessionAfterClick(session: seq<Event>, triggered: set<int>, viewed: set<string>, es: seq<Event>)
    requires SessionAgrees(session, triggered, viewed)
    requires forall e :: e in es ==> e.ButtonClick? || e.TabInteraction?
    ensures SessionAgrees(session + es, triggered, viewed)
  {
    ReportsOfAppend(session, es);
    NothingReported(es);
    assert ScrollPercentages(session + es) == ScrollPercentages(session) + [];
    assert ViewedIds(session + es) == ViewedIds(session) + [];
  }

  /** Click events report nothing to the trackers. */
  lemma {:induction false} NothingReported(es: seq<Event>)
    requires forall e :: e in es ==> e.ButtonClick? || e.TabInteraction?
    ensures ScrollPercentages(es) == [] && ViewedIds(es) == []
  {
    if es != [] {
      assert es[|es| - 1] in es;
      var prefix := es[..|es| - 1];
      assert forall e :: e in prefix ==> e in es;
      NothingReported(prefix);
    }
  }

  // ---------------------------------------------------------------- section names

  /** The sections the script observes, by element id, with the names it reports. */
  const SectionTable: seq<(string, string)> := [
    ("o-que-e-nmosd", "O que é NMOSD"),
    ("epidemiologia-da-nmosd", "Epidemiologia"),
    ("sintomas-da-nmosd", "Principais sintomas"),
    ("nmosd-x-esclerose-multipla", "NMOSD x Esclerose Múltipla"),
    ("diagnostico-da-nmosd", "Diagnóstico"),
    ("tratamento-da-nmosd", "Tratamento"),
    ("fisiopatologia-da-nmosd", "Fisiopatologia"),
    ("portal-medico", "Portal Médico"),
    ("conteudo-exclusivo", "Conteúdo Exclusivo")]

  /** Array.prototype.find over the table: the first entry with this id. */
  function Find(table: seq<(string, string)>, id: string): (r: Option<nat>)
    ensures r.Some? ==> r.value < |table| && table[r.value].0 == id
                        && forall j :: 0 <= j < r.value ==> table[j].0 != id
    ensures r.None? ==> forall j :: 0 <= j < |table| ==> table[j].0 != id
  {
    if table == [] then None
    else if table[0].0 == id then Some(0)
    else match Find(table[1..], id)
      case None => None
      case Some(j) => Some(j + 1)
  }

  /** section_name: the table's name for the id, or the id itself. */
  function SectionName(table: seq<(string, string)>, id: string): (name: string)
    ensures forall k :: (0 <= k < |table| && table[k].0 == id &&
                         forall j :: 0 <= j < k ==> table[j].0 != id) ==> name == table[k].1
    ensures (forall k :: 0 <= k < |table| ==> table[k].0 != id) ==> name == id
  {
    match Find(table, id)
    case Some(k) => table[k].1
    case None => id
  }

  /** With distinct ids in the table, every listed section reports its own name, and an id
      the table does not list reports itself. */
  lemma SectionNames(table: seq<(string, string)>, id: string)
    requires forall i, j :: 0 <= i < j < |table| ==> table[i].0 != table[j].0
    ensures forall k :: 0 <= k < |table| ==> SectionName(table, table[k].0) == table[k].1
    ensures (forall k :: 0 <= k < |table| ==> table[k].0 != id) ==> SectionName(table, id) == id
  {
    forall k | 0 <= k < |table| ensures SectionName(table, table[k].0) == table[k].1 {
      var r := Find(table, table[k].0);
      assert r.Some?;
      assert !(r.value > k);
      assert !(r.value < k);
    }
  }

  // ---------------------------------------------------------------- clicked elements

  /** Element.closest over the path from an element up to the root: the first element from
      position `from` on that satisfies p. */
  function Closest(path: seq<Node>, from: nat, p: Node -> bool): (r: Option<nat>)
    ensures r.Some? ==> from <= r.value < |path| && p(path[r.value])
                        && forall j :: from <= j < r.value ==> !p(path[j])
    ensures r.None? ==> forall j :: from <= j < |path| ==> !p(path[j])
    decreases |path| - from
  {
    if from >= |path| then None
    else if p(path[from]) then Some(from)
    else Closest(path, from + 1, p)
  }

  predicate IsAnchor(n: Node) { n.tag == "A" }
  predicate IsButton(n: Node) { n.tag == "BUTTON" }
  predicate IsBtn(n: Node) { HasClass(n.className, "btn") }
  predicate IsSection(n: Node) { n.tag == "SECTION" }
  predicate IsMenuList(n: Node) { HasClass(n.className, "hero-content-menu-list") }
  predicate IsDiagnosisNav(n: Node) { HasClass(n.className, "tabs-diagnostico-nav") }
  predicate IsTabItem(n: Node) { HasClass(n.className, "tab-item") }

  /** The selector 'a, button, .btn'. */
  predicate IsClickable(n: Node) { IsAnchor(n) || IsButton(n) || IsBtn(n) }

  /** A string attribute or property that JavaScript treats as true: present and not empty. */
  predicate Truthy(v: Option<string>) { v.Some? && v.value != "" }

  /** `element.href || element.getAttribute('href') || ''`. */
  function Href(n: Node): (url: string)
    ensures n.hrefProperty.Some? && n.hrefProperty.value != "" ==> url == n.hrefProperty.value
    ensures ((n.hrefProperty.None? || n.hrefProperty.value == "") &&
             n.hrefAttribute.Some? && n.hrefAttribute.value != "") ==> url == n.hrefAttribute.value
    ensures url == "" <==> (n.hrefProperty.None? || n.hrefProperty.value == "") &&
                           (n.hrefAttribute.None? || n.hrefAttribute.value == "")
  {
    if Truthy(n.hrefProperty) then n.hrefProperty.value
    else if Truthy(n.hrefAttribute) then n.hrefAttribute.value
    else ""
  }

  /** The classification inside a section, as getButtonInfo's if/else chain: the first
      applying rule of the priority list decides. */
  function SectionButtonType(href: string, className: string): (t: ButtonType)
    ensures t == FirstApplying(PriorityRules(href, className), Generic)
  {
    FiveRules(Contains(href, "azplay.com.br"), Contains(href, "azmed.com.br"),
              Contains(href, "identity.astrazeneca.com"), HasClass(className, "btn-secondary"),
              HasClass(className, "btn"));
    if Contains(href, "azplay.com.br") then VideoLink
    else if Contains(href, "azmed.com.br") then ExternalGuide
    else if Contains(href, "identity.astrazeneca.com") then Registration
    else if HasClass(className, "btn-secondary") then SecondaryAction
    else if HasClass(className, "btn") then PrimaryAction
    else Generic
  }

  /** The button_type and section_context getButtonInfo settles on for the element at
      position `at` with this href: set from the nearest section, then overridden inside the
      menu list, then overridden inside the diagnosis tab navigation. */
  function Classify(path: seq<Node>, at: nat, href: string): (r: (ButtonType, string))
    requires at < |path|
    ensures (exists j :: at <= j < |path| && IsDiagnosisNav(path[j])) ==>
              r == (TabNavigation, "diagnostico_tabs")
    ensures (forall j :: at <= j < |path| ==> !IsDiagnosisNav(path[j])) &&
            (exists j :: at <= j < |path| && IsMenuList(path[j])) ==>
              r == (NavigationMenu, "hero_menu")
    ensures (forall j :: at <= j < |path| ==> !IsSection(path[j])) &&
            (forall j :: at <= j < |path| ==> !IsDiagnosisNav(path[j]) && !IsMenuList(path[j])) ==>
              r == (Generic, "")
  {
    var section := Closest(path, at, IsSection);
    var buttonType, context :=
      if section.Some? then SectionButtonType(href, path[at].className) else Generic,
      if section.Some? then path[section.value].id else "";
    var buttonType, context :=
      if Closest(path, at, IsMenuList).Some? then NavigationMenu else buttonType,
      if Closest(path, at, IsMenuList).Some? then "hero_menu" else context;
    if Closest(path, at, IsDiagnosisNav).Some? then (TabNavigation, "diagnostico_tabs")
    else (buttonType, context)
  }

  /** getButtonInfo for the element at position `at` of the path. */
  function GetButtonInfo(path: seq<Node>, at: nat, hostname: string): (info: ButtonInfo)
    requires at < |path|
    // button_url: a non-empty href property wins, else a non-empty href attribute, else ""
    ensures path[at].hrefProperty.Some? && path[at].hrefProperty.value != "" ==>
              info.url == path[at].hrefProperty.value
    ensures (path[at].hrefProperty.None? || path[at].hrefProperty.value == "") &&
            path[at].hrefAttribute.Some? && path[at].hrefAttribute.value != "" ==>
              info.url == path[at].hrefAttribute.value
    ensures info.url == "" <==>
              (path[at].hrefProperty.None? || path[at].hrefProperty.value == "") &&
              (path[at].hrefAttribute.None? || path[at].hrefAttribute.value == "")
    // button_target: the target property when non-empty, else ""
    ensures info.target == (if path[at].targetProperty.Some? then path[at].targetProperty.value else "")
    ensures info.classes == path[at].className
  {
    var el := path[at];
    var text := match el.firstSpanText
      case Some(t) => Trim(t)
      case None => Trim(el.text);
    var href := Href(el);
    var target := if Truthy(el.targetProperty) then el.targetProperty.value else "";
    var (buttonType, context) := Classify(path, at, href);
    ButtonInfo(text, buttonType, href, target, context, el.className,
               StartsWith(href, "http") && !Contains(href, hostname))
  }

  /** The section classification as a priority list: the first rule that applies decides. */
  function PriorityRules(href: string, className: string): seq<(bool, ButtonType)>
  {
    [(Contains(href, "azplay.com.br"), VideoLink),
     (Contains(href, "azmed.com.br"), ExternalGuide),
     (Contains(href, "identity.astrazeneca.com"), Registration),
     (HasClass(className, "btn-secondary"), SecondaryAction),
     (HasClass(className, "btn"), PrimaryAction)]
  }

  /** The type of the first rule that applies, or the default. */
  function FirstApplying(rules: seq<(bool, ButtonType)>, default: ButtonType): (r: ButtonType)
    ensures (forall k :: 0 <= k < |rules| ==> !rules[k].0) ==> r == default
    ensures forall k :: 0 <= k < |rules| && rules[k].0 && (forall j :: 0 <= j < k ==> !rules[j].0) ==>
              r == rules[k].1
  {
    if rules == [] then default
    else if rules[0].0 then rules[0].1
    else FirstApplying(rules[1..], default)
  }

  /** Five rules decide as the if/else chain does. */
  lemma FiveRules(a: bool, b: bool, c: bool, d: bool, e: bool)
    ensures FirstApplying([(a, VideoLink), (b, ExternalGuide), (c, Registration),
                           (d, SecondaryAction), (e, PrimaryAction)], Generic) ==
            if a then VideoLink else if b then ExternalGuide else if c then Registration
            else if d then SecondaryAction else if e then PrimaryAction else Generic
  {
    var r4 := [(e, PrimaryAction)];
    var r3 := [(d, SecondaryAction)] + r4;
    var r2 := [(c, Registration)] + r3;
    var r1 := [(b, ExternalGuide)] + r2;
    var r0 := [(a, VideoLink)] + r1;
    assert r4[1..] == [] && r3[1..] == r4 && r2[1..] == r3 && r1[1..] == r2 && r0[1..] == r1;
    assert FirstApplying(r4, Generic) == if e then PrimaryAction else Generic;
    assert FirstApplying(r3, Generic) == if d then SecondaryAction else FirstApplying(r4, Generic);
    assert FirstApplying(r2, Generic) == if c then Registration else FirstApplying(r3, Generic);
    assert FirstApplying(r1, Generic) == if b then ExternalGuide else FirstApplying(r2, Generic);
    assert FirstApplying(r0, Generic) == if a then VideoLink else FirstApplying(r1, Generic);
    assert r0 == [(a, VideoLink), (b, ExternalGuide), (c, Registration), (d, SecondaryAction), (e, PrimaryAction)];
  }

  /** Inside .tabs-diagnostico-nav a button is tab navigation in 'diagnostico_tabs',
      whatever else holds. */
  lemma DiagnosisNavWins(path: seq<Node>, at: nat, hostname: string, j: nat)
    requires at <= j < |path| && IsDiagnosisNav(path[j])
    ensures GetButtonInfo(path, at, hostname).buttonType == TabNavigation
    ensures GetButtonInfo(path, at, hostname).sectionContext == "diagnostico_tabs"
  {
    assert Classify(path, at, Href(path[at])) == (TabNavigation, "diagnostico_tabs");
  }

  /** Otherwise, inside the menu list a button is menu navigation in 'hero_menu'. */
  lemma MenuListOverrides(path: seq<Node>, at: nat, hostname: string, j: nat)
    requires at <= j < |path| && IsMenuList(path[j])
    requires forall i :: at <= i < |path| ==> !IsDiagnosisNav(path[i])
    ensures GetButtonInfo(path, at, hostname).buttonType == NavigationMenu
    ensures GetButtonInfo(path, at, hostname).sectionContext == "hero_menu"
  {
    assert Classify(path, at, Href(path[at])) == (NavigationMenu, "hero_menu");
  }

  /** Outside both, inside a section the first applying priority rule decides and the
      context is the nearest section's id; outside any section the button is generic with
      an empty context. */
  lemma SectionDecides(path: seq<Node>, at: nat, hostname: string)
    requires at < |path|
    requires forall i :: at <= i < |path| ==> !IsDiagnosisNav(path[i]) && !IsMenuList(path[i])
    ensures var info := GetButtonInfo(path, at, hostname);
      var section := Closest(path, at, IsSection);
      if section.Some? then
        info.buttonType == FirstApplying(PriorityRules(Href(path[at]), path[at].className), Generic)
        && info.sectionContext == path[section.value].id
      else info.buttonType == Generic && info.sectionContext == ""
  {
    var href := Href(path[at]);
    ClassifyWithoutOverrides(path, at, href);
    var info := GetButtonInfo(path, at, hostname);
    assert (info.buttonType, info.sectionContext) == Classify(path, at, href);
  }

  /** Without the menu list or the diagnosis navigation around it, the nearest section alone
      decides. */
  lemma ClassifyWithoutOverrides(path: seq<Node>, at: nat, href: string)
    requires at < |path|
    requires forall i :: at <= i < |path| ==> !IsDiagnosisNav(path[i]) && !IsMenuList(path[i])
    ensures var section := Closest(path, at, IsSection);
      Classify(path, at, href) ==
        if section.Some? then (SectionButtonType(href, path[at].className), path[section.value].id)
        else (Generic, "")
  {
    assert Closest(path, at, IsMenuList).None? && Closest(path, at, IsDiagnosisNav).None?;
  }

  /** The link is external exactly when its href starts with "http" and the page's
      hostname occurs at no position in it; the text is the trimmed text of the first span,
      or of the element when it has no span. */
  lemma ButtonLinkAndText(path: seq<Node>, at: nat, hostname: string)
    requires at < |path|
    ensures var info := GetButtonInfo(path, at, hostname);
      var href := Href(path[at]);
      && (info.isExternal <==>
            StartsWith(href, "http") && forall i :: 0 <= i <= |href| ==> !StartsWith(href[i..], hostname))
      && info.text == Trim(if path[at].firstSpanText.Some? then path[at].firstSpanText.value else path[at].text)
  {
    ContainsAt(Href(path[at]), hostname);
  }

  /** On a page served with an empty hostname (a file opened from disk), no link is external,
      since every string includes the empty string. */
  lemma NoExternalWithoutHostname(path: seq<Node>, at: nat)
    requires at < |path|
    ensures !GetButtonInfo(path, at, "").isExternal
  {
    ContainsEmpty(Href(path[at]));
  }

  /** The test of the button listener, as written: the target is an A or a BUTTON or has
      class btn, or has an ancestor-or-self matching 'a', 'button' or '.btn'. */
  predicate ButtonListenerFires(path: seq<Node>): (fires: bool)
    requires |path| > 0
    ensures fires <==> exists j :: 0 <= j < |path| && IsClickable(path[j])
  {
    AnyOfThree(path);
    IsAnchor(path[0]) || IsButton(path[0]) || IsBtn(path[0])
    || Closest(path, 0, IsAnchor).Some? || Closest(path, 0, IsButton).Some? || Closest(path, 0, IsBtn).Some?
  }

  /** Some element matches one of the three selectors exactly when one matches one of them
      on its own. */
  lemma AnyOfThree(path: seq<Node>)
    ensures (exists j :: 0 <= j < |path| && IsClickable(path[j])) <==>
            Closest(path, 0, IsAnchor).Some? || Closest(path, 0, IsButton).Some? || Closest(path, 0, IsBtn).Some?
  {
    if j :| 0 <= j < |path| && IsClickable(path[j]) {
      if IsAnchor(path[j]) {
        assert Closest(path, 0, IsAnchor).Some?;
      } else if IsButton(path[j]) {
        assert Closest(path, 0, IsButton).Some?;
      } else {
        assert Closest(path, 0, IsBtn).Some?;
      }
    }
  }

  /** What the button listener pushes: one button click for the nearest clickable
      element, when the listener fires. */
  function ButtonEvents(path: seq<Node>, hostname: string): (es: seq<Event>)
    requires |path| > 0
    ensures |es| <= 1 && forall e :: e in es ==> e.ButtonClick?
  {
    if ButtonListenerFires(path) then
        [ButtonClick(GetButtonInfo(path, Closest(path, 0, IsClickable).value, hostname))]
    else []
  }

  /** An element matching 'a, button, .btn' is its own closest match. */
  lemma ClickableHere(path: seq<Node>)
    requires |path| > 0 && IsClickable(path[0])
    ensures Closest(path, 0, IsClickable) == Some(0)
  {
  }

  /** When closest('a, button, .btn') finds position c, the button listener reports it. */
  lemma ButtonEventsAt(path: seq<Node>, hostname: string, c: nat)
    requires |path| > 0 && Closest(path, 0, IsClickable) == Some(c)
    ensures ButtonEvents(path, hostname) == [ButtonClick(GetButtonInfo(path, c, hostname))]
  {
    assert ButtonListenerFires(path) by {
      assert IsClickable(path[c]);
    }
  }

  /** What the tab listener pushes: one tab interaction when the nearest .tab-item has a
      non-empty data-tab. */
  function TabEvents(path: seq<Node>): (es: seq<Event>)
    ensures |es| <= 1 && forall e :: e in es ==> e.TabInteraction?
  {
    match Closest(path, 0, IsTabItem)
    case Some(k) => if Truthy(path[k].dataTab) then [TabInteraction(path[k].dataTab.value)] else []
    case None => []
  }

  /** The events one click pushes: first the button listener's, then the tab listener's,
      in the order they were registered. */
  function ClickEvents(path: seq<Node>, hostname: string): (es: seq<Event>)
    requires |path| > 0
    ensures |es| <= 2
    ensures forall e :: e in es ==> e.ButtonClick? || e.TabInteraction?
  {
    ButtonEvents(path, hostname) + TabEvents(path)
  }

  /** The tab listener reports the data-tab of the nearest .tab-item when it has one. */
  lemma TabEventsOf(path: seq<Node>, k: nat)
    requires k < |path| && IsTabItem(path[k]) && Truthy(path[k].dataTab)
    requires forall j :: 0 <= j < k ==> !IsTabItem(path[j])
    ensures TabEvents(path) == [TabInteraction(path[k].dataTab.value)]
  {
    assert Closest(path, 0, IsTabItem) == Some(k);
  }

  /** A click inside a tab item with a data-tab and no link, button or .btn around it gives
      exactly one tab interaction carrying that data-tab. */
  lemma PlainTabClick(path: seq<Node>, hostname: string, k: nat)
    requires k < |path| && IsTabItem(path[k]) && Truthy(path[k].dataTab)
    requires forall j :: 0 <= j < k ==> !IsTabItem(path[j])
    requires forall j :: 0 <= j < |path| ==> !IsClickable(path[j])
    ensures ClickEvents(path, hostname) == [TabInteraction(path[k].dataTab.value)]
  {
    TabEventsOf(path, k);
    assert ButtonEvents(path, hostname) == [];
  }

  /** A click on a link, button or .btn inside a tab item with a data-tab gives the button
      click first and the tab interaction second. */
  lemma ButtonInTabClick(path: seq<Node>, hostname: string, k: nat)
    requires k < |path| && IsTabItem(path[k]) && Truthy(path[k].dataTab)
    requires forall j :: 0 <= j < k ==> !IsTabItem(path[j])
    requires IsClickable(path[0])
    ensures ClickEvents(path, hostname) ==
            [ButtonClick(GetButtonInfo(path, 0, hostname)), TabInteraction(path[k].dataTab.value)]
  {
    TabEventsOf(path, k);
    ClickableHere(path);
    ButtonEventsAt(path, hostname, 0);
    var be, te := ButtonEvents(path, hostname), TabEvents(path);
    assert ClickEvents(path, hostname) == be + te;
  }
}
