/**
 * dataLayer.js as the page runs it: window.dataLayer is an array the script appends to, and
 * the scroll and section trackers keep the sets of thresholds and sections already
 * reported. Each listener is a method; the log it leaves is stated with the functions of
 * module AnalyticsRules, and every listener keeps the trackers in agreement with the log.
 */
module Analytics {
  import opened Wrappers
  import opened AnalyticsRules

  /** The entries of one page after appending to the array are the old ones and the new. */
  lemma SessionSuffix(log: seq<Event>, es: seq<Event>, start: nat)
    requires start <= |log|
    ensures (log + es)[start..] == log[start..] + es
  {
  }

  /** Appending two runs of entries one after the other appends them together. */
  lemma AppendTwice(log: seq<Event>, a: seq<Event>, b: seq<Event>)
    ensures log + a + b == log + (a + b)
  {
  }

  lemma ScrollEventsSnoc(c: seq<int>, t: int)
    ensures ScrollEvents(c + [t]) == ScrollEvents(c) + [ScrollView(t)]
  {
  }

  /** One more threshold of the forEach keeps the loop's account: the log holds the events
      for the thresholds crossed so far, and the triggered set grew by those reached. */
  lemma ThresholdStep(ts: seq<int>, i: nat, percentage: int, triggered0: set<int>, log0: seq<Event>,
                      triggered1: set<int>, log1: seq<Event>, triggered2: set<int>, log2: seq<Event>)
    requires i < |ts| && NoRepeats(ts)
    requires triggered1 == triggered0 + Reached(ts[..i], percentage)
    requires log1 == log0 + ScrollEvents(Crossed(ts[..i], triggered0, percentage))
    requires if percentage >= ts[i] && ts[i] !in triggered1
             then log2 == log1 + [ScrollView(ts[i])] && triggered2 == triggered1 + {ts[i]}
             else log2 == log1 && triggered2 == triggered1
    ensures triggered2 == triggered0 + Reached(ts[..i + 1], percentage)
    ensures log2 == log0 + ScrollEvents(Crossed(ts[..i + 1], triggered0, percentage))
  {
    TriggeredAccount(ts, i, percentage, triggered0, triggered1, triggered2);
    LogAccount(ts, i, percentage, triggered0, triggered1, log0, log1, log2);
  }

  /** The triggered-set half of ThresholdStep. */
  lemma TriggeredAccount(ts: seq<int>, i: nat, percentage: int,
                         triggered0: set<int>, triggered1: set<int>, triggered2: set<int>)
    requires i < |ts|
    requires triggered1 == triggered0 + Reached(ts[..i], percentage)
    requires triggered2 == if percentage >= ts[i] && ts[i] !in triggered1 then triggered1 + {ts[i]} else triggered1
    ensures triggered2 == triggered0 + Reached(ts[..i + 1], percentage)
  {
    ReachedStep(ts, i, percentage);
    if percentage >= ts[i] && ts[i] in triggered1 {
      assert triggered1 + {ts[i]} == triggered1;
    }
  }

  /** The log half of ThresholdStep. */
  lemma LogAccount(ts: seq<int>, i: nat, percentage: int, triggered0: set<int>, triggered1: set<int>,
                   log0: seq<Event>, log1: seq<Event>, log2: seq<Event>)
    requires i < |ts| && NoRepeats(ts)
    requires triggered1 == triggered0 + Reached(ts[..i], percentage)
    requires log1 == log0 + ScrollEvents(Crossed(ts[..i], triggered0, percentage))
    requires log2 == if percentage >= ts[i] && ts[i] !in triggered1 then log1 + [ScrollView(ts[i])] else log1
    ensures log2 == log0 + ScrollEvents(Crossed(ts[..i + 1], triggered0, percentage))
  {
    CrossedStep(ts, i, triggered0, triggered1, percentage);
    if percentage >= ts[i] && ts[i] !in triggered1 {
      var before := Crossed(ts[..i], triggered0, percentage);
      ScrollEventsSnoc(before, ts[i]);
      assert log2 == log0 + (ScrollEvents(before) + [ScrollView(ts[i])]);
    }
  }

  /** The next threshold is crossed after the earlier ones exactly when it is reached and was
      not reported before this pass began, nor by the pass so far. */
  lemma CrossedStep(ts: seq<int>, i: nat, triggered0: set<int>, triggered1: set<int>, percentage: int)
    requires i < |ts| && NoRepeats(ts)
    requires triggered1 == triggered0 + Reached(ts[..i], percentage)
    ensures Crossed(ts[..i + 1], triggered0, percentage) ==
            if percentage >= ts[i] && ts[i] !in triggered1 then Crossed(ts[..i], triggered0, percentage) + [ts[i]]
            else Crossed(ts[..i], triggered0, percentage)
  {
    assert ts[..i + 1] == ts[..i] + [ts[i]];
    assert ts[i] !in ts[..i];
    CrossedSnoc(ts[..i], ts[i], triggered0, percentage);
  }

  /** One more threshold at the end is crossed after the others when it is reached and not
      reported before. */
  lemma CrossedSnoc(c: seq<int>, t: int, triggered: set<int>, percentage: int)
    ensures Crossed(c + [t], triggered, percentage) ==
            if percentage >= t && t !in triggered then Crossed(c, triggered, percentage) + [t]
            else Crossed(c, triggered, percentage)
  {
    var ts := c + [t];
    assert ts[..|ts| - 1] == c && ts[|ts| - 1] == t;
  }

  /** The thresholds reached grow by the next one exactly when it is at most the percentage. */
  lemma ReachedStep(ts: seq<int>, i: nat, percentage: int)
    requires i < |ts|
    ensures Reached(ts[..i + 1], percentage) == Reached(ts[..i], percentage) + (if ts[i] <= percentage then {ts[i]} else {})
  {
    assert ts[..i + 1] == ts[..i] + [ts[i]];
  }

  /** One page's trackers: window.dataLayer, triggeredThresholds, viewedSections, the page's
      hostname, and (for the proofs) where this page's entries start in the array. */
  class Tracker {
    var log: seq<Event>
    var triggered: set<int>
    var viewed: set<string>
    const hostname: string
    const thresholds: seq<int>
    ghost const start: nat

    /** Every threshold and every section this page reported was reported once, and the sets
        hold exactly what was reported. */
    ghost predicate Valid()
      reads this
    {
      start <= |log| && SessionAgrees(log[start..], triggered, viewed) && Increasing(thresholds)
    }

    /** initDataLayer: keep whatever window.dataLayer already held, push the page load, and
        start the trackers with nothing reported. */
    constructor (prior: seq<Event>, hostname: string)
      ensures Valid()
      ensures log == prior + [PageLoad] && triggered == {} && viewed == {}
      ensures this.hostname == hostname && thresholds == Thresholds && start == |prior|
    {
      log := prior;
      triggered := {};
      viewed := {};
      this.hostname := hostname;
      thresholds := Thresholds;
      start := |prior|;
      new;
      Push(PageLoad);
      assert log[start..] == [PageLoad];
      PageLoadStartsSession();
    }

    /** pushToDataLayer: append one entry; nothing before it changes. */
    method Push(e: Event)
      modifies this
      ensures log == old(log) + [e]
      ensures triggered == old(triggered) && viewed == old(viewed)
    {
      log := log + [e];
    }

    /** The forEach callback of handleScroll for one threshold: report it when the page has
        scrolled that far and it was not reported before. */
    method ReportThreshold(threshold: int, percentage: int)
      modifies this
      ensures if percentage >= threshold && threshold !in old(triggered) then
                log == old(log) + [ScrollView(threshold)] && triggered == old(triggered) + {threshold}
              else log == old(log) && triggered == old(triggered)
      ensures viewed == old(viewed)
    {
      if percentage >= threshold && threshold !in triggered {
        triggered := triggered + {threshold};
        Push(ScrollView(threshold));
      }
    }

    /** The forEach of handleScroll over the thresholds `ts`, distinct as the fixed list is:
        each one reached and not reported yet is added to the triggered set and reported. */
    method ReportThresholds(ts: seq<int>, percentage: int)
      modifies this
      requires NoRepeats(ts)
      ensures log == old(log) + ScrollEvents(Crossed(ts, old(triggered), percentage))
      ensures triggered == old(triggered) + Reached(ts, percentage)
      ensures viewed == old(viewed)
    {
      var i := 0;
      while i < |ts|
        invariant 0 <= i <= |ts|
        invariant triggered == old(triggered) + Reached(ts[..i], percentage)
        invariant log == old(log) + ScrollEvents(Crossed(ts[..i], old(triggered), percentage))
        invariant viewed == old(viewed)
      {
        ghost var log1, triggered1 := log, triggered;
        ReportThreshold(ts[i], percentage);
        ThresholdStep(ts, i, percentage, old(triggered), old(log), triggered1, log1, triggered, log);
        i := i + 1;
      }
      assert ts[..|ts|] == ts;
    }

    /** handleScroll with the rounded scroll percentage: the thresholds reached and not
        reported before are reported, in ascending order. */
    method OnScroll(percentage: int)
      modifies this
      requires Valid()
      ensures Valid()
      ensures log == old(log) + ScrollEvents(Crossed(thresholds, old(triggered), percentage))
      ensures triggered == old(triggered) + Reached(thresholds, percentage)
      ensures viewed == old(viewed)
    {
      ghost var log0 := log;
      IncreasingNoRepeats(thresholds);
      ReportThresholds(thresholds, percentage);
      ScrollKeepsAgreement(log0[start..], old(triggered), viewed, thresholds, percentage);
      assert log[start..] == log0[start..] + ScrollEvents(Crossed(thresholds, old(triggered), percentage));
    }

    /** The section observer's callback for one entry. */
    method OnSectionEntry(id: string, isIntersecting: bool, halfVisible: bool)
      modifies this
      requires Valid()
      ensures Valid()
      ensures triggered == old(triggered)
      ensures if isIntersecting && halfVisible && id !in old(viewed) then
                log == old(log) + [SectionView(id, SectionName(SectionTable, id))]
                && viewed == old(viewed) + {id}
              else log == old(log) && viewed == old(viewed)
    {
      if isIntersecting && halfVisible {
        if id !in viewed {
          ghost var log0 := log;
          viewed := viewed + {id};
          Push(SectionView(id, SectionName(SectionTable, id)));
          SessionAfterSection(log0[start..], triggered, old(viewed), id, SectionName(SectionTable, id));
          assert log[start..] == log0[start..] + [SectionView(id, SectionName(SectionTable, id))];
        }
      }
    }

    /** The button listener: report the nearest link, button or .btn around the target. */
    method ButtonListener(path: seq<Node>)
      modifies this
      requires |path| > 0
      ensures log == old(log) + ButtonEvents(path, hostname)
      ensures triggered == old(triggered) && viewed == old(viewed)
    {
      if ButtonListenerFires(path) {
        var clickable := Closest(path, 0, IsClickable).value;
        Push(ButtonClick(GetButtonInfo(path, clickable, hostname)));
      }
    }

    /** The tab listener: report the data-tab of the nearest .tab-item around the target. */
    method TabListener(path: seq<Node>)
      modifies this
      ensures log == old(log) + TabEvents(path)
      ensures triggered == old(triggered) && viewed == old(viewed)
    {
      var tabItem := Closest(path, 0, IsTabItem);
      if tabItem.Some? && Truthy(path[tabItem.value].dataTab) {
        Push(TabInteraction(path[tabItem.value].dataTab.value));
      }
    }

    /** A click on the element at the head of `path` (the target, then its ancestors): the
        button listener, then the tab listener. */
    method OnClick(path: seq<Node>)
      modifies this
      requires Valid() && |path| > 0
      ensures Valid()
      ensures log == old(log) + ClickEvents(path, hostname)
      ensures triggered == old(triggered) && viewed == old(viewed)
    {
      ghost var log0 := log;
      ghost var b := ButtonEvents(path, hostname);
      ghost var t := TabEvents(path);
      ghost var es := ClickEvents(path, hostname);
      assert es == b + t;
      ButtonListener(path);
      TabListener(path);
      AppendTwice(log0, b, t);
      SessionAfterClick(log0[start..], triggered, viewed, es);
      SessionSuffix(log0, es, start);
    }
  }
}
