/**
 * goToNextTab's choice of the next carousel tab: the data-tab ordinals are parsed,
 * sorted ascending, the current ordinal is looked up with indexOf, and the entry
 * after it is taken, wrapping around with a modulo.
 */
module TabOrder {
  import opened Wrappers

  predicate Sorted(s: seq<int>)
  {
    forall i, j :: 0 <= i < j < |s| ==> s[i] <= s[j]
  }

  /** No ordinal appears twice. */
  predicate Distinct(s: seq<int>)
  {
    forall i, j :: 0 <= i < j < |s| ==> s[i] != s[j]
  }

  /** Inserts x into an ascending sequence. */
  function Insert(x: int, s: seq<int>): (r: seq<int>)
    requires Sorted(s)
    ensures Sorted(r)
    ensures multiset(r) == multiset(s) + multiset{x}
  {
    if s == [] || x <= s[0] then [x] + s
    else
      var rest := Insert(x, s[1..]);
      InsertBehind(x, s, rest);
      [s[0]] + rest
  }

  /** Putting the head of s before x inserted into the tail keeps the order and the elements. */
  lemma InsertBehind(x: int, s: seq<int>, rest: seq<int>)
    requires Sorted(s) && s != [] && s[0] < x
    requires Sorted(rest) && multiset(rest) == multiset(s[1..]) + multiset{x}
    ensures Sorted([s[0]] + rest)
    ensures multiset([s[0]] + rest) == multiset(s) + multiset{x}
  {
    assert s == [s[0]] + s[1..];
    LowerBound(s[0], rest, s[1..], x);
  }

  /** A bound below every element of s and below x is below every element of a
      sequence holding exactly those. */
  lemma {:induction false} LowerBound(b: int, rest: seq<int>, s: seq<int>, x: int)
    requires multiset(rest) == multiset(s) + multiset{x}
    requires b <= x && forall k :: 0 <= k < |s| ==> b <= s[k]
    ensures forall k :: 0 <= k < |rest| ==> b <= rest[k]
  {
    forall k | 0 <= k < |rest| ensures b <= rest[k] {
      assert rest[k] in multiset(rest);
      if rest[k] != x {
        assert rest[k] in multiset(s);
      }
    }
  }

  /** The numeric ascending sort `sort((a, b) => a - b)`. */
  function SortAscending(s: seq<int>): (r: seq<int>)
    ensures Sorted(r)
    ensures multiset(r) == multiset(s)
    ensures |r| == |s|
  {
    if s == [] then []
    else
      assert s == [s[0]] + s[1..];
      Insert(s[0], SortAscending(s[1..]))
  }

  /** Array.prototype.indexOf: the first position of x, or -1 when x is absent. */
  function IndexOf(s: seq<int>, x: int): (r: int)
    ensures -1 <= r < |s|
    ensures r == -1 <==> x !in s
    ensures r >= 0 ==> s[r] == x && forall j :: 0 <= j < r ==> s[j] != x
  {
    if s == [] then -1
    else if s[0] == x then 0
    else
      var k := IndexOf(s[1..], x);
      if k == -1 then -1 else k + 1
  }

  /** The entry after `current` in an ascending sequence, cyclically; a null or
      absent current tab looks up as -1, so the first entry is chosen. */
  function Successor(sorted: seq<int>, current: Option<int>): (r: int)
    requires |sorted| > 0
    ensures r in sorted
  {
    var i := match current
      case None => -1
      case Some(c) => IndexOf(sorted, c);
    sorted[(i + 1) % |sorted|]
  }

  /** The ordinal goToNextTab activates. */
  function NextTab(ids: seq<int>, current: Option<int>): (r: int)
    requires |ids| > 0
    ensures r in ids
  {
    SortedMembers(ids);
    Successor(SortAscending(ids), current)
  }

  /** The ordinal reached after k successive advances from c. */
  function Advance(ids: seq<int>, c: int, k: nat): int
    requires |ids| > 0
  {
    if k == 0 then c else NextTab(ids, Some(Advance(ids, c, k - 1)))
  }

  lemma {:induction false} SortedMembers(s: seq<int>)
    ensures forall x :: x in SortAscending(s) <==> x in s
  {
    var r := SortAscending(s);
    forall x ensures x in r <==> x in s {
      assert x in r <==> x in multiset(r);
      assert x in s <==> x in multiset(s);
    }
  }

  /** A distinct sequence has every element with multiplicity one. */
  lemma {:induction false} DistinctMultiplicity(s: seq<int>, x: int)
    requires Distinct(s)
    ensures multiset(s)[x] <= 1
  {
    if s != [] {
      assert s == [s[0]] + s[1..];
      assert Distinct(s[1..]);
      DistinctMultiplicity(s[1..], x);
      if s[0] == x {
        assert x !in s[1..];
        assert multiset(s[1..])[x] == 0;
      }
    }
  }

  /** A sequence whose elements all have multiplicity at most one is distinct. */
  lemma {:induction false} MultiplicityDistinct(s: seq<int>)
    requires forall x :: multiset(s)[x] <= 1
    ensures Distinct(s)
  {
    forall i, j | 0 <= i < j < |s| ensures s[i] != s[j] {
      TwoPositions(s, i, j);
    }
  }

  /** Two positions holding the same value give that value multiplicity two. */
  lemma {:induction false} TwoPositions(s: seq<int>, i: nat, j: nat)
    requires i < j < |s|
    ensures s[i] == s[j] ==> multiset(s)[s[i]] >= 2
  {
    assert s == s[..i] + [s[i]] + s[i + 1..j] + [s[j]] + s[j + 1..];
  }

  predicate StrictlySorted(s: seq<int>)
  {
    forall i, j :: 0 <= i < j < |s| ==> s[i] < s[j]
  }

  /** Sorting distinct ordinals gives a strictly ascending sequence. */
  lemma {:induction false} SortedDistinct(ids: seq<int>)
    requires Distinct(ids)
    ensures StrictlySorted(SortAscending(ids))
  {
    var r := SortAscending(ids);
    forall x ensures multiset(r)[x] <= 1 { DistinctMultiplicity(ids, x); }
    MultiplicityDistinct(r);
  }

  /** The index arithmetic of `(currentIndex + 1) % length`. */
  lemma {:induction false} NextIndex(i: int, n: int)
    requires 0 < n && -1 <= i < n
    ensures (i + 1) % n == if i + 1 < n then i + 1 else 0
  {
  }

  /** In a strictly ascending sequence, the entry after the i-th is the (i+1)-th, cyclically. */
  lemma {:induction false} SuccessorAt(r: seq<int>, i: nat)
    requires StrictlySorted(r) && i < |r|
    ensures Successor(r, Some(r[i])) == if i + 1 < |r| then r[i + 1] else r[0]
  {
    assert IndexOf(r, r[i]) == i;
    NextIndex(i, |r|);
  }

  /** With distinct ordinals, the tab after the i-th smallest is the (i+1)-th, cyclically. */
  lemma {:induction false} NextTabAt(ids: seq<int>, i: nat)
    requires |ids| > 0 && Distinct(ids) && i < |ids|
    ensures NextTab(ids, Some(SortAscending(ids)[i])) ==
            if i + 1 < |ids| then SortAscending(ids)[i + 1] else SortAscending(ids)[0]
  {
    SortedDistinct(ids);
    SuccessorAt(SortAscending(ids), i);
  }

  /** In an ascending sequence, the successor of an absent entry is the first, the smallest. */
  lemma {:induction false} SuccessorFromAbsent(r: seq<int>, current: Option<int>)
    requires |r| > 0 && Sorted(r)
    requires current.None? || current.value !in r
    ensures Successor(r, current) == r[0]
    ensures forall k :: 0 <= k < |r| ==> r[0] <= r[k]
  {
  }

  /** In a strictly ascending sequence, the successor of an entry that is not the
      last is the smallest entry above it. */
  lemma {:induction false} SuccessorIsNext(r: seq<int>, c: int, k: nat)
    requires StrictlySorted(r) && c in r && k < |r| && r[k] > c
    ensures Successor(r, Some(c)) > c
    ensures forall j :: 0 <= j < |r| && r[j] > c ==> Successor(r, Some(c)) <= r[j]
  {
    var i := IndexOf(r, c);
    assert i < k;
    SuccessorAt(r, i);
  }

  /** In a strictly ascending sequence, the successor of the last entry is the first. */
  lemma {:induction false} SuccessorWraps(r: seq<int>, c: int)
    requires StrictlySorted(r) && c in r
    requires forall j :: 0 <= j < |r| ==> r[j] <= c
    ensures Successor(r, Some(c)) == r[0]
  {
    var i := IndexOf(r, c);
    var last := |r| - 1;
    assert r[last] <= r[i];
    assert i == last;
    SuccessorAt(r, i);
  }

  /** Advancing from a tab not present (or from no tab) selects the smallest ordinal. */
  lemma {:induction false} NextTabFromAbsent(ids: seq<int>, current: Option<int>)
    requires |ids| > 0
    requires current.None? || current.value !in ids
    ensures forall x :: x in ids ==> NextTab(ids, current) <= x
  {
    var r := SortAscending(ids);
    SortedMembers(ids);
    SuccessorFromAbsent(r, current);
    forall x | x in ids ensures r[0] <= x {
      var j :| 0 <= j < |r| && r[j] == x;
    }
  }

  /** With distinct ordinals, advancing from a tab that is not the largest gives the
      smallest ordinal greater than it. */
  lemma {:induction false} NextTabIsSuccessor(ids: seq<int>, c: int)
    requires |ids| > 0 && Distinct(ids) && c in ids
    requires exists x :: x in ids && x > c
    ensures NextTab(ids, Some(c)) > c
    ensures forall x :: x in ids && x > c ==> NextTab(ids, Some(c)) <= x
  {
    var r := SortAscending(ids);
    SortedMembers(ids);
    SortedDistinct(ids);
    var y :| y in ids && y > c;
    var k :| 0 <= k < |r| && r[k] == y;
    SuccessorIsNext(r, c, k);
    forall x | x in ids && x > c ensures Successor(r, Some(c)) <= x {
      var j :| 0 <= j < |r| && r[j] == x;
    }
  }

  /** With distinct ordinals, advancing from the largest wraps to the smallest. */
  lemma {:induction false} NextTabWraps(ids: seq<int>, c: int)
    requires |ids| > 0 && Distinct(ids) && c in ids
    requires forall x :: x in ids ==> x <= c
    ensures forall x :: x in ids ==> NextTab(ids, Some(c)) <= x
  {
    var r := SortAscending(ids);
    SortedMembers(ids);
    SortedDistinct(ids);
    forall j | 0 <= j < |r| ensures r[j] <= c {
      assert r[j] in ids;
    }
    SuccessorWraps(r, c);
    forall x | x in ids ensures r[0] <= x {
      var j :| 0 <= j < |r| && r[j] == x;
    }
  }

  /** Where each entry of r but the last is followed by the next one, j advances from the
      first entry reach the j-th. */
  lemma {:induction false} AdvanceAlong(ids: seq<int>, r: seq<int>, j: nat)
    requires |ids| > 0 && j < |r|
    requires forall i :: 0 <= i < |r| - 1 ==> NextTab(ids, Some(r[i])) == r[i + 1]
    ensures Advance(ids, r[0], j) == r[j]
  {
    if j > 0 {
      AdvanceAlong(ids, r, j - 1);
      assert NextTab(ids, Some(r[j - 1])) == r[j];
    }
  }

  /** With distinct ordinals, each but the largest is followed by the next larger one. */
  lemma {:induction false} NextTabsAscend(ids: seq<int>, r: seq<int>)
    requires |ids| > 0 && Distinct(ids) && r == SortAscending(ids)
    ensures forall i :: 0 <= i < |r| - 1 ==> NextTab(ids, Some(r[i])) == r[i + 1]
  {
    forall i | 0 <= i < |r| - 1 ensures NextTab(ids, Some(r[i])) == r[i + 1] {
      NextTabAt(ids, i);
    }
  }

  /** With distinct ordinals, j advances from the smallest (j below n) reach the
      j-th smallest: the ordinals are visited in ascending order. */
  lemma {:induction false} AdvanceVisits(ids: seq<int>, j: nat)
    requires |ids| > 0 && Distinct(ids) && j < |ids|
    ensures Advance(ids, SortAscending(ids)[0], j) == SortAscending(ids)[j]
  {
    var r := SortAscending(ids);
    NextTabsAscend(ids, r);
    AdvanceAlong(ids, r, j);
  }

  /** With distinct ordinals, n advances from the smallest return to it. */
  lemma {:induction false} AdvanceCycles(ids: seq<int>)
    requires |ids| > 0 && Distinct(ids)
    ensures Advance(ids, SortAscending(ids)[0], |ids|) == SortAscending(ids)[0]
  {
    var r := SortAscending(ids);
    var n := |ids|;
    AdvanceVisits(ids, n - 1);
    NextTabAt(ids, n - 1);
  }
}
