/**
 * The "remove the class from every element, then add it to one" pattern that the
 * diagnosis tab switcher and the active menu link both use. A class list is
 * modelled by one boolean per element: whether that element carries the class.
 */
module ClassFlags {
  import opened Wrappers

  /** Elements of a list of n that carry the class after it is cleared from all
      and given to element k (when k names an element). */
  function OnlyAt(n: nat, k: Option<nat>): (flags: seq<bool>)
    ensures |flags| == n
  {
    seq(n, i => k == Some(i))
  }

  /** Number of elements that carry the class. */
  function CountSet(flags: seq<bool>): nat
  {
    if flags == [] then 0 else CountSet(flags[..|flags| - 1]) + (if flags[|flags| - 1] then 1 else 0)
  }

  /** At most one element carries the class; exactly one, element k, when k is in range. */
  lemma {:induction false} OnlyAtCount(n: nat, k: Option<nat>)
    ensures CountSet(OnlyAt(n, k)) == if k.Some? && k.value < n then 1 else 0
  {
    if n > 0 {
      assert OnlyAt(n, k)[..n - 1] == OnlyAt(n - 1, k);
      OnlyAtCount(n - 1, k);
    }
  }

  /** The two forEach passes: remove the class from all n elements, then add it to element k. */
  method ExclusiveFlags(n: nat, k: Option<nat>) returns (flags: seq<bool>)
    ensures |flags| == n
    ensures forall i :: 0 <= i < n ==> (flags[i] <==> k == Some(i))
    ensures k.Some? && k.value < n ==> CountSet(flags) == 1
    ensures (k.None? || k.value >= n) ==> CountSet(flags) == 0
  {
    flags := [];
    var i := 0;
    while i < n
      invariant i <= n && |flags| == i
      invariant forall j :: 0 <= j < i ==> !flags[j]
    {
      flags := flags + [false];
      i := i + 1;
    }
    if k.Some? && k.value < n {
      flags := flags[k.value := true];
    }
    assert flags == OnlyAt(n, k);
    OnlyAtCount(n, k);
  }
}
