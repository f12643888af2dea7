/**
 * `extremum_with_short_circuit`, the single reduction the search uses: minimising phi
 * over cuts within a chunk, and over the chunks' results.
 */
module Extremum {
  import opened Wrappers

  /** `cmp` is irreflexive, transitive and total on distinct values, as `operator.lt` is. */
  ghost predicate StrictTotalOrder<V(!new)>(cmp: (V, V) -> bool)
  {
    && (forall a :: !cmp(a, a))
    && (forall a, b, c :: cmp(a, b) && cmp(b, c) ==> cmp(a, c))
    && (forall a, b :: a != b ==> cmp(a, b) || cmp(b, a))
  }

  /** The index of the first item whose value equals `target`. */
  function FirstHit<T, V(==)>(s: seq<T>, value: T -> V, target: V): (r: Option<nat>)
    ensures r.Some? ==> r.value < |s| && value(s[r.value]) == target
    ensures r.Some? ==> forall j :: 0 <= j < r.value ==> value(s[j]) != target
    ensures r.None? <==> forall j :: 0 <= j < |s| ==> value(s[j]) != target
  {
    if s == [] then None
    else
      match FirstHit(s[..|s| - 1], value, target)
      case Some(k) => Some(k)
      case None => if value(s[|s| - 1]) == target then Some(|s| - 1) else None
  }

  /**
   * The running extreme after the loop has seen every item of `s` without meeting the
   * short-circuit value: the index of the extreme item, if any, and the extreme value.
   */
  function Scan<T, V>(s: seq<T>, value: T -> V, cmp: (V, V) -> bool, initial: V): (r: (Option<nat>, V))
    ensures r.0.None? ==> r.1 == initial
    ensures r.0.Some? ==> r.0.value < |s| && r.1 == value(s[r.0.value])
  {
    if s == [] then (None, initial)
    else
      var prior := Scan(s[..|s| - 1], value, cmp, initial);
      var v := value(s[|s| - 1]);
      if cmp(v, prior.1) then (Some(|s| - 1), v) else prior
  }

  /** The index of the item `extremum_with_short_circuit` returns, if it returns one. */
  function ExtremeIndex<T, V(==)>(s: seq<T>, value: T -> V, cmp: (V, V) -> bool, initial: V,
                                  shortcircuitValue: V): (r: Option<nat>)
    ensures r.Some? ==> r.value < |s|
  {
    match FirstHit(s, value, shortcircuitValue)
    case Some(k) => Some(k)
    case None => Scan(s, value, cmp, initial).0
  }

  /**
   * `extremum_with_short_circuit`: returns the first item whose value is the short-circuit
   * value, after running the callback (a missing callback is skipped); otherwise the item
   * the running comparison kept, or `None` when no item beat `initial`.
   */
  method ExtremumWithShortCircuit<T, V(==)>(s: seq<T>, value: T -> V, cmp: (V, V) -> bool,
                                            initial: V, shortcircuitValue: V, hasCallback: bool)
    returns (r: Option<T>, calledBack: bool)
    ensures r == match ExtremeIndex(s, value, cmp, initial, shortcircuitValue)
                 case Some(k) => Some(s[k])
                 case None => None
    ensures calledBack <==> hasCallback && FirstHit(s, value, shortcircuitValue).Some?
  {
    var extremeItem: Option<T> := None;
    var extremeValue := initial;
    ghost var extremeIndex: Option<nat> := None;
    calledBack := false;
    for i := 0 to |s|
      invariant forall j :: 0 <= j < i ==> value(s[j]) != shortcircuitValue
      invariant Scan(s[..i], value, cmp, initial) == (extremeIndex, extremeValue)
      invariant extremeItem == match extremeIndex case Some(k) => Some(s[k]) case None => None
      invariant !calledBack
    {
      var item := s[i];
      var v := value(item);
      assert s[..i + 1][..i] == s[..i];
      if v == shortcircuitValue {
        calledBack := hasCallback;
        return Some(item), calledBack;
      }
      if cmp(v, extremeValue) {
        extremeValue := v;
        extremeItem := Some(item);
        extremeIndex := Some(i);
      }
    }
    assert s[..|s|] == s;
    r := extremeItem;
  }

  /** An item with the short-circuit value wins over everything, and the first such wins. */
  lemma ShortCircuitWins<T, V>(s: seq<T>, value: T -> V, cmp: (V, V) -> bool, initial: V,
                                   shortcircuitValue: V, i: nat)
    requires i < |s| && value(s[i]) == shortcircuitValue
    ensures ExtremeIndex(s, value, cmp, initial, shortcircuitValue).Some?
    ensures var k := ExtremeIndex(s, value, cmp, initial, shortcircuitValue).value;
      k <= i && value(s[k]) == shortcircuitValue &&
      forall j :: 0 <= j < k ==> value(s[j]) != shortcircuitValue
  {
  }

  /** Without a short circuit, the result is `None` exactly when no item beats `initial`. */
  lemma {:induction false} ScanNoneIff<T, V>(s: seq<T>, value: T -> V, cmp: (V, V) -> bool, initial: V)
    ensures Scan(s, value, cmp, initial).0.None? <==>
      forall j :: 0 <= j < |s| ==> !cmp(value(s[j]), initial)
  {
    if s != [] {
      var p := s[..|s| - 1];
      ScanNoneIff(p, value, cmp, initial);
      assert forall j :: 0 <= j < |p| ==> p[j] == s[j];
    }
  }

  /**
   * The kept extreme beats `initial`, no item beats it, and it beats every earlier item:
   * it is the earliest item of least value under a strict total order.
   */
  lemma {:induction false} ScanIsEarliestBest<T, V(!new)>(s: seq<T>, value: T -> V,
                                                         cmp: (V, V) -> bool, initial: V)
    requires StrictTotalOrder(cmp)
    ensures var r := Scan(s, value, cmp, initial);
      r.0.Some? ==> cmp(r.1, initial)
    ensures var r := Scan(s, value, cmp, initial);
      forall j :: 0 <= j < |s| ==> !cmp(value(s[j]), r.1)
    ensures var r := Scan(s, value, cmp, initial);
      r.0.Some? ==> forall j :: 0 <= j < r.0.value ==> cmp(r.1, value(s[j]))
  {
    if s != [] {
      var p := s[..|s| - 1];
      var n := |s| - 1;
      ScanIsEarliestBest(p, value, cmp, initial);
      assert forall j :: 0 <= j < |p| ==> p[j] == s[j];
      var prior := Scan(p, value, cmp, initial);
      var v := value(s[n]);
      if cmp(v, prior.1) {
        forall j | 0 <= j < n
          ensures cmp(v, value(s[j]))
        {
          assert !cmp(value(s[j]), prior.1);
          if value(s[j]) != prior.1 {
            assert cmp(prior.1, value(s[j]));
          }
        }
      }
    }
  }

  /**
   * With no item at the short-circuit value and a strict total order, the result is the
   * earliest item that beats `initial` and is beaten by no item, or `None` when no item
   * beats `initial`.
   */
  lemma ExtremeIndexWithoutShortCircuit<T, V(!new)>(s: seq<T>, value: T -> V,
                                                    cmp: (V, V) -> bool, initial: V,
                                                    shortcircuitValue: V)
    requires StrictTotalOrder(cmp)
    requires forall j :: 0 <= j < |s| ==> value(s[j]) != shortcircuitValue
    ensures var r := ExtremeIndex(s, value, cmp, initial, shortcircuitValue);
      r.None? <==> forall j :: 0 <= j < |s| ==> !cmp(value(s[j]), initial)
    ensures var r := ExtremeIndex(s, value, cmp, initial, shortcircuitValue);
      r.Some? ==>
        && cmp(value(s[r.value]), initial)
        && (forall j :: 0 <= j < |s| ==> !cmp(value(s[j]), value(s[r.value])))
        && (forall j :: 0 <= j < r.value ==> cmp(value(s[r.value]), value(s[j])))
  {
    ScanNoneIff(s, value, cmp, initial);
    ScanIsEarliestBest(s, value, cmp, initial);
  }
}
