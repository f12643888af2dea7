/**
 * The pre-checks that declare a system trivially reducible before any cut is evaluated,
 * and the selection of the distinctions congruent with a compositional state.
 */
module Reducibility {
  import opened Directions
  import opened Seqs
  import opened Structures

  /** The node indices specified in direction `dir`: the union of the purviews on that side. */
  ghost function Specified(ds: seq<Distinction>, dir: TemporalDirection): set<nat>
  {
    set d, n | d in ds && n in d.Purview(dir) :: n
  }

  /** Some node of the subsystem is missing from the cause-side or the effect-side union. */
  ghost predicate Nonspecified(subsystem: Subsystem, ds: seq<Distinction>)
  {
    exists n :: n in subsystem.nodeIndices && (n !in Specified(ds, CAUSE) || n !in Specified(ds, EFFECT))
  }

  /** Adding one distinction adds its purview to the union. */
  lemma SpecifiedSnoc(ds: seq<Distinction>, d: Distinction, dir: TemporalDirection)
    ensures Specified(ds + [d], dir) == Specified(ds, dir) + ToSet(d.Purview(dir))
  {
    var u := Specified(ds + [d], dir);
    forall n | n in u
      ensures n in Specified(ds, dir) + ToSet(d.Purview(dir))
    {
      var e :| e in ds + [d] && n in e.Purview(dir);
      if e != d {
        assert e in ds;
      }
    }
    forall n | n in Specified(ds, dir) + ToSet(d.Purview(dir))
      ensures n in u
    {
      if n in Specified(ds, dir) {
        var e :| e in ds && n in e.Purview(dir);
        assert e in ds + [d];
      } else {
        assert d in ds + [d];
      }
    }
  }

  /**
   * `has_nonspecified_elements`: collects, distinction by distinction, the nodes each side
   * specifies, and reports whether some node of the subsystem is left out on either side.
   */
  method HasNonspecifiedElements(subsystem: Subsystem, ds: seq<Distinction>) returns (r: bool)
    ensures r <==> Nonspecified(subsystem, ds)
  {
    var elements := ToSet(subsystem.nodeIndices);
    var causes: set<nat> := {};
    var effects: set<nat> := {};
    for i := 0 to |ds|
      invariant causes == Specified(ds[..i], CAUSE)
      invariant effects == Specified(ds[..i], EFFECT)
    {
      assert ds[..i + 1] == ds[..i] + [ds[i]];
      SpecifiedSnoc(ds[..i], ds[i], CAUSE);
      SpecifiedSnoc(ds[..i], ds[i], EFFECT);
      causes := causes + ToSet(ds[i].Purview(CAUSE));
      effects := effects + ToSet(ds[i].Purview(EFFECT));
    }
    assert ds[..|ds|] == ds;
    r := elements - causes != {} || elements - effects != {};
    if r {
      var n :| n in elements - causes || n in elements - effects;
      assert n in subsystem.nodeIndices;
    } else {
      forall n | n in subsystem.nodeIndices
        ensures n in causes && n in effects
      {
        assert n in elements;
        assert n !in elements - causes && n !in elements - effects;
      }
    }
  }

  /** A subsystem with at least one node and no distinctions is always flagged. */
  lemma EmptyStructureIsNonspecified(subsystem: Subsystem)
    requires subsystem.nodeIndices != []
    ensures Nonspecified(subsystem, [])
  {
    assert subsystem.nodeIndices[0] in subsystem.nodeIndices;
  }

  /**
   * Adding distinctions can only remove nodes from the unspecified ones: a structure that
   * passes the check keeps passing it when distinctions are appended.
   */
  lemma SpecifiedMonotone(ds: seq<Distinction>, more: seq<Distinction>, subsystem: Subsystem)
    requires !Nonspecified(subsystem, ds)
    ensures !Nonspecified(subsystem, ds + more)
  {
    forall n | n in subsystem.nodeIndices
      ensures n in Specified(ds + more, CAUSE) && n in Specified(ds + more, EFFECT)
    {
      var c :| c in ds && n in c.Purview(CAUSE);
      var e :| e in ds && n in e.Purview(EFFECT);
      assert c in ds + more && e in ds + more;
    }
  }

  /** `has_no_spanning_specification`: not yet implemented in the source, so it never fires. */
  function HasNoSpanningSpecification(subsystem: Subsystem, ds: seq<Distinction>): (r: bool)
    ensures !r
  {
    false
  }

  /** `is_trivially_reducible` on the distinctions of a structure: any pre-check fires. */
  method IsTriviallyReducible(subsystem: Subsystem, ds: seq<Distinction>) returns (r: bool)
    ensures r <==> Nonspecified(subsystem, ds)
  {
    var nonspecified := HasNonspecifiedElements(subsystem, ds);
    r := nonspecified || HasNoSpanningSpecification(subsystem, ds);
  }

  /** `CompositionalState`: a state for each purview. */
  type CompositionalState = map<Nodes, State>

  /** `is_congruent`: one of the (tied) states the cause or effect specifies is `state`. */
  predicate IsCongruent(m: Mice, state: State): (r: bool)
    ensures r <==> state in m.specifiedState
  {
    exists i :: 0 <= i < |m.specifiedState| && m.specifiedState[i] == state
  }

  /**
   * The test `filter_ces` applies to one element: the right direction, and a state for its
   * purview that it is congruent with; a purview the state lacks (`KeyError`) is skipped.
   */
  predicate Consistent(m: Mice, direction: Direction, state: CompositionalState)
  {
    m.direction == direction && m.purview in state && IsCongruent(m, state[m.purview])
  }

  /** `filter_ces`: the elements of a flat structure consistent with the compositional state. */
  function FilterCes(ces: seq<Mice>, direction: Direction, state: CompositionalState): (r: seq<Mice>)
    ensures IsSubsequence(r, ces)
    ensures forall m :: m in r <==> m in ces && Consistent(m, direction, state)
  {
    FilterIsSubsequence(ces, m => Consistent(m, direction, state));
    Filter(ces, m => Consistent(m, direction, state))
  }

  /** Every occurrence of a consistent element is kept, and none of another. */
  lemma FilterCesCounts(ces: seq<Mice>, direction: Direction, state: CompositionalState)
    ensures forall m :: multiset(FilterCes(ces, direction, state))[m]
                        == if Consistent(m, direction, state) then multiset(ces)[m] else 0
  {
    FilterMultiset(ces, m => Consistent(m, direction, state));
  }

  /** Elements whose purview the compositional state does not mention never survive the filter. */
  lemma FilterCesSkipsUnknownPurviews(ces: seq<Mice>, direction: Direction, state: CompositionalState)
    requires forall m :: m in ces ==> m.purview !in state
    ensures FilterCes(ces, direction, state) == []
  {
    FilterKeepsNone(ces, m => Consistent(m, direction, state));
  }

  /** Filtering twice with the same direction and state is filtering once. */
  lemma FilterCesIdempotent(ces: seq<Mice>, direction: Direction, state: CompositionalState)
    ensures FilterCes(FilterCes(ces, direction, state), direction, state) == FilterCes(ces, direction, state)
  {
    FilterIdempotent(ces, m => Consistent(m, direction, state));
  }

  /** The cause-side and effect-side selections never share an element. */
  lemma FilterCesDirectionsDisjoint(ces: seq<Mice>, state: CompositionalState, m: Mice)
    requires m in FilterCes(ces, CAUSE, state)
    ensures m !in FilterCes(ces, EFFECT, state)
  {
  }
}
