/**
 * Which distinctions and relations a cut destroys, and the enumeration of system cuts.
 */
module Cuts {
  import opened Wrappers
  import opened Directions
  import opened Seqs
  import opened Structures

  /**
   * `is_affected_by_cut`: the complete cut affects everything; a system cut affects a
   * distinction when it severs some mechanism node from some node of the distinction's
   * purview in the cut's direction.
   */
  function IsAffectedByCut(d: Distinction, cut: Cut): (r: bool)
    ensures cut.CompleteCut? ==> r
    ensures cut.NullCut? ==> !r
    ensures cut.SystemCut? ==> (r <==>
      (exists n :: n in cut.fromNodes && n in d.mechanism) &&
      (exists n :: n in cut.toNodes && n in d.Purview(cut.direction)))
  {
    match cut
    case CompleteCut => true
    case NullCut => false
    case SystemCut(direction, fromNodes, toNodes) =>
      var comingFrom := ToSet(fromNodes) * ToSet(d.mechanism);
      var goingTo := ToSet(toNodes) * ToSet(d.Purview(direction));
      assert comingFrom != {} <==> exists n :: n in fromNodes && n in d.mechanism by {
        if comingFrom != {} { var n :| n in comingFrom; }
        if exists n :: n in fromNodes && n in d.mechanism {
          var n :| n in fromNodes && n in d.mechanism;
          assert n in comingFrom;
        }
      }
      assert goingTo != {} <==> exists n :: n in toNodes && n in d.Purview(direction) by {
        if goingTo != {} { var n :| n in goingTo; }
        if exists n :: n in toNodes && n in d.Purview(direction) {
          var n :| n in toNodes && n in d.Purview(direction);
          assert n in goingTo;
        }
      }
      comingFrom != {} && goingTo != {}
  }

  /** A system cut with an empty side affects no distinction. */
  lemma OneSidedCutAffectsNothing(d: Distinction, cut: Cut)
    requires cut.SystemCut? && (cut.fromNodes == [] || cut.toNodes == [])
    ensures !IsAffectedByCut(d, cut)
  {
  }

  /**
   * `unaffected_distinctions`: the distinctions the cut leaves intact, in their order. Under
   * the complete cut the result is empty and keeps the input's subsystem; otherwise the new
   * structure is built without a subsystem.
   */
  function UnaffectedDistinctions(ces: Ces, cut: Cut): (r: Ces)
    ensures !r.flat
    ensures cut.CompleteCut? ==> r == Ces([], ces.subsystem, false)
    ensures !cut.CompleteCut? ==> r.subsystem == None
    ensures IsSubsequence(r.distinctions, ces.distinctions)
    ensures forall d :: d in r.distinctions <==> d in ces.distinctions && !IsAffectedByCut(d, cut)
  {
    if cut.CompleteCut? then Ces([], ces.subsystem, false)
    else
      var keep := (d: Distinction) => !IsAffectedByCut(d, cut);
      FilterIsSubsequence(ces.distinctions, keep);
      Ces(Filter(ces.distinctions, keep), None, false)
  }

  /** Every occurrence of an unaffected distinction is kept, and none of an affected one. */
  lemma UnaffectedDistinctionsCounts(ces: Ces, cut: Cut)
    ensures forall d :: multiset(UnaffectedDistinctions(ces, cut).distinctions)[d]
                        == if IsAffectedByCut(d, cut) then 0 else multiset(ces.distinctions)[d]
  {
    if !cut.CompleteCut? {
      FilterMultiset(ces.distinctions, (d: Distinction) => !IsAffectedByCut(d, cut));
    }
  }

  /** The null cut leaves every distinction in place, in order. */
  lemma {:induction false} NullCutKeepsDistinctions(ces: Ces)
    ensures UnaffectedDistinctions(ces, NullCut).distinctions == ces.distinctions
  {
    FilterKeepsAll(ces.distinctions, (d: Distinction) => !IsAffectedByCut(d, NullCut));
  }

  /** Every relatum of the relation is an element of the flat structure. */
  predicate RelataIn(rel: Relation, flat: seq<Mice>)
  {
    forall m :: m in rel.relata ==> m in flat
  }

  /**
   * `unaffected_relations`: the relations all of whose relata are causes or effects of the
   * structure's distinctions, in their order; an empty structure supports no relation.
   */
  function UnaffectedRelations(ces: Ces, relations: seq<Relation>): (r: seq<Relation>)
    ensures ces.distinctions == [] ==> r == []
    ensures IsSubsequence(r, relations)
    ensures forall rel :: rel in r <==>
      rel in relations && ces.distinctions != [] && RelataIn(rel, Flatten(ces.distinctions))
  {
    if ces.distinctions == [] then []
    else
      var flat := Flatten(ces.distinctions);
      var supported := (rel: Relation) => RelataIn(rel, flat);
      FilterIsSubsequence(relations, supported);
      Filter(relations, supported)
  }

  /** Every occurrence of a supported relation is kept, and none of an unsupported one. */
  lemma UnaffectedRelationsCounts(ces: Ces, relations: seq<Relation>)
    ensures forall rel :: multiset(UnaffectedRelations(ces, relations))[rel]
                          == if ces.distinctions != [] && RelataIn(rel, Flatten(ces.distinctions))
                             then multiset(relations)[rel] else 0
  {
    if ces.distinctions != [] {
      var flat := Flatten(ces.distinctions);
      FilterMultiset(relations, (rel: Relation) => RelataIn(rel, flat));
    }
  }

  /** Filtering relations a second time changes nothing. */
  lemma {:induction false} UnaffectedRelationsIdempotent(ces: Ces, relations: seq<Relation>)
    ensures UnaffectedRelations(ces, UnaffectedRelations(ces, relations))
         == UnaffectedRelations(ces, relations)
  {
    if ces.distinctions != [] {
      var flat := Flatten(ces.distinctions);
      FilterIdempotent(relations, (rel: Relation) => RelataIn(rel, flat));
    }
  }

  /** The complete cut destroys every distinction and, with them, every relation. */
  lemma CompleteCutDestroysAll(ces: Ces, relations: seq<Relation>)
    ensures UnaffectedDistinctions(ces, CompleteCut).distinctions == []
    ensures UnaffectedRelations(UnaffectedDistinctions(ces, CompleteCut), relations) == []
  {
  }

  /**
   * `sia_partitions`: each bipartition, in order, becomes a CAUSE cut followed by an
   * EFFECT cut over the same from- and to-nodes.
   */
  function SiaPartitions(bipartitions: seq<Bipartition>): (r: seq<Cut>)
    ensures |r| == 2 * |bipartitions|
    ensures forall i :: 0 <= i < |bipartitions| ==>
      r[2 * i] == SystemCut(CAUSE, bipartitions[i].fromNodes, bipartitions[i].toNodes) &&
      r[2 * i + 1] == SystemCut(EFFECT, bipartitions[i].fromNodes, bipartitions[i].toNodes)
  {
    if bipartitions == [] then []
    else
      var b := bipartitions[0];
      [SystemCut(CAUSE, b.fromNodes, b.toNodes), SystemCut(EFFECT, b.fromNodes, b.toNodes)]
        + SiaPartitions(bipartitions[1..])
  }

  /** Distinct bipartitions give distinct cuts: no (partition, direction) pair repeats. */
  lemma SiaPartitionsDistinct(bipartitions: seq<Bipartition>)
    requires Distinct(bipartitions)
    ensures Distinct(SiaPartitions(bipartitions))
  {
    var r := SiaPartitions(bipartitions);
    forall p, q | 0 <= p < |r| && 0 <= q < |r| && p != q
      ensures r[p] != r[q]
    {
      var i, j := p / 2, q / 2;
      var bp, bq := bipartitions[i], bipartitions[j];
      assert r[p] == SystemCut(if p % 2 == 0 then CAUSE else EFFECT, bp.fromNodes, bp.toNodes);
      assert r[q] == SystemCut(if q % 2 == 0 then CAUSE else EFFECT, bq.fromNodes, bq.toNodes);
      if i != j {
        assert bipartitions[i] != bipartitions[j];
      }
    }
  }
}
