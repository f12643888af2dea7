/**
 * Phi-structures and their partitions: the memoised sums of small phi, selectivity,
 * informativeness and big phi, the evaluation of one cut, the null analysis returned for
 * trivially reducible systems, and the ordering key of an analysis.
 */
module PhiStructures {
  import opened Wrappers
  import opened Directions
  import opened Seqs
  import opened Structures
  import opened Cuts
  import opened Reducibility
  import opened Extremum

  /** `_substrate_size`: set to the subsystem's size only when there are distinctions. */
  function SubstrateSizeOf(ces: Ces): Option<nat>
  {
    if ces.distinctions != [] && ces.subsystem.Some? then Some(Size(ces.subsystem.value)) else None
  }

  /** The relations are supported by the distinctions: filtering them changes nothing. */
  ghost predicate Supported(ces: Ces, rs: seq<Relation>)
  {
    UnaffectedRelations(ces, rs) == rs
  }

  /** `selectivity`: the total small phi of the structure over the normalisation constant. */
  function SelectivityOf(ds: seq<Distinction>, rs: seq<Relation>, optimum: real): real
    requires optimum > 0.0
  {
    (SumDistinctionPhi(ds) + SumRelationPhi(rs)) / optimum
  }

  /** `partitioned_relations`: the relations the distinctions left by the cut still support. */
  function PartitionedRelationsOf(ces: Ces, rs: seq<Relation>, cut: Cut): seq<Relation>
  {
    UnaffectedRelations(UnaffectedDistinctions(ces, cut), rs)
  }

  /** `informativeness`: the small phi the cut destroys, of distinctions and of relations. */
  function InformativenessOf(ces: Ces, rs: seq<Relation>, cut: Cut): real
  {
    (SumDistinctionPhi(ces.distinctions) - SumDistinctionPhi(UnaffectedDistinctions(ces, cut).distinctions))
    + (SumRelationPhi(rs) - SumRelationPhi(PartitionedRelationsOf(ces, rs, cut)))
  }

  /** `phi`: selectivity times informativeness. */
  function PhiOf(ces: Ces, rs: seq<Relation>, cut: Cut, optimum: real): real
    requires optimum > 0.0
  {
    SelectivityOf(ces.distinctions, rs, optimum) * InformativenessOf(ces, rs, cut)
  }

  // Arithmetic steps kept apart, so that the solver meets each product or quotient alone.

  lemma MulCongruence(a: real, b: real, c: real, d: real)
    requires a == c && b == d
    ensures a * b == c * d
  {
  }

  lemma MulNonnegative(a: real, b: real)
    requires a >= 0.0 && b >= 0.0
    ensures a * b >= 0.0
  {
  }

  lemma DivNonnegative(a: real, b: real)
    requires a >= 0.0 && b > 0.0
    ensures a / b >= 0.0
  {
  }

  lemma PhiUnfold(ces: Ces, rs: seq<Relation>, cut: Cut, optimum: real)
    requires optimum > 0.0
    ensures PhiOf(ces, rs, cut, optimum)
         == SelectivityOf(ces.distinctions, rs, optimum) * InformativenessOf(ces, rs, cut)
  {
  }

  /**
   * Phi from a selectivity and an informativeness already computed for the same structure
   * and cut: their product.
   */
  method PhiFromParts(ghost ces: Ces, ghost rs: seq<Relation>, ghost cut: Cut, ghost optimum: real,
                      selectivity: real, informativeness: real)
    returns (phi: real)
    requires optimum > 0.0
    requires selectivity == SelectivityOf(ces.distinctions, rs, optimum)
    requires informativeness == InformativenessOf(ces, rs, cut)
    ensures phi == PhiOf(ces, rs, cut, optimum)
  {
    PhiUnfold(ces, rs, cut, optimum);
    MulCongruence(selectivity, informativeness,
                  SelectivityOf(ces.distinctions, rs, optimum), InformativenessOf(ces, rs, cut));
    phi := selectivity * informativeness;
  }

  /**
   * Informativeness lies between zero and the structure's total small phi when every
   * small phi is non-negative, because the partitioned collections are sub-collections.
   */
  lemma InformativenessBounds(ces: Ces, rs: seq<Relation>, cut: Cut)
    requires NonnegativePhis(ces.distinctions, rs)
    ensures 0.0 <= InformativenessOf(ces, rs, cut)
    ensures InformativenessOf(ces, rs, cut) <= SumDistinctionPhi(ces.distinctions) + SumRelationPhi(rs)
  {
    var phiD := (d: Distinction) => d.phi;
    var phiR := (r: Relation) => r.phi;
    SumNonnegative(ces.distinctions, phiD);
    SumNonnegative(rs, phiR);
    var pd := UnaffectedDistinctions(ces, cut);
    if cut.CompleteCut? {
      assert pd.distinctions == [];
    } else {
      SumFilterAtMost(ces.distinctions, (d: Distinction) => !IsAffectedByCut(d, cut), phiD);
    }
    if pd.distinctions != [] {
      var flat := Flatten(pd.distinctions);
      SumFilterAtMost(rs, (rel: Relation) => RelataIn(rel, flat), phiR);
    }
  }

  /** Under the complete cut everything is destroyed: informativeness is the total small phi. */
  lemma CompleteCutInformativeness(ces: Ces, rs: seq<Relation>)
    ensures InformativenessOf(ces, rs, CompleteCut) == SumDistinctionPhi(ces.distinctions) + SumRelationPhi(rs)
  {
    CompleteCutDestroysAll(ces, rs);
  }

  /** The null cut destroys nothing, so a structure with supported relations has phi zero. */
  lemma NullCutPhiIsZero(ces: Ces, rs: seq<Relation>, optimum: real)
    requires optimum > 0.0 && Supported(ces, rs)
    ensures InformativenessOf(ces, rs, NullCut) == 0.0
    ensures PhiOf(ces, rs, NullCut, optimum) == 0.0
  {
    NullCutKeepsDistinctions(ces);
    assert PartitionedRelationsOf(ces, rs, NullCut) == UnaffectedRelations(ces, rs);
  }

  /** Selectivity is non-negative when every small phi is. */
  lemma SelectivityNonnegative(ds: seq<Distinction>, rs: seq<Relation>, optimum: real)
    requires optimum > 0.0 && NonnegativePhis(ds, rs)
    ensures SelectivityOf(ds, rs, optimum) >= 0.0
  {
    SumNonnegative(ds, (d: Distinction) => d.phi);
    SumNonnegative(rs, (r: Relation) => r.phi);
    DivNonnegative(SumDistinctionPhi(ds) + SumRelationPhi(rs), optimum);
  }

  /**
   * Selectivity does not depend on the order of the distinctions or of the relations, so
   * the model's sequences stand for the source's unordered collections.
   */
  lemma SelectivityPermutationInvariant(ds: seq<Distinction>, rs: seq<Relation>,
                                        ds': seq<Distinction>, rs': seq<Relation>, optimum: real)
    requires optimum > 0.0
    requires multiset(ds) == multiset(ds') && multiset(rs) == multiset(rs')
    ensures SelectivityOf(ds, rs, optimum) == SelectivityOf(ds', rs', optimum)
  {
    SumPermutation(ds, ds', (d: Distinction) => d.phi);
    SumPermutation(rs, rs', (r: Relation) => r.phi);
  }

  /** Big phi is non-negative when every small phi is. */
  lemma PhiNonnegative(ces: Ces, rs: seq<Relation>, cut: Cut, optimum: real)
    requires optimum > 0.0 && NonnegativePhis(ces.distinctions, rs)
    ensures PhiOf(ces, rs, cut, optimum) >= 0.0
  {
    SelectivityNonnegative(ces.distinctions, rs, optimum);
    InformativenessBounds(ces, rs, cut);
    PhiUnfold(ces, rs, cut, optimum);
    MulNonnegative(SelectivityOf(ces.distinctions, rs, optimum), InformativenessOf(ces, rs, cut));
  }

  /**
   * A `PhiStructure`: distinctions, relations that may still need filtering, and the
   * memoised sums. `optimum` is the normalisation `optimum_sum_small_phi`, positive for
   * every substrate size.
   */
  class PhiStructure {
    const optimum: nat -> real
    var distinctions: Ces
    var relations: seq<Relation>
    var requiresFilter: bool
    var systemIntrinsicInformation: Option<real>
    var sumPhiDistinctionsMemo: Option<real>
    var sumPhiRelationsMemo: Option<real>
    var selectivityMemo: Option<real>
    var substrateSize: Option<nat>

    /**
     * Every memo holds the value its method computes from the current distinctions and
     * relations; relations without the filter flag are already supported by the distinctions.
     */
    ghost predicate Valid()
      reads this
    {
      && (forall n: nat :: optimum(n) > 0.0)
      && !distinctions.flat
      && (distinctions.distinctions != [] ==> distinctions.subsystem.Some?)
      && substrateSize == SubstrateSizeOf(distinctions)
      && (!requiresFilter ==> Supported(distinctions, relations))
      && (sumPhiDistinctionsMemo.Some? ==>
            sumPhiDistinctionsMemo.value == SumDistinctionPhi(distinctions.distinctions))
      && (sumPhiRelationsMemo.Some? ==>
            !requiresFilter && sumPhiRelationsMemo.value == SumRelationPhi(relations))
      && (selectivityMemo.Some? ==>
            && !requiresFilter && substrateSize.Some?
            && selectivityMemo.value
               == SelectivityOf(distinctions.distinctions, relations, optimum(substrateSize.value)))
      && (systemIntrinsicInformation.Some? ==>
            && !requiresFilter && substrateSize.Some?
            && systemIntrinsicInformation.value
               == PhiOf(distinctions, relations, CompleteCut, optimum(substrateSize.value)))
    }

    /**
     * `PhiStructure.__init__` for an argument that is a cause-effect structure: a flat one
     * is unflattened, the memos start empty, and the substrate size is recorded only when
     * there are distinctions.
     */
    constructor (optimum: nat -> real, ces: Ces, relations: seq<Relation>, requiresFilter: bool)
      requires forall n: nat :: optimum(n) > 0.0
      requires ces.distinctions != [] ==> ces.subsystem.Some?
      requires !requiresFilter ==> Supported(ces, relations)
      ensures Valid()
      ensures this.optimum == optimum
      ensures distinctions == Ces(ces.distinctions, ces.subsystem, false)
      ensures this.relations == relations && this.requiresFilter == requiresFilter
      ensures systemIntrinsicInformation.None? && sumPhiDistinctionsMemo.None?
      ensures sumPhiRelationsMemo.None? && selectivityMemo.None?
      ensures substrateSize == SubstrateSizeOf(ces)
    {
      this.optimum := optimum;
      this.requiresFilter := requiresFilter;
      distinctions := Ces(ces.distinctions, ces.subsystem, false);
      this.relations := relations;
      systemIntrinsicInformation := None;
      sumPhiDistinctionsMemo := None;
      sumPhiRelationsMemo := None;
      selectivityMemo := None;
      substrateSize := SubstrateSizeOf(ces);
    }

    /**
     * `filter_relations`: keeps only the relations the distinctions support and clears
     * the filter flag; nothing else changes.
     */
    method FilterRelations()
      requires Valid()
      modifies this
      ensures Valid()
      ensures relations == UnaffectedRelations(distinctions, old(relations)) && !requiresFilter
      ensures !old(requiresFilter) ==> relations == old(relations)
      ensures distinctions == old(distinctions) && substrateSize == old(substrateSize)
      ensures systemIntrinsicInformation == old(systemIntrinsicInformation)
      ensures sumPhiDistinctionsMemo == old(sumPhiDistinctionsMemo)
      ensures sumPhiRelationsMemo == old(sumPhiRelationsMemo) && selectivityMemo == old(selectivityMemo)
    {
      UnaffectedRelationsIdempotent(distinctions, relations);
      relations := UnaffectedRelations(distinctions, relations);
      requiresFilter := false;
    }

    /**
     * `realize`, through the `_requires_relations` decorator: filters the relations if the
     * flag asks for it.
     */
    method Realize()
      requires Valid()
      modifies this
      ensures Valid()
      ensures relations == UnaffectedRelations(distinctions, old(relations)) && !requiresFilter
      ensures !old(requiresFilter) ==> relations == old(relations)
      ensures distinctions == old(distinctions) && substrateSize == old(substrateSize)
      ensures systemIntrinsicInformation == old(systemIntrinsicInformation)
      ensures sumPhiDistinctionsMemo == old(sumPhiDistinctionsMemo)
      ensures sumPhiRelationsMemo == old(sumPhiRelationsMemo) && selectivityMemo == old(selectivityMemo)
    {
      if requiresFilter {
        FilterRelations();
      }
    }

    /** `sum_phi_distinctions`: the sum of the distinctions' small phi, computed once. */
    method SumPhiDistinctions() returns (s: real)
      requires Valid()
      modifies this
      ensures Valid()
      ensures s == SumDistinctionPhi(distinctions.distinctions) && sumPhiDistinctionsMemo == Some(s)
      ensures old(sumPhiDistinctionsMemo).Some? ==> s == old(sumPhiDistinctionsMemo).value
      ensures distinctions == old(distinctions) && relations == old(relations)
      ensures requiresFilter == old(requiresFilter) && substrateSize == old(substrateSize)
      ensures systemIntrinsicInformation == old(systemIntrinsicInformation)
      ensures sumPhiRelationsMemo == old(sumPhiRelationsMemo) && selectivityMemo == old(selectivityMemo)
    {
      if sumPhiDistinctionsMemo.None? {
        sumPhiDistinctionsMemo := Some(SumDistinctionPhi(distinctions.distinctions));
      }
      s := sumPhiDistinctionsMemo.value;
    }

    /**
     * `sum_phi_relations`: realizes the relations, then sums their small phi once.
     */
    method SumPhiRelations() returns (s: real)
      requires Valid()
      modifies this
      ensures Valid()
      ensures s == SumRelationPhi(relations) && sumPhiRelationsMemo == Some(s)
      ensures old(sumPhiRelationsMemo).Some? ==> s == old(sumPhiRelationsMemo).value
      ensures relations == UnaffectedRelations(distinctions, old(relations)) && !requiresFilter
      ensures !old(requiresFilter) ==> relations == old(relations)
      ensures distinctions == old(distinctions) && substrateSize == old(substrateSize)
      ensures systemIntrinsicInformation == old(systemIntrinsicInformation)
      ensures sumPhiDistinctionsMemo == old(sumPhiDistinctionsMemo) && selectivityMemo == old(selectivityMemo)
    {
      Realize();
      if sumPhiRelationsMemo.None? {
        sumPhiRelationsMemo := Some(SumRelationPhi(relations));
      }
      s := sumPhiRelationsMemo.value;
    }

    /**
     * `selectivity`: the memo, or the two sums over the normalisation for the substrate
     * size. A structure built without distinctions has no substrate size, and reading it
     * raises `AttributeError` after both sums were taken.
     */
    method Selectivity() returns (r: Result<real>)
      requires Valid()
      modifies this
      ensures Valid()
      ensures r.Ok? <==> substrateSize.Some?
      ensures r.Err? ==> r.error == AttributeError
      ensures r.Ok? ==> r.value == SelectivityOf(distinctions.distinctions, relations, optimum(substrateSize.value))
      ensures r.Ok? ==> selectivityMemo == Some(r.value)
      ensures r.Err? ==> selectivityMemo.None?
      ensures old(selectivityMemo).None? ==> sumPhiDistinctionsMemo.Some? && sumPhiRelationsMemo.Some?
      ensures old(sumPhiDistinctionsMemo).Some? ==> sumPhiDistinctionsMemo == old(sumPhiDistinctionsMemo)
      ensures old(sumPhiRelationsMemo).Some? ==> sumPhiRelationsMemo == old(sumPhiRelationsMemo)
      ensures relations == UnaffectedRelations(distinctions, old(relations)) && !requiresFilter
      ensures !old(requiresFilter) ==> relations == old(relations)
      ensures distinctions == old(distinctions) && substrateSize == old(substrateSize)
      ensures systemIntrinsicInformation == old(systemIntrinsicInformation)
    {
      if selectivityMemo.Some? {
        return Ok(selectivityMemo.value);
      }
      var d := SumPhiDistinctions();
      var rs := SumPhiRelations();
      if substrateSize.None? {
        return Err(AttributeError);
      }
      var value := (d + rs) / optimum(substrateSize.value);
      selectivityMemo := Some(value);
      r := Ok(value);
    }

    /**
     * `system_intrinsic_information`: big phi of the partition by the complete cut,
     * computed once.
     */
    method SystemIntrinsicInformation() returns (r: Result<real>)
      requires Valid()
      modifies this
      ensures Valid()
      ensures r.Ok? <==> substrateSize.Some?
      ensures r.Err? ==> r.error == AttributeError
      ensures r.Ok? ==> r.value == PhiOf(distinctions, relations, CompleteCut, optimum(substrateSize.value))
      ensures r.Ok? ==> systemIntrinsicInformation == Some(r.value)
      ensures r.Err? ==> systemIntrinsicInformation.None?
      ensures relations == UnaffectedRelations(distinctions, old(relations)) && !requiresFilter
      ensures distinctions == old(distinctions) && substrateSize == old(substrateSize)
      ensures sumPhiDistinctionsMemo == old(sumPhiDistinctionsMemo)
      ensures sumPhiRelationsMemo == old(sumPhiRelationsMemo) && selectivityMemo == old(selectivityMemo)
    {
      if systemIntrinsicInformation.Some? {
        return Ok(systemIntrinsicInformation.value);
      }
      var p := Partition(this, CompleteCut);
      if p.Err? {
        return Err(p.error);
      }
      r := p.value.Phi();
      if r.Ok? {
        systemIntrinsicInformation := Some(r.value);
      }
    }

    /**
     * Takes over the memos and the substrate size of `source`, a structure over the same
     * distinctions and relations.
     */
    method LiftMemos(source: PhiStructure)
      requires Valid() && source.Valid() && source != this
      requires optimum == source.optimum && distinctions == source.distinctions
      requires relations == source.relations && !requiresFilter && !source.requiresFilter
      modifies this
      ensures Valid()
      ensures distinctions == old(distinctions) && relations == old(relations) && !requiresFilter
      ensures substrateSize == source.substrateSize
      ensures systemIntrinsicInformation == source.systemIntrinsicInformation
      ensures sumPhiDistinctionsMemo == source.sumPhiDistinctionsMemo
      ensures sumPhiRelationsMemo == source.sumPhiRelationsMemo
      ensures selectivityMemo == source.selectivityMemo
    {
      systemIntrinsicInformation := source.systemIntrinsicInformation;
      substrateSize := source.substrateSize;
      sumPhiDistinctionsMemo := source.sumPhiDistinctionsMemo;
      sumPhiRelationsMemo := source.sumPhiRelationsMemo;
      selectivityMemo := source.selectivityMemo;
    }
  }

  /** What `PhiStructure` is given as its distinctions: a cause-effect structure or anything else. */
  datatype DistinctionsArg = CesArg(ces: Ces) | NotACes

  /**
   * `PhiStructure(distinctions, relations, requires_filter)`: anything but a cause-effect
   * structure is refused with `ValueError`; a non-empty structure without a subsystem fails
   * when its size is taken (`TypeError`); otherwise the new structure holds the unflattened
   * distinctions and the relations as given.
   */
  method NewPhiStructure(optimum: nat -> real, arg: DistinctionsArg, relations: seq<Relation>,
                         requiresFilter: bool)
    returns (r: Result<PhiStructure>)
    requires forall n: nat :: optimum(n) > 0.0
    requires arg.CesArg? && !requiresFilter ==> Supported(arg.ces, relations)
    ensures arg.NotACes? ==> r == Err(ValueError("distinctions must be a CauseEffectStructure"))
    ensures arg.CesArg? && arg.ces.distinctions != [] && arg.ces.subsystem.None? ==> r == Err(TypeError)
    ensures r.Ok? <==> arg.CesArg? && (arg.ces.distinctions != [] ==> arg.ces.subsystem.Some?)
    ensures r.Ok? ==>
      && fresh(r.value) && r.value.Valid() && r.value.optimum == optimum
      && r.value.distinctions == Ces(arg.ces.distinctions, arg.ces.subsystem, false)
      && r.value.relations == relations && r.value.requiresFilter == requiresFilter
      && r.value.substrateSize == SubstrateSizeOf(arg.ces)
      && r.value.sumPhiDistinctionsMemo.None? && r.value.sumPhiRelationsMemo.None?
      && r.value.selectivityMemo.None? && r.value.systemIntrinsicInformation.None?
  {
    if arg.NotACes? {
      return Err(ValueError("distinctions must be a CauseEffectStructure"));
    }
    if arg.ces.distinctions != [] && arg.ces.subsystem.None? {
      return Err(TypeError);
    }
    var ps := new PhiStructure(optimum, arg.ces, relations, requiresFilter);
    r := Ok(ps);
  }

  /**
   * A `PartitionedPhiStructure`. The fields and methods it inherits from `PhiStructure`
   * live in `base`, its own structure over the parent's distinctions and relations.
   */
  class PartitionedPhiStructure {
    /** `unpartitioned_phi_structure` */
    const parent: PhiStructure
    const base: PhiStructure
    const cut: Cut
    var partitionedDistinctions: Option<Ces>
    var partitionedRelations: Option<seq<Relation>>
    var sumPhiPartitionedDistinctionsMemo: Option<real>
    var sumPhiPartitionedRelationsMemo: Option<real>
    var informativenessMemo: Option<real>

    /** Every memo holds the value its method computes from `base` and the cut. */
    ghost predicate Valid()
      reads this, base
    {
      && base != parent
      && base.Valid()
      && !base.requiresFilter
      && (partitionedDistinctions.Some? ==>
            partitionedDistinctions.value == UnaffectedDistinctions(base.distinctions, cut))
      && (partitionedRelations.Some? ==>
            partitionedRelations.value == PartitionedRelationsOf(base.distinctions, base.relations, cut))
      && (sumPhiPartitionedDistinctionsMemo.Some? ==>
            sumPhiPartitionedDistinctionsMemo.value
            == SumDistinctionPhi(UnaffectedDistinctions(base.distinctions, cut).distinctions))
      && (sumPhiPartitionedRelationsMemo.Some? ==>
            sumPhiPartitionedRelationsMemo.value
            == SumRelationPhi(PartitionedRelationsOf(base.distinctions, base.relations, cut)))
      && (informativenessMemo.Some? ==>
            informativenessMemo.value == InformativenessOf(base.distinctions, base.relations, cut))
    }

    /**
     * `PartitionedPhiStructure.__init__` as intended: realizes the parent, builds the
     * inherited part over the parent's distinctions and relations without the filter flag,
     * lifts the parent's memos and substrate size, and starts the partitioned memos empty.
     * A parent without a substrate size passes on none; the source raises there instead,
     * which `Partition` models.
     */
    constructor (parent: PhiStructure, cut: Cut)
      requires parent.Valid()
      modifies parent
      ensures Valid() && parent.Valid()
      ensures this.parent == parent && this.cut == cut && fresh(base)
      ensures parent.distinctions == old(parent.distinctions)
      ensures parent.relations == UnaffectedRelations(old(parent.distinctions), old(parent.relations))
      ensures !parent.requiresFilter
      ensures parent.substrateSize == old(parent.substrateSize)
      ensures parent.systemIntrinsicInformation == old(parent.systemIntrinsicInformation)
      ensures parent.sumPhiDistinctionsMemo == old(parent.sumPhiDistinctionsMemo)
      ensures parent.sumPhiRelationsMemo == old(parent.sumPhiRelationsMemo)
      ensures parent.selectivityMemo == old(parent.selectivityMemo)
      ensures base.optimum == parent.optimum
      ensures base.distinctions == parent.distinctions && base.relations == parent.relations
      ensures base.substrateSize == parent.substrateSize
      ensures base.systemIntrinsicInformation == parent.systemIntrinsicInformation
      ensures base.sumPhiDistinctionsMemo == parent.sumPhiDistinctionsMemo
      ensures base.sumPhiRelationsMemo == parent.sumPhiRelationsMemo
      ensures base.selectivityMemo == parent.selectivityMemo
      ensures partitionedDistinctions.None? && partitionedRelations.None?
      ensures sumPhiPartitionedDistinctionsMemo.None? && sumPhiPartitionedRelationsMemo.None?
      ensures informativenessMemo.None?
    {
      parent.Realize();
      var b := new PhiStructure(parent.optimum, parent.distinctions, parent.relations, false);
      b.LiftMemos(parent);
      this.parent := parent;
      base := b;
      this.cut := cut;
      partitionedDistinctions := None;
      partitionedRelations := None;
      sumPhiPartitionedDistinctionsMemo := None;
      sumPhiPartitionedRelationsMemo := None;
      informativenessMemo := None;
    }

    /** `partitioned_distinctions`: the distinctions the cut leaves intact, cached. */
    method PartitionedDistinctions() returns (pd: Ces)
      requires Valid()
      modifies this
      ensures Valid()
      ensures pd == UnaffectedDistinctions(base.distinctions, cut) && partitionedDistinctions == Some(pd)
      ensures partitionedRelations == old(partitionedRelations)
      ensures sumPhiPartitionedDistinctionsMemo == old(sumPhiPartitionedDistinctionsMemo)
      ensures sumPhiPartitionedRelationsMemo == old(sumPhiPartitionedRelationsMemo)
      ensures informativenessMemo == old(informativenessMemo)
    {
      if partitionedDistinctions.None? {
        partitionedDistinctions := Some(UnaffectedDistinctions(base.distinctions, cut));
      }
      pd := partitionedDistinctions.value;
    }

    /**
     * `partitioned_relations`: the relations the partitioned distinctions support, cached.
     * The inherited filter flag is always clear here, so the decorator does nothing.
     */
    method PartitionedRelations() returns (pr: seq<Relation>)
      requires Valid()
      modifies this
      ensures Valid()
      ensures pr == PartitionedRelationsOf(base.distinctions, base.relations, cut)
      ensures partitionedRelations == Some(pr)
      ensures sumPhiPartitionedDistinctionsMemo == old(sumPhiPartitionedDistinctionsMemo)
      ensures sumPhiPartitionedRelationsMemo == old(sumPhiPartitionedRelationsMemo)
      ensures informativenessMemo == old(informativenessMemo)
    {
      if partitionedRelations.None? {
        var pd := PartitionedDistinctions();
        partitionedRelations := Some(UnaffectedRelations(pd, base.relations));
      }
      pr := partitionedRelations.value;
    }

    /** `sum_phi_partitioned_distinctions`: computed once. */
    method SumPhiPartitionedDistinctions() returns (s: real)
      requires Valid()
      modifies this
      ensures Valid()
      ensures s == SumDistinctionPhi(UnaffectedDistinctions(base.distinctions, cut).distinctions)
      ensures sumPhiPartitionedDistinctionsMemo == Some(s)
      ensures old(sumPhiPartitionedDistinctionsMemo).Some? ==> s == old(sumPhiPartitionedDistinctionsMemo).value
      ensures sumPhiPartitionedRelationsMemo == old(sumPhiPartitionedRelationsMemo)
      ensures informativenessMemo == old(informativenessMemo)
    {
      if sumPhiPartitionedDistinctionsMemo.None? {
        var pd := PartitionedDistinctions();
        sumPhiPartitionedDistinctionsMemo := Some(SumDistinctionPhi(pd.distinctions));
      }
      s := sumPhiPartitionedDistinctionsMemo.value;
    }

    /**
     * `sum_phi_partitioned_relations`: computed once; computing it drops both cached
     * partitioned collections.
     */
    method SumPhiPartitionedRelations() returns (s: real)
      requires Valid()
      modifies this
      ensures Valid()
      ensures s == SumRelationPhi(PartitionedRelationsOf(base.distinctions, base.relations, cut))
      ensures sumPhiPartitionedRelationsMemo == Some(s)
      ensures old(sumPhiPartitionedRelationsMemo).Some? ==>
        s == old(sumPhiPartitionedRelationsMemo).value
        && partitionedDistinctions == old(partitionedDistinctions)
        && partitionedRelations == old(partitionedRelations)
      ensures old(sumPhiPartitionedRelationsMemo).None? ==>
        partitionedDistinctions.None? && partitionedRelations.None?
      ensures sumPhiPartitionedDistinctionsMemo == old(sumPhiPartitionedDistinctionsMemo)
      ensures informativenessMemo == old(informativenessMemo)
    {
      if sumPhiPartitionedRelationsMemo.None? {
        var pr := PartitionedRelations();
        sumPhiPartitionedRelationsMemo := Some(SumRelationPhi(pr));
        partitionedDistinctions := None;
        partitionedRelations := None;
      }
      s := sumPhiPartitionedRelationsMemo.value;
    }

    /**
     * `informativeness`: what the cut takes from the distinctions plus what it takes from
     * the relations, computed once.
     */
    method Informativeness() returns (i: real)
      requires Valid()
      modifies this, base
      ensures Valid()
      ensures i == InformativenessOf(base.distinctions, base.relations, cut) && informativenessMemo == Some(i)
      ensures old(informativenessMemo).Some? ==> i == old(informativenessMemo).value
      ensures base.distinctions == old(base.distinctions) && base.relations == old(base.relations)
      ensures base.substrateSize == old(base.substrateSize)
      ensures base.selectivityMemo == old(base.selectivityMemo)
    {
      if informativenessMemo.None? {
        var d := base.SumPhiDistinctions();
        var pd := SumPhiPartitionedDistinctions();
        var r := base.SumPhiRelations();
        var pr := SumPhiPartitionedRelations();
        informativenessMemo := Some((d - pd) + (r - pr));
      }
      i := informativenessMemo.value;
    }

    /** `phi`: selectivity times informativeness; no selectivity, no phi. */
    method Phi() returns (r: Result<real>)
      requires Valid()
      modifies this, base
      ensures Valid()
      ensures r.Ok? <==> base.substrateSize.Some?
      ensures r.Err? ==> r.error == AttributeError
      ensures r.Ok? ==> r.value == PhiOf(base.distinctions, base.relations, cut, base.optimum(base.substrateSize.value))
      ensures base.distinctions == old(base.distinctions) && base.relations == old(base.relations)
      ensures base.substrateSize == old(base.substrateSize)
    {
      var selectivity := base.Selectivity();
      if selectivity.Err? {
        return Err(selectivity.error);
      }
      var informativeness := Informativeness();
      var phi := PhiFromParts(base.distinctions, base.relations, cut, base.optimum(base.substrateSize.value),
                              selectivity.value, informativeness);
      r := Ok(phi);
    }
  }

  /**
   * `PhiStructure.partition(cut)` as written: the new partition realizes the parent, and
   * lifting the parent's `_substrate_size` raises `AttributeError` when the parent was
   * built without distinctions and so never set it.
   */
  method Partition(parent: PhiStructure, cut: Cut) returns (r: Result<PartitionedPhiStructure>)
    requires parent.Valid()
    modifies parent
    ensures parent.Valid()
    ensures parent.distinctions == old(parent.distinctions) && !parent.requiresFilter
    ensures parent.relations == UnaffectedRelations(old(parent.distinctions), old(parent.relations))
    ensures parent.substrateSize == old(parent.substrateSize)
    ensures parent.systemIntrinsicInformation == old(parent.systemIntrinsicInformation)
    ensures parent.sumPhiDistinctionsMemo == old(parent.sumPhiDistinctionsMemo)
    ensures parent.sumPhiRelationsMemo == old(parent.sumPhiRelationsMemo)
    ensures parent.selectivityMemo == old(parent.selectivityMemo)
    ensures r.Ok? <==> parent.substrateSize.Some?
    ensures r.Err? ==> r.error == AttributeError
    ensures r.Ok? ==>
      && fresh(r.value) && fresh(r.value.base) && r.value.Valid()
      && r.value.parent == parent && r.value.cut == cut
      && r.value.base.optimum == parent.optimum && r.value.base.distinctions == parent.distinctions
      && r.value.base.relations == parent.relations && r.value.base.substrateSize == parent.substrateSize
  {
    parent.Realize();
    if parent.substrateSize.None? {
      return Err(AttributeError);
    }
    var p := new PartitionedPhiStructure(parent, cut);
    r := Ok(p);
  }

  /** `SystemIrreducibilityAnalysis` */
  datatype Sia = Sia(
    subsystem: Subsystem,
    phiStructure: PhiStructure,
    partitionedPhiStructure: PartitionedPhiStructure,
    cut: Cut,
    selectivity: Option<real>,
    informativeness: Option<real>,
    phi: real)

  /**
   * `evaluate_cut`: partitions the structure by the cut and records the partition's
   * selectivity, informativeness and phi.
   */
  method EvaluateCut(subsystem: Subsystem, ps: PhiStructure, cut: Cut) returns (r: Result<Sia>)
    requires ps.Valid()
    modifies ps
    ensures ps.Valid()
    ensures ps.distinctions == old(ps.distinctions) && !ps.requiresFilter
    ensures ps.relations == UnaffectedRelations(old(ps.distinctions), old(ps.relations))
    ensures r.Ok? <==> ps.substrateSize.Some?
    ensures r.Err? ==> r.error == AttributeError
    ensures r.Ok? ==>
      var sia := r.value;
      var optimum := ps.optimum(ps.substrateSize.value);
      && sia.subsystem == subsystem && sia.phiStructure == ps && sia.cut == cut
      && fresh(sia.partitionedPhiStructure)
      && sia.selectivity == Some(SelectivityOf(ps.distinctions.distinctions, ps.relations, optimum))
      && sia.informativeness == Some(InformativenessOf(ps.distinctions, ps.relations, cut))
      && sia.phi == PhiOf(ps.distinctions, ps.relations, cut, optimum)
  {
    var p := Partition(ps, cut);
    if p.Err? {
      return Err(p.error);
    }
    var partitioned := p.value;
    var selectivity := partitioned.base.Selectivity();
    var informativeness := partitioned.Informativeness();
    var phi := partitioned.Phi();
    r := Ok(Sia(subsystem, ps, partitioned, partitioned.cut, Some(selectivity.value), Some(informativeness), phi.value));
  }

  /**
   * `_null_sia` as written: refuses a subsystem that is cut; otherwise partitions the
   * structure by the null cut and reports phi zero with no selectivity or informativeness.
   * The partition raises `AttributeError` for a structure without a substrate size.
   */
  method NullSia(subsystem: Subsystem, ps: PhiStructure) returns (r: Result<Sia>)
    requires ps.Valid()
    modifies ps
    ensures ps.Valid()
    ensures ps.distinctions == old(ps.distinctions)
    ensures !subsystem.cutIsNull ==> r == Err(ValueError("subsystem must have no cut")) && unchanged(ps)
    ensures subsystem.cutIsNull ==>
      ps.relations == UnaffectedRelations(old(ps.distinctions), old(ps.relations)) && !ps.requiresFilter
    ensures subsystem.cutIsNull ==>
      && (r.Ok? <==> ps.substrateSize.Some?)
      && (r.Err? ==> r.error == AttributeError)
    ensures r.Ok? ==>
      && r.value.subsystem == subsystem && r.value.phiStructure == ps
      && r.value.cut == NullCut && r.value.partitionedPhiStructure.parent == ps
      && r.value.selectivity.None? && r.value.informativeness.None? && r.value.phi == 0.0
  {
    if !subsystem.cutIsNull {
      return Err(ValueError("subsystem must have no cut"));
    }
    var p := Partition(ps, NullCut);
    if p.Err? {
      return Err(p.error);
    }
    r := Ok(Sia(subsystem, ps, p.value, p.value.cut, None, None, 0.0));
  }

  /**
   * `_null_sia` as intended: the same null analysis with phi zero, also for a structure
   * without distinctions, whose partition passes on the missing substrate size.
   */
  method NullSiaCorrected(subsystem: Subsystem, ps: PhiStructure) returns (r: Result<Sia>)
    requires ps.Valid()
    modifies ps
    ensures ps.Valid()
    ensures ps.distinctions == old(ps.distinctions)
    ensures !subsystem.cutIsNull ==> r == Err(ValueError("subsystem must have no cut")) && unchanged(ps)
    ensures subsystem.cutIsNull ==>
      ps.relations == UnaffectedRelations(old(ps.distinctions), old(ps.relations)) && !ps.requiresFilter
    ensures subsystem.cutIsNull ==>
      && r.Ok?
      && r.value.subsystem == subsystem && r.value.phiStructure == ps
      && r.value.cut == NullCut && r.value.partitionedPhiStructure.parent == ps
      && r.value.selectivity.None? && r.value.informativeness.None? && r.value.phi == 0.0
  {
    if !subsystem.cutIsNull {
      return Err(ValueError("subsystem must have no cut"));
    }
    var p := new PartitionedPhiStructure(ps, NullCut);
    r := Ok(Sia(subsystem, ps, p, p.cut, None, None, 0.0));
  }

  /** The values the cut search compares: phi, with `float("inf")` as the starting extreme. */
  datatype ExtReal = Finite(value: real) | Infinity

  /** `operator.lt` on those values. */
  predicate ExtLess(a: ExtReal, b: ExtReal)
  {
    match (a, b)
    case (Finite(x), Finite(y)) => x < y
    case (Finite(_), Infinity) => true
    case (Infinity, _) => false
  }

  lemma ExtLessIsStrictTotalOrder()
    ensures StrictTotalOrder(ExtLess)
  {
  }

  /** The phi of the analysis of each cut of a realized structure. */
  function CutPhi(ces: Ces, rs: seq<Relation>, optimum: real): (Cut -> ExtReal)
    requires optimum > 0.0
  {
    (cut: Cut) => Finite(PhiOf(ces, rs, cut, optimum))
  }

  /**
   * The cut search over a non-empty list of cuts always ends on a cut, and that cut has the
   * least phi of all when every small phi is non-negative: either it reached phi zero, or
   * the running comparison kept the smallest phi.
   */
  lemma CutSearchFindsMinimum(ces: Ces, rs: seq<Relation>, optimum: real, cuts: seq<Cut>)
    requires optimum > 0.0 && cuts != [] && NonnegativePhis(ces.distinctions, rs)
    ensures var k := ExtremeIndex(cuts, CutPhi(ces, rs, optimum), ExtLess, Infinity, Finite(0.0));
      && k.Some?
      && forall j :: 0 <= j < |cuts| ==> PhiOf(ces, rs, cuts[k.value], optimum) <= PhiOf(ces, rs, cuts[j], optimum)
  {
    var phiOf := CutPhi(ces, rs, optimum);
    var k := ExtremeIndex(cuts, phiOf, ExtLess, Infinity, Finite(0.0));
    match FirstHit(cuts, phiOf, Finite(0.0))
    case Some(i) =>
      forall j | 0 <= j < |cuts|
        ensures PhiOf(ces, rs, cuts[i], optimum) <= PhiOf(ces, rs, cuts[j], optimum)
      {
        PhiNonnegative(ces, rs, cuts[j], optimum);
      }
    case None =>
      ExtLessIsStrictTotalOrder();
      ExtremeIndexWithoutShortCircuit(cuts, phiOf, ExtLess, Infinity, Finite(0.0));
      assert ExtLess(phiOf(cuts[0]), Infinity);
  }

  /** The cut search ends on some cut whenever there is a cut to try. */
  lemma CutSearchEndsOnACut(ces: Ces, rs: seq<Relation>, optimum: real, cuts: seq<Cut>)
    requires optimum > 0.0 && cuts != []
    ensures ExtremeIndex(cuts, CutPhi(ces, rs, optimum), ExtLess, Infinity, Finite(0.0)).Some?
  {
    var phiOf := CutPhi(ces, rs, optimum);
    if FirstHit(cuts, phiOf, Finite(0.0)).None? {
      ScanNoneIff(cuts, phiOf, ExtLess, Infinity);
      assert ExtLess(phiOf(cuts[0]), Infinity);
    }
  }

  /**
   * What the cut search reports for a realized structure and a list of cuts: none when
   * there are no cuts, `AttributeError` when the structure has no substrate size, and
   * otherwise the analysis of the cut the short-circuiting search over the cuts' phi ends on,
   * with that cut's selectivity, informativeness and phi.
   */
  ghost predicate CutSearchOutcome(subsystem: Subsystem, ps: PhiStructure, cuts: seq<Cut>,
                                   r: Result<Option<Sia>>)
    reads ps
  {
    && ps.Valid()
    && (r.Err? <==> cuts != [] && ps.substrateSize.None?)
    && (r.Err? ==> r.error == AttributeError)
    && (r.Ok? && cuts == [] ==> r.value.None?)
    && (r.Ok? && cuts != [] ==>
          && ps.substrateSize.Some?
          && var optimum := ps.optimum(ps.substrateSize.value);
             var k := ExtremeIndex(cuts, CutPhi(ps.distinctions, ps.relations, optimum),
                                   ExtLess, Infinity, Finite(0.0));
             && k.Some? && r.value.Some?
             && r.value.value.subsystem == subsystem && r.value.value.phiStructure == ps
             && r.value.value.cut == cuts[k.value]
             && r.value.value.selectivity == Some(SelectivityOf(ps.distinctions.distinctions, ps.relations, optimum))
             && r.value.value.informativeness == Some(InformativenessOf(ps.distinctions, ps.relations, cuts[k.value]))
             && r.value.value.phi == PhiOf(ps.distinctions, ps.relations, cuts[k.value], optimum))
  }

  /**
   * `_evaluate_cuts` over one list of cuts: the analysis of the cut with the least phi,
   * stopping early at a cut of phi zero, with no callback to run. The structure must be
   * realized.
   */
  method EvaluateCuts(subsystem: Subsystem, ps: PhiStructure, cuts: seq<Cut>)
    returns (r: Result<Option<Sia>>)
    requires ps.Valid() && !ps.requiresFilter
    modifies ps
    ensures ps.Valid() && !ps.requiresFilter
    ensures ps.distinctions == old(ps.distinctions) && ps.relations == old(ps.relations)
    ensures CutSearchOutcome(subsystem, ps, cuts, r)
  {
    if cuts == [] {
      return Ok(None);
    }
    if ps.substrateSize.None? {
      return Err(AttributeError);
    }
    ghost var ces, rs := ps.distinctions, ps.relations;
    var optimum := ps.optimum(ps.substrateSize.value);
    var phiOf := CutPhi(ps.distinctions, ps.relations, optimum);
    CutSearchEndsOnACut(ps.distinctions, ps.relations, optimum, cuts);
    var best, _ := ExtremumWithShortCircuit(cuts, phiOf, ExtLess, Infinity, Finite(0.0), false);
    var sia := EvaluateCut(subsystem, ps, best.value);
    assert ps.relations == rs;
    r := Ok(Some(sia.value));
  }

  /**
   * `evaluate_phi_structure` as written: realizes the structure, answers with the null
   * analysis when the pre-checks declare the system trivially reducible, and otherwise
   * searches the system cuts `sia_partitions` builds from the bipartitions. The null
   * analysis of a structure without distinctions raises `AttributeError`.
   */
  method EvaluatePhiStructure(subsystem: Subsystem, ps: PhiStructure, bipartitions: seq<Bipartition>,
                              checkTrivialReducibility: bool)
    returns (r: Result<Option<Sia>>)
    requires ps.Valid()
    modifies ps
    ensures ps.Valid() && ps.distinctions == old(ps.distinctions) && !ps.requiresFilter
    ensures ps.relations == UnaffectedRelations(old(ps.distinctions), old(ps.relations))
    ensures checkTrivialReducibility && Nonspecified(subsystem, ps.distinctions.distinctions) ==>
      && (r.Ok? <==> subsystem.cutIsNull && ps.substrateSize.Some?)
      && (!subsystem.cutIsNull ==> r == Err(ValueError("subsystem must have no cut")))
      && (subsystem.cutIsNull && ps.substrateSize.None? ==> r == Err(AttributeError))
      && (r.Ok? ==> r.value.Some? && r.value.value.cut == NullCut && r.value.value.phi == 0.0)
    ensures !(checkTrivialReducibility && Nonspecified(subsystem, ps.distinctions.distinctions)) ==>
      CutSearchOutcome(subsystem, ps, SiaPartitions(bipartitions), r)
  {
    ps.Realize();
    if checkTrivialReducibility {
      var trivial := IsTriviallyReducible(subsystem, ps.distinctions.distinctions);
      if trivial {
        var nullSia := NullSia(subsystem, ps);
        if nullSia.Err? {
          return Err(nullSia.error);
        }
        return Ok(Some(nullSia.value));
      }
    }
    r := EvaluateCuts(subsystem, ps, SiaPartitions(bipartitions));
  }

  /**
   * `evaluate_phi_structure` as intended: the same, except that the null analysis of a
   * trivially reducible system under the null cut always reports phi zero.
   */
  method EvaluatePhiStructureCorrected(subsystem: Subsystem, ps: PhiStructure,
                                       bipartitions: seq<Bipartition>, checkTrivialReducibility: bool)
    returns (r: Result<Option<Sia>>)
    requires ps.Valid()
    modifies ps
    ensures ps.Valid() && ps.distinctions == old(ps.distinctions) && !ps.requiresFilter
    ensures ps.relations == UnaffectedRelations(old(ps.distinctions), old(ps.relations))
    ensures checkTrivialReducibility && Nonspecified(subsystem, ps.distinctions.distinctions) ==>
      && (r.Ok? <==> subsystem.cutIsNull)
      && (r.Err? ==> r.error == ValueError("subsystem must have no cut"))
      && (r.Ok? ==> r.value.Some? && r.value.value.cut == NullCut && r.value.value.phi == 0.0)
    ensures !(checkTrivialReducibility && Nonspecified(subsystem, ps.distinctions.distinctions)) ==>
      CutSearchOutcome(subsystem, ps, SiaPartitions(bipartitions), r)
  {
    ps.Realize();
    if checkTrivialReducibility {
      var trivial := IsTriviallyReducible(subsystem, ps.distinctions.distinctions);
      if trivial {
        var nullSia := NullSiaCorrected(subsystem, ps);
        if nullSia.Err? {
          return Err(nullSia.error);
        }
        return Ok(Some(nullSia.value));
      }
    }
    r := EvaluateCuts(subsystem, ps, SiaPartitions(bipartitions));
  }

  /**
   * A two-node subsystem under the null cut with no distinctions is trivially reducible.
   * Evaluated as written, its structure fails with `AttributeError` in the null analysis;
   * evaluated as intended, it gets the null analysis with phi zero.
   */
  method EmptyStructureNullSiaFails() returns (asWritten: Result<Option<Sia>>, corrected: Result<Option<Sia>>)
    ensures asWritten == Err(AttributeError)
    ensures corrected.Ok? && corrected.value.Some? && corrected.value.value.phi == 0.0
  {
    var subsystem := Subsystem([0, 1], true);
    var ces := Ces([], Some(subsystem), false);
    var optimum := (n: nat) => 1.0;
    EmptyStructureIsNonspecified(subsystem);
    var ps := new PhiStructure(optimum, ces, [], false);
    asWritten := EvaluatePhiStructure(subsystem, ps, [], true);
    var ps' := new PhiStructure(optimum, ces, [], false);
    corrected := EvaluatePhiStructureCorrected(subsystem, ps', [], true);
  }

  /** `SystemIrreducibilityAnalysis.order_by`: `[phi, len(subsystem), node_indices]`. */
  datatype SiaKey = SiaKey(phi: real, size: nat, nodeIndices: Nodes)

  function OrderBy(sia: Sia): SiaKey
  {
    SiaKey(sia.phi, Size(sia.subsystem), sia.subsystem.nodeIndices)
  }

  /** Python's `<` on tuples of integers: lexicographic, a proper prefix first. */
  predicate NodesLess(a: Nodes, b: Nodes)
  {
    if b == [] then false
    else if a == [] then true
    else a[0] < b[0] || (a[0] == b[0] && NodesLess(a[1..], b[1..]))
  }

  /** Python's `<` on the lists `order_by` returns: lexicographic over the three entries. */
  predicate KeyLess(a: SiaKey, b: SiaKey)
  {
    a.phi < b.phi
    || (a.phi == b.phi && a.size < b.size)
    || (a.phi == b.phi && a.size == b.size && NodesLess(a.nodeIndices, b.nodeIndices))
  }

  lemma {:induction false} NodesLessIrreflexive(a: Nodes)
    ensures !NodesLess(a, a)
  {
    if a != [] {
      NodesLessIrreflexive(a[1..]);
    }
  }

  lemma {:induction false} NodesLessTransitive(a: Nodes, b: Nodes, c: Nodes)
    requires NodesLess(a, b) && NodesLess(b, c)
    ensures NodesLess(a, c)
  {
    if a != [] && a[0] == b[0] && b[0] == c[0] {
      NodesLessTransitive(a[1..], b[1..], c[1..]);
    }
  }

  lemma {:induction false} NodesLessTotal(a: Nodes, b: Nodes)
    requires a != b
    ensures NodesLess(a, b) || NodesLess(b, a)
  {
    if a != [] && b != [] && a[0] == b[0] {
      assert a == [a[0]] + a[1..] && b == [b[0]] + b[1..];
      NodesLessTotal(a[1..], b[1..]);
    }
  }

  /** Analyses are totally ordered by their keys: phi first, then size, then node indices. */
  lemma KeyLessIsStrictTotalOrder()
    ensures StrictTotalOrder(KeyLess)
  {
    forall a: SiaKey
      ensures !KeyLess(a, a)
    {
      NodesLessIrreflexive(a.nodeIndices);
    }
    forall a: SiaKey, b: SiaKey, c: SiaKey | KeyLess(a, b) && KeyLess(b, c)
      ensures KeyLess(a, c)
    {
      if a.phi == b.phi == c.phi && a.size == b.size == c.size {
        NodesLessTransitive(a.nodeIndices, b.nodeIndices, c.nodeIndices);
      }
    }
    forall a: SiaKey, b: SiaKey | a != b
      ensures KeyLess(a, b) || KeyLess(b, a)
    {
      if a.phi == b.phi && a.size == b.size {
        NodesLessTotal(a.nodeIndices, b.nodeIndices);
      }
    }
  }

  /** A smaller phi always orders first, whatever the subsystems. */
  lemma OrderByPhiFirst(s1: Sia, s2: Sia)
    requires s1.phi < s2.phi
    ensures KeyLess(OrderBy(s1), OrderBy(s2)) && !KeyLess(OrderBy(s2), OrderBy(s1))
  {
  }
}
