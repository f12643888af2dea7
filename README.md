# pyphi system-irreducibility search, modelled in Dafny

This project models the core of pyphi's system-irreducibility analysis (`pyphi/big_phi.py`)
and the `Direction` enumeration it depends on (`pyphi/direction.py`).

The analysis takes a subsystem and its cause-effect structure: its distinctions and the
relations among their causes and effects. It works as follows.

- It builds candidate sets of distinctions (`all_nonconflicting_distinction_sets`): one set
  per distinct intersection of a cause-side and an effect-side choice of one mechanism per
  purview. Each set is conflict-free.
- It wraps each subset with its supported relations in a `PhiStructure`.
- It asks whether the system is trivially reducible: some node is missing from every
  cause purview or from every effect purview.
- If so, it returns a null analysis with big phi zero. As written, this fails for a
  structure without distinctions (see Findings).
- Otherwise it evaluates each cut of the system. Each cut is a `PartitionedPhiStructure`,
  whose big phi is selectivity times informativeness. A short-circuiting minimum
  (`extremum_with_short_circuit`) keeps the cut with the least phi.

The modules follow the source's structure:

| module | file | what it holds |
|---|---|---|
| `Directions` | `direction.dfy` | `Direction`, its JSON form, `order`, `flip`, `both`, `all` |
| `Structures` | `structures.dfy` | the values read: distinctions, causes/effects (`Mice`), relations, cause-effect structures, subsystems, cuts |
| `Cuts` | `cuts.dfy` | `is_affected_by_cut`, `unaffected_distinctions`, `unaffected_relations`, `sia_partitions` |
| `Conflicts` | `conflicts.dfy` | `_nonconflicting_mice_set` and `all_nonconflicting_distinction_sets` |
| `Reducibility` | `reducibility.dfy` | the trivial-reducibility pre-checks, `is_congruent`, `filter_ces` |
| `Extremum` | `extremum.dfy` | `extremum_with_short_circuit` |
| `PhiStructures` | `phi_structure.dfy` | the two structure classes with their memo fields, `evaluate_cut`, `_null_sia`, a sequential `evaluate_phi_structure`, `SystemIrreducibilityAnalysis.order_by` |
| `Seqs`, `Wrappers` | `seqs.dfy`, `wrappers.dfy` | list comprehensions, sums, `itertools.product`, `unique`; `Option`, `Result`, the raised exceptions |

Where the source loops or mutates state, the model is imperative Dafny. Each such method is
proved against a specification function:

- `has_nonspecified_elements` is a loop, proved against `Nonspecified`.
- The grouping loop of `all_nonconflicting_distinction_sets` is proved against `Group`.
- `extremum_with_short_circuit` is a loop, proved against `ExtremeIndex`.
- `PhiStructure` and `PartitionedPhiStructure` are classes whose methods fill `Option`
  memo fields and reset caches. Each class keeps an invariant (`Valid`): every filled memo
  equals the value its method computes from the current distinctions and relations.

The rest is functions and lemmas. Small phi, selectivity, informativeness and big phi are
exact `real`s. The normalisation `optimum_sum_small_phi` is a field `optimum: nat -> real`,
assumed positive. Python exceptions become `Err` values of a `Result`.

`PartitionedPhiStructure` inherits from `PhiStructure` in the source. Here it owns a fresh
`base: PhiStructure`, which holds the inherited fields and runs the inherited methods.
`PhiStructure.partition(cut)` (`pyphi/big_phi.py:226-228`) is the method `Partition`. It
raises the source's `AttributeError` for a parent without a substrate size, and otherwise
runs the `PartitionedPhiStructure` constructor. The module-level `selectivity`, `informativeness`
and `phi` (`pyphi/big_phi.py:370-382`) only delegate to the methods of the same names.

## Model

| member | source | states |
|---|---|---|
| Directions.FromName | pyphi/direction.py:29-31 | lookup by member name: the member with that name, else `KeyError` when no member has it |
| Directions.ToJson | pyphi/direction.py:26-27 | the JSON object has exactly the key `direction` |
| Directions.FromJson | pyphi/direction.py:29-31 | succeeds exactly when the key is present and names a member, and returns that member; otherwise `KeyError` |
| Directions.JsonRoundTrip | pyphi/direction.py:26-31 | `from_json(to_json(d)) == d` for all three members |
| Directions.JsonDecodeThenEncode | pyphi/direction.py:26-31 | re-encoding a decoded object gives back its `direction` entry |
| Directions.Order | pyphi/direction.py:33-47 | CAUSE gives `(purview, mechanism)`, EFFECT gives `(mechanism, purview)`, BIDIRECTIONAL is rejected by the validator |
| Directions.Flip | pyphi/direction.py:57-62 | the result is a temporal direction, and it is EFFECT exactly for CAUSE |
| Directions.Both | pyphi/direction.py:49-51 | two different directions, CAUSE first, neither BIDIRECTIONAL |
| Directions.All | pyphi/direction.py:53-55 | three members listed in the order of their integer values 0, 1, 2 |
| Directions.FlipInvolution | pyphi/direction.py:57-62 | on `both()`, `flip` is an involution without fixed points |
| Directions.FlipBidirectional | pyphi/direction.py:57-62 | BIDIRECTIONAL flips to CAUSE, like EFFECT |
| Directions.FlipSwapsOrder | pyphi/direction.py:33-62 | for a temporal direction, ordering with the flipped direction swaps the pair |
| Directions.Enumerations | pyphi/direction.py:14-55 | `both()` lists exactly CAUSE and EFFECT, `all()` adds BIDIRECTIONAL, and the values are 0, 1, 2 in order |
| Directions.ValuesDistinct | pyphi/direction.py:7-16 | distinct members have distinct values and names (`@unique`) |
| Structures.Flatten | pyphi/big_phi.py:91 | the flat structure's elements are exactly the causes and effects of the distinctions |
| Cuts.IsAffectedByCut | pyphi/big_phi.py:64-71 | the complete cut affects every distinction; the null cut affects none; a system cut affects a distinction iff its from-nodes meet the mechanism and its to-nodes meet the purview in the cut's direction |
| Cuts.OneSidedCutAffectsNothing | pyphi/big_phi.py:69-71 | a system cut with an empty side affects nothing |
| Cuts.UnaffectedDistinctions | pyphi/big_phi.py:74-81 | an order-preserving subsequence holding exactly the unaffected distinctions; under the complete cut an empty structure bound to the same subsystem; otherwise no subsystem |
| Cuts.UnaffectedDistinctionsCounts | pyphi/big_phi.py:74-81 | every occurrence of an unaffected distinction is kept and none of an affected one, so sums over the result are fixed |
| Cuts.NullCutKeepsDistinctions | pyphi/big_phi.py:79-81 | the null cut keeps every distinction, in order |
| Cuts.UnaffectedRelations | pyphi/big_phi.py:84-98 | an order-preserving subsequence holding exactly the relations whose relata all lie in the flattened structure; an empty structure keeps none |
| Cuts.UnaffectedRelationsCounts | pyphi/big_phi.py:84-98 | every occurrence of a supported relation is kept and none of another |
| Cuts.UnaffectedRelationsIdempotent | pyphi/big_phi.py:84-98 | filtering relations twice equals filtering once |
| Cuts.CompleteCutDestroysAll | pyphi/big_phi.py:74-98 | under the complete cut no distinction and no relation survives |
| Cuts.SiaPartitions | pyphi/big_phi.py:101-108 | twice as many cuts as bipartitions; bipartition i gives cut 2i with CAUSE and cut 2i+1 with EFFECT, on the same nodes |
| Cuts.SiaPartitionsDistinct | pyphi/big_phi.py:101-108 | distinct bipartitions give distinct cuts |
| Conflicts.MechanismToDistinction | pyphi/big_phi.py:495-497 | every input mechanism is a key; each key maps to an input distinction with that mechanism |
| Conflicts.LaterDistinctionWins | pyphi/big_phi.py:495-497 | a mechanism maps to its last distinction in the input |
| Conflicts.MechanismKeysInFirstOccurrenceOrder | pyphi/big_phi.py:495-497 | the keys are the input's mechanisms in order of first occurrence |
| Conflicts.Group | pyphi/big_phi.py:499-505 | the purview-to-mechanisms mapping is a well-formed ordered dictionary |
| Conflicts.GroupSelectsByPurview | pyphi/big_phi.py:499-505 | the purviews appear in order of first appearance, and each maps to exactly the mechanisms specifying it, in dictionary order |
| Conflicts.GroupByPurview | pyphi/big_phi.py:499-505 | the grouping loop builds the cause-side and effect-side groupings `Group` specifies |
| Conflicts.NonconflictingMiceSets | pyphi/big_phi.py:484-486 | one set per element of the product of the purview groups, in dictionary order; it has no contract of its own, and NonconflictingMiceSetsOnePerPurview and SingleNonconflictingMiceSet state what the sets are |
| Conflicts.NonconflictingMiceSetsOnePerPurview | pyphi/big_phi.py:484-486 | every combination is a set of mechanisms with one mechanism per purview |
| Conflicts.SingleNonconflictingMiceSet | pyphi/big_phi.py:484-486 | when no two mechanisms share a purview, the only combination is the set of all mechanisms |
| Conflicts.IntersectionMember | pyphi/big_phi.py:512-519 | each candidate is the intersection of a cause-side and an effect-side combination |
| Conflicts.IntersectionComplete | pyphi/big_phi.py:512-519 | every pair of a cause-side and an effect-side combination contributes its intersection as a candidate |
| Conflicts.SelectFacts | pyphi/big_phi.py:520-525 | the chosen keys are distinct and are exactly the chosen mechanisms present in the dictionary |
| Conflicts.NonconflictingDistinctionSets | pyphi/big_phi.py:490-525 | a flat structure is refused with the source's `ValueError`, and nothing else is |
| Conflicts.AllNonconflictingDistinctionSets | pyphi/big_phi.py:490-525 | the grouping loop and the products yield exactly the specified structures |
| Conflicts.NonconflictingSetsAreConflictFree | pyphi/big_phi.py:490-525 | each yielded structure is drawn from the input and bound to its subsystem, and no two of its distinctions share a mechanism, cause purview or effect purview |
| Conflicts.EveryChoicePairIsYielded | pyphi/big_phi.py:490-525 | the search is complete: for every cause-side and effect-side combination, the distinctions of the mechanisms in both are yielded |
| Conflicts.NonconflictingSetsDistinct | pyphi/big_phi.py:512-519 | no structure is yielded twice |
| Conflicts.WithoutConflictsAllAreYielded | pyphi/big_phi.py:490-525 | when no two mechanisms share a purview on either side, exactly one structure is yielded: every mechanism's distinction |
| Conflicts.ValuesCoverInput | pyphi/big_phi.py:495-497 | every input mechanism is represented in the dictionary's values |
| Conflicts.EmptyYieldsOneEmpty | pyphi/big_phi.py:490-525 | an empty structure yields one empty structure bound to the same subsystem |
| Reducibility.HasNonspecifiedElements | pyphi/big_phi.py:434-442 | true iff some node index is missing from the union of cause purviews or of effect purviews |
| Reducibility.EmptyStructureIsNonspecified | pyphi/big_phi.py:434-442 | a subsystem with nodes and no distinctions is always flagged |
| Reducibility.SpecifiedMonotone | pyphi/big_phi.py:434-442 | adding distinctions never makes an unflagged structure flagged |
| Reducibility.HasNoSpanningSpecification | pyphi/big_phi.py:445-453 | always false |
| Reducibility.IsTriviallyReducible | pyphi/big_phi.py:579-583 | true iff some check in the list fires, which is iff some node is unspecified |
| Reducibility.IsCongruent | pyphi/big_phi.py:466-468 | true iff the state is one of the (tied) specified states |
| Reducibility.FilterCes | pyphi/big_phi.py:471-481 | an order-preserving subsequence holding exactly the elements in the direction whose purview has a state they are congruent with; a purview without a state is skipped |
| Reducibility.FilterCesCounts | pyphi/big_phi.py:471-481 | every occurrence of a consistent element is kept and none of another |
| Reducibility.FilterCesSkipsUnknownPurviews | pyphi/big_phi.py:474-481 | when no purview has a state, nothing is kept |
| Reducibility.FilterCesIdempotent | pyphi/big_phi.py:471-481 | filtering twice equals filtering once |
| Reducibility.FilterCesDirectionsDisjoint | pyphi/big_phi.py:475 | no element is kept for both CAUSE and EFFECT |
| Extremum.FirstHit | pyphi/big_phi.py:540-547 | the first index whose value is the short-circuit value, or none iff no value is |
| Extremum.Scan | pyphi/big_phi.py:538-551 | the running extreme is `initial` with no item, or the value of the kept item |
| Extremum.ExtremeIndex | pyphi/big_phi.py:538-551 | the returned index, if any, is in range |
| Extremum.ExtremumWithShortCircuit | pyphi/big_phi.py:529-551 | returns the item at `ExtremeIndex` (none when there is none); the callback runs iff it exists and a short-circuit value was met |
| Extremum.ShortCircuitWins | pyphi/big_phi.py:540-547 | with a short-circuit value present, the result is the first item having it |
| Extremum.ScanNoneIff | pyphi/big_phi.py:538-551 | without a short circuit the result is none iff no item beats `initial` (so always for an empty input) |
| Extremum.ScanIsEarliestBest | pyphi/big_phi.py:548-551 | under a strict total order, the kept item beats `initial`, no item beats it, and it beats every earlier item |
| Extremum.ExtremeIndexWithoutShortCircuit | pyphi/big_phi.py:538-551 | without a short-circuit value: none iff nothing beats `initial`, else the earliest least item |
| PhiStructures.InformativenessBounds | pyphi/big_phi.py:355-364 | with non-negative small phi, informativeness lies between 0 and the structure's total small phi |
| PhiStructures.CompleteCutInformativeness | pyphi/big_phi.py:230-237 | under the complete cut, informativeness is the total small phi of distinctions and relations |
| PhiStructures.NullCutPhiIsZero | pyphi/big_phi.py:564-576 | the null cut has informativeness and big phi zero, matching the phi the null analysis reports |
| PhiStructures.SelectivityNonnegative | pyphi/big_phi.py:212-217 | selectivity is non-negative when every small phi is |
| PhiStructures.SelectivityPermutationInvariant | pyphi/big_phi.py:212-217 | selectivity is the same for any reordering of the distinctions and of the relations |
| PhiStructures.PhiNonnegative | pyphi/big_phi.py:366-367 | big phi is non-negative when every small phi is |
| PhiStructures.NewPhiStructure | pyphi/big_phi.py:163-178 | a non-structure raises `ValueError`; a non-empty structure without subsystem raises `TypeError`; otherwise a valid structure with unflattened distinctions, empty memos and a substrate size only when there are distinctions |
| PhiStructures.PhiStructure.constructor | pyphi/big_phi.py:163-178 | unflattens, stores the relations and flag, starts every memo empty, sets the substrate size only for a non-empty structure |
| PhiStructures.PhiStructure.FilterRelations | pyphi/big_phi.py:193-199 | relations become the supported ones and the flag clears; memos stay valid; nothing else changes |
| PhiStructures.PhiStructure.Realize | pyphi/big_phi.py:146-160 | filters exactly when the flag is set; after it the flag is clear |
| PhiStructures.PhiStructure.SumPhiDistinctions | pyphi/big_phi.py:201-204 | the sum of the distinctions' small phi, memoised; a filled memo is returned unchanged |
| PhiStructures.PhiStructure.SumPhiRelations | pyphi/big_phi.py:206-210 | realizes, then the sum of the relations' small phi, memoised |
| PhiStructures.PhiStructure.Selectivity | pyphi/big_phi.py:212-217 | total small phi over the normalisation for the substrate size, memoised; `AttributeError` iff no substrate size; unless selectivity was memoised, both sums are memoised afterwards, and filled sum memos keep their values |
| PhiStructures.PhiStructure.SystemIntrinsicInformation | pyphi/big_phi.py:230-237 | big phi under the complete cut, memoised; `AttributeError` iff no substrate size; the sum and selectivity memos of the structure itself are unchanged |
| PhiStructures.PhiStructure.LiftMemos | pyphi/big_phi.py:283-295 | takes over the system intrinsic information, substrate size, both sums and selectivity of a structure over the same distinctions and relations, and stays valid |
| PhiStructures.PartitionedPhiStructure.constructor | pyphi/big_phi.py:271-300 | realizes the parent; the inherited part has the parent's distinctions, filtered relations and lifted memos and substrate size (none when the parent has none); partitioned memos start empty |
| PhiStructures.Partition | pyphi/big_phi.py:226-228 | realizes the parent; `AttributeError` iff the parent has no substrate size (the `getattr` at 291-295); otherwise a fresh valid partition by the cut over the parent's distinctions, relations and substrate size; the parent's memos are unchanged |
| PhiStructures.PartitionedPhiStructure.PartitionedDistinctions | pyphi/big_phi.py:321-326 | the distinctions the cut leaves, cached |
| PhiStructures.PartitionedPhiStructure.PartitionedRelations | pyphi/big_phi.py:328-334 | the relations the partitioned distinctions support, cached |
| PhiStructures.PartitionedPhiStructure.SumPhiPartitionedDistinctions | pyphi/big_phi.py:336-341 | the partitioned distinctions' small phi sum, memoised |
| PhiStructures.PartitionedPhiStructure.SumPhiPartitionedRelations | pyphi/big_phi.py:343-352 | the partitioned relations' small phi sum, memoised; computing it resets both partitioned caches to none |
| PhiStructures.PartitionedPhiStructure.Informativeness | pyphi/big_phi.py:355-364 | (distinction sum − partitioned) + (relation sum − partitioned), memoised; the inherited distinctions and relations are unchanged |
| PhiStructures.PartitionedPhiStructure.Phi | pyphi/big_phi.py:366-367 | selectivity times informativeness; `AttributeError` iff no substrate size |
| PhiStructures.EvaluateCut | pyphi/big_phi.py:421-431 | an analysis of the given subsystem and cut with the structure's selectivity, the cut's informativeness and their product as phi; `AttributeError` iff no substrate size |
| PhiStructures.NullSia | pyphi/big_phi.py:564-576 | a cut subsystem raises `ValueError` and changes nothing; otherwise `AttributeError` iff the structure has no substrate size, else an analysis under the null cut with phi zero and no selectivity or informativeness |
| PhiStructures.NullSiaCorrected | pyphi/big_phi.py:564-576 | the intended null analysis: `ValueError` for a cut subsystem, otherwise always an analysis under the null cut with phi zero |
| PhiStructures.ExtLessIsStrictTotalOrder | pyphi/big_phi.py:532-533 | `operator.lt` over phi values and `float("inf")` meets the order requirement |
| PhiStructures.CutSearchEndsOnACut | pyphi/big_phi.py:554-561 | the cut search over a non-empty cut list always returns a cut |
| PhiStructures.CutSearchFindsMinimum | pyphi/big_phi.py:554-561 | with non-negative small phi, the returned cut has the least phi of all cuts |
| PhiStructures.EvaluateCuts | pyphi/big_phi.py:554-561 | on a realized structure: none for no cuts, `AttributeError` iff there are cuts and no substrate size, otherwise the analysis of the first cut of least phi (a phi-zero cut ends the search), with the structure and that cut's selectivity, informativeness and phi; no callback |
| PhiStructures.EvaluatePhiStructure | pyphi/big_phi.py:592-622 | realizes; when checked and trivially reducible, the null analysis as written (`ValueError` for a cut subsystem, `AttributeError` without a substrate size, else phi zero); otherwise the search over the cuts `sia_partitions` builds from the bipartitions, as for `EvaluateCuts` |
| PhiStructures.EvaluatePhiStructureCorrected | pyphi/big_phi.py:592-622 | the same, except that a trivially reducible system under the null cut always gets the null analysis with phi zero |
| PhiStructures.EmptyStructureNullSiaFails | pyphi/big_phi.py:564-603 | on a two-node null-cut subsystem without distinctions, `evaluate_phi_structure` as written fails with `AttributeError`, and the corrected one reports phi zero |
| PhiStructures.KeyLessIsStrictTotalOrder | pyphi/big_phi.py:398-399 | comparing `[phi, len(subsystem), node_indices]` lexicographically is a strict total order |
| PhiStructures.OrderBy | pyphi/big_phi.py:398-399 | the key `[phi, len(subsystem), node_indices]`; it has no contract of its own, and KeyLessIsStrictTotalOrder and OrderByPhiFirst state how keys compare |
| PhiStructures.OrderByPhiFirst | pyphi/big_phi.py:398-399 | a smaller phi always orders first |

## Left out

- Ray distribution (`ray.remote`, `ray.put`, `ray.get`, `ray.cancel`, `as_completed`): concurrency and plumbing.
  - `PhiStructures.EvaluatePhiStructure` runs the cut search as one sequential pass over the cut list. It is not split into chunks and has no order of completion. The source's nested minimum may therefore pick a different cut of equal phi.
  - The shortcircuit callback only cancels tasks; it is modelled as the `calledBack` flag.
- The `ray.ObjectRef` and generator branches of `_requires_relations`: relations are always a realized sequence here.
- `sia` and `find_maximal_compositional_state`: Ray tasks, `config.IIT_VERSION`, `tqdm` and `print`, and the `max` over analyses.
- `directionless_sia_bipartitions`, `Cut`, `CauseEffectStructure`, `FlatCauseEffectStructure`, `Relations`, `Subsystem`, `cmp.Orderable` and `validate.direction` are not part of this model.
  - Cuts are built from given bipartitions.
  - A subsystem is its node indices and whether its cut is null.
  - `NullCut` stands for a subsystem's null cut, which affects no distinction.
- `BigPhiCut.__repr__`/`to_json`/`from_json`, and the pickle and JSON persistence of structures: file I/O and serialisers.
- Normalisation constants (`pyphi/big_phi.py:111-143`): floating point and `scipy`. `optimum_sum_small_phi` is a positive `nat -> real` parameter.
- Floating point in general: phi values are exact reals. `utils.eq` tolerance in the two `__bool__` methods is not modelled.
- `PhiStructure.order_by`, `PartitionedPhiStructure.order_by` and the `__eq__` methods: the comparison protocol lives in `cmp.Orderable`. The values compared are `SystemIntrinsicInformation` and `Phi`.
- `SystemIrreducibilityAnalysis.__hash__`: it reads attributes the record does not have.
- `pyphi/node.py`, `conftest.py`, the tests and `pyphi/compute/__init__.py`: outside the analysis core.
- Iteration order of the `frozenset`s in `all_nonconflicting_distinction_sets`: Python uses hash order. The model lists each yielded structure's distinctions in the dictionary's insertion order.
- `PhiStructures.PhiStructure.constructor`: requires relations supported by the distinctions when `requires_filter` is false. The source does not check this. It is what the flag means, and `sia` relies on it. Without it, a later explicit `filter_relations` could leave the relation-sum memo stale.
- `PhiStructures.NewPhiStructure`: has the same requirement as the constructor, relations supported by the distinctions when `requires_filter` is false, for the same reason.
- `PhiStructures.PartitionedPhiStructure.constructor`: passes on a missing substrate size instead of raising. The `AttributeError` the source raises at that point is modelled by `Partition`, which checks before it constructs. The corrected null analysis uses the constructor directly.
- `Reducibility.IsTriviallyReducible`: takes the structure's distinctions rather than the structure, which is all it reads.

## Findings

| source | as written | input that shows it | evidently intended | confidence | as-written member | corrected member |
|---|---|---|---|---|---|---|
| pyphi/big_phi.py:284-295 | `PartitionedPhiStructure.__init__` lifts `_substrate_size` with `getattr`. `PhiStructure.__init__` sets that attribute only for a non-empty structure (175-177). So partitioning a structure without distinctions raises `AttributeError`. That includes `_null_sia` (564-576). The trivial-reducibility check sends every such structure there when the subsystem has nodes. | subsystem with nodes `[0, 1]` and a null cut; empty cause-effect structure bound to it | the null analysis with phi 0 | not executed | PhiStructures.Partition, PhiStructures.NullSia, PhiStructures.EvaluatePhiStructure, PhiStructures.EmptyStructureNullSiaFails | PhiStructures.NullSiaCorrected, PhiStructures.EvaluatePhiStructureCorrected |
