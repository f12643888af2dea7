/**
 * `all_nonconflicting_distinction_sets`: every way of keeping, for each purview, a single
 * mechanism that specifies it, on the cause side and on the effect side at once.
 */
module Conflicts {
  import opened Wrappers
  import opened Directions
  import opened Seqs
  import opened Structures

  /** `frozenset(distinction.mechanism)`, the key distinctions are stored under. */
  type Mechanism = set<nat>

  function MechanismOf(d: Distinction): Mechanism
  {
    ToSet(d.mechanism)
  }

  /**
   * A Python dictionary: its keys in insertion order and its key-to-value map. Assigning
   * to an existing key replaces the value and keeps the key's place.
   */
  datatype OrderedDict<K(==,!new), V> = OrderedDict(keys: seq<K>, items: map<K, V>)
  {
    ghost predicate Valid()
    {
      Distinct(keys) && forall k :: k in items <==> k in keys
    }
  }

  /** `d[k] = v` */
  function Put<K(==,!new), V>(d: OrderedDict<K, V>, k: K, v: V): (r: OrderedDict<K, V>)
    requires d.Valid()
    ensures r.Valid()
    ensures k in r.items && r.items[k] == v
  {
    if k in d.items then OrderedDict(d.keys, d.items[k := v])
    else OrderedDict(d.keys + [k], d.items[k := v])
  }

  /**
   * `mechanism_to_distinction`: every distinction stored under its mechanism, in order, so
   * that a later distinction with the same mechanism replaces an earlier one.
   */
  function MechanismToDistinction(ds: seq<Distinction>): (r: OrderedDict<Mechanism, Distinction>)
    ensures r.Valid()
    ensures forall k :: k in r.items ==> MechanismOf(r.items[k]) == k && r.items[k] in ds
    ensures forall d :: d in ds ==> MechanismOf(d) in r.items
  {
    if ds == [] then OrderedDict([], map[])
    else
      var last := ds[|ds| - 1];
      assert forall d :: d in ds <==> d in ds[..|ds| - 1] || d == last;
      Put(MechanismToDistinction(ds[..|ds| - 1]), MechanismOf(last), last)
  }

  /** The distinction kept under a mechanism is the last one in the input with that mechanism. */
  lemma {:induction false} LaterDistinctionWins(ds: seq<Distinction>, j: nat)
    requires j < |ds|
    requires forall i :: j < i < |ds| ==> MechanismOf(ds[i]) != MechanismOf(ds[j])
    ensures MechanismToDistinction(ds).items[MechanismOf(ds[j])] == ds[j]
  {
    var prefix := ds[..|ds| - 1];
    if j < |ds| - 1 {
      assert forall i :: j < i < |prefix| ==> prefix[i] == ds[i];
      LaterDistinctionWins(prefix, j);
      assert prefix[j] == ds[j];
    }
  }

  /** The input's mechanisms, in order. */
  function Mechanisms(ds: seq<Distinction>): (r: seq<Mechanism>)
    ensures |r| == |ds|
  {
    if ds == [] then [] else Mechanisms(ds[..|ds| - 1]) + [MechanismOf(ds[|ds| - 1])]
  }

  /** The dictionary's keys are the input's mechanisms in the order they first occur. */
  lemma {:induction false} MechanismKeysInFirstOccurrenceOrder(ds: seq<Distinction>)
    ensures MechanismToDistinction(ds).keys == Unique(Mechanisms(ds))
  {
    if ds != [] {
      var prefix := ds[..|ds| - 1];
      MechanismKeysInFirstOccurrenceOrder(prefix);
      var ms := Mechanisms(ds);
      assert ms[..|ms| - 1] == Mechanisms(prefix);
      assert ms[|ms| - 1] == MechanismOf(ds[|ds| - 1]);
    }
  }

  /** A `defaultdict(list)` from purviews to the mechanisms that specify them. */
  type PurviewGroups = OrderedDict<Nodes, seq<Mechanism>>

  /** `mapping[purview].append(mechanism)`: a missing purview starts an empty list first. */
  function Append(g: PurviewGroups, p: Nodes, m: Mechanism): (r: PurviewGroups)
    requires g.Valid()
    ensures r.Valid()
  {
    if p in g.items then OrderedDict(g.keys, g.items[p := g.items[p] + [m]])
    else OrderedDict(g.keys + [p], g.items[p := [m]])
  }

  /** The mechanisms of `m2d` that specify purview `p` in direction `dir`. */
  function SpecifiesPurview(m2d: map<Mechanism, Distinction>, dir: TemporalDirection, p: Nodes): Mechanism -> bool
  {
    k => k in m2d && m2d[k].Purview(dir) == p
  }

  /** The purviews of the mechanisms `keys`, looked up in `m2d`, in direction `dir`. */
  function PurviewsOf(keys: seq<Mechanism>, m2d: map<Mechanism, Distinction>, dir: TemporalDirection): (r: seq<Nodes>)
    requires forall k :: k in keys ==> k in m2d
  {
    seq(|keys|, i requires 0 <= i < |keys| => m2d[keys[i]].Purview(dir))
  }

  /** The grouping `purview_to_mechanism[dir]` after the mechanisms `keys` were appended in order. */
  function Group(keys: seq<Mechanism>, m2d: map<Mechanism, Distinction>, dir: TemporalDirection): (r: PurviewGroups)
    requires forall k :: k in keys ==> k in m2d
    ensures r.Valid()
  {
    if keys == [] then OrderedDict([], map[])
    else
      var k := keys[|keys| - 1];
      Append(Group(keys[..|keys| - 1], m2d, dir), m2d[k].Purview(dir), k)
  }

  /**
   * The grouping is a `group by`: its keys are the purviews in order of first appearance,
   * and the list under each purview is the mechanisms specifying it, in order.
   */
  lemma {:induction false} GroupSelectsByPurview(keys: seq<Mechanism>, m2d: map<Mechanism, Distinction>,
                                                 dir: TemporalDirection)
    requires forall k :: k in keys ==> k in m2d
    ensures Group(keys, m2d, dir).keys == Unique(PurviewsOf(keys, m2d, dir))
    ensures forall p :: p in Group(keys, m2d, dir).items ==>
      Group(keys, m2d, dir).items[p] == Filter(keys, SpecifiesPurview(m2d, dir, p))
  {
    if keys != [] {
      var prefix := keys[..|keys| - 1];
      GroupSelectsByPurview(prefix, m2d, dir);
      assert PurviewsOf(keys, m2d, dir)[..|keys| - 1] == PurviewsOf(prefix, m2d, dir);
      assert keys == prefix + [keys[|keys| - 1]];
      forall p | p in Group(keys, m2d, dir).items
        ensures Group(keys, m2d, dir).items[p] == Filter(keys, SpecifiesPurview(m2d, dir, p))
      {
        GroupStep(prefix, keys[|keys| - 1], m2d, dir, p);
      }
    }
  }

  /** One step of the grouping: the list under `p` after key `k`, from the one before it. */
  lemma GroupStep(prefix: seq<Mechanism>, k: Mechanism, m2d: map<Mechanism, Distinction>,
                  dir: TemporalDirection, p: Nodes)
    requires k in m2d && forall k' :: k' in prefix ==> k' in m2d
    requires Group(prefix, m2d, dir).keys == Unique(PurviewsOf(prefix, m2d, dir))
    requires p in Group(prefix, m2d, dir).items ==>
      Group(prefix, m2d, dir).items[p] == Filter(prefix, SpecifiesPurview(m2d, dir, p))
    requires p in Group(prefix + [k], m2d, dir).items
    ensures Group(prefix + [k], m2d, dir).items[p] == Filter(prefix + [k], SpecifiesPurview(m2d, dir, p))
  {
    var pk := m2d[k].Purview(dir);
    var prior := Group(prefix, m2d, dir);
    var specifies := SpecifiesPurview(m2d, dir, p);
    assert (prefix + [k])[..|prefix|] == prefix;
    assert Group(prefix + [k], m2d, dir) == Append(prior, pk, k);
    FilterSnoc(prefix, k, specifies);
    if p != pk {
      assert !specifies(k);
      assert p in prior.items;
    } else if pk in prior.items {
      assert specifies(k);
    } else {
      assert specifies(k);
      UngroupedPurviewUnspecified(prefix, m2d, dir, p);
    }
  }

  /** A purview that none of `keys` has is specified by none of them. */
  lemma UngroupedPurviewUnspecified(keys: seq<Mechanism>, m2d: map<Mechanism, Distinction>,
                                    dir: TemporalDirection, p: Nodes)
    requires forall k :: k in keys ==> k in m2d
    requires p !in Unique(PurviewsOf(keys, m2d, dir))
    ensures Filter(keys, SpecifiesPurview(m2d, dir, p)) == []
  {
    forall y | y in keys
      ensures !SpecifiesPurview(m2d, dir, p)(y)
    {
      var i :| 0 <= i < |keys| && keys[i] == y;
      assert PurviewsOf(keys, m2d, dir)[i] == m2d[y].Purview(dir);
    }
    FilterKeepsNone(keys, SpecifiesPurview(m2d, dir, p));
  }

  /** Appending the next key of the dictionary extends the grouping by one step. */
  lemma GroupSnoc(m2d: OrderedDict<Mechanism, Distinction>, dir: TemporalDirection, i: nat)
    requires m2d.Valid() && i < |m2d.keys|
    ensures forall k :: k in m2d.keys[..i] ==> k in m2d.items
    ensures Group(m2d.keys[..i + 1], m2d.items, dir)
         == Append(Group(m2d.keys[..i], m2d.items, dir), m2d.items[m2d.keys[i]].Purview(dir), m2d.keys[i])
  {
    assert m2d.keys[..i + 1][..i] == m2d.keys[..i];
  }

  /**
   * `for mechanism, distinction in mechanism_to_distinction.items()`: appends every
   * mechanism, in the dictionary's order, under its cause purview and under its effect purview.
   */
  method GroupByPurview(m2d: OrderedDict<Mechanism, Distinction>)
    returns (causes: PurviewGroups, effects: PurviewGroups)
    requires m2d.Valid()
    ensures causes == Group(m2d.keys, m2d.items, CAUSE)
    ensures effects == Group(m2d.keys, m2d.items, EFFECT)
  {
    causes, effects := OrderedDict([], map[]), OrderedDict([], map[]);
    for i := 0 to |m2d.keys|
      invariant causes == Group(m2d.keys[..i], m2d.items, CAUSE)
      invariant effects == Group(m2d.keys[..i], m2d.items, EFFECT)
    {
      var mechanism := m2d.keys[i];
      var distinction := m2d.items[mechanism];
      GroupSnoc(m2d, CAUSE, i);
      GroupSnoc(m2d, EFFECT, i);
      causes := Append(causes, distinction.Purview(CAUSE), mechanism);
      effects := Append(effects, distinction.Purview(EFFECT), mechanism);
    }
    assert m2d.keys[..|m2d.keys|] == m2d.keys;
  }

  /** `purview_to_mice.values()` */
  function GroupLists(g: PurviewGroups): seq<seq<Mechanism>>
    requires g.Valid()
  {
    seq(|g.keys|, i requires 0 <= i < |g.keys| => g.items[g.keys[i]])
  }

  /** `_nonconflicting_mice_set`: each choice of one mechanism per purview, as a set. */
  function NonconflictingMiceSets(g: PurviewGroups): seq<set<Mechanism>>
    requires g.Valid()
  {
    var choices := Product(GroupLists(g));
    seq(|choices|, i requires 0 <= i < |choices| => ToSet(choices[i]))
  }

  /** The mechanisms of `c` are keys of `m2d`. */
  ghost predicate WithinKeys(c: set<Mechanism>, m2d: map<Mechanism, Distinction>)
  {
    forall k :: k in c ==> k in m2d
  }

  /** No two mechanisms of `c` specify the same purview in direction `dir`. */
  ghost predicate NoSharedPurview(c: set<Mechanism>, m2d: map<Mechanism, Distinction>, dir: TemporalDirection)
    requires WithinKeys(c, m2d)
  {
    forall k1, k2 :: k1 in c && k2 in c && k1 != k2 ==> m2d[k1].Purview(dir) != m2d[k2].Purview(dir)
  }

  /** Every purview of `m2d` in direction `dir` is specified by some mechanism of `c`. */
  ghost predicate CoversPurviews(c: set<Mechanism>, m2d: map<Mechanism, Distinction>, dir: TemporalDirection)
    requires WithinKeys(c, m2d)
  {
    forall k :: k in m2d ==> exists k' :: k' in c && m2d[k'].Purview(dir) == m2d[k].Purview(dir)
  }

  /** `c` maps every purview of `m2d` in direction `dir` to a single mechanism. */
  ghost predicate OnePerPurview(c: set<Mechanism>, m2d: map<Mechanism, Distinction>, dir: TemporalDirection)
  {
    WithinKeys(c, m2d) && NoSharedPurview(c, m2d, dir) && CoversPurviews(c, m2d, dir)
  }

  /** The mechanism a combination picks at position `i` specifies the `i`-th purview of the grouping. */
  lemma PickedSpecifiesPurview(m2d: OrderedDict<Mechanism, Distinction>, dir: TemporalDirection, t: seq<Mechanism>)
    requires m2d.Valid()
    requires t in Product(GroupLists(Group(m2d.keys, m2d.items, dir)))
    ensures |t| == |Group(m2d.keys, m2d.items, dir).keys|
    ensures forall i :: 0 <= i < |t| ==>
      t[i] in m2d.items && m2d.items[t[i]].Purview(dir) == Group(m2d.keys, m2d.items, dir).keys[i]
  {
    var g := Group(m2d.keys, m2d.items, dir);
    GroupSelectsByPurview(m2d.keys, m2d.items, dir);
    forall i | 0 <= i < |t|
      ensures t[i] in m2d.items && m2d.items[t[i]].Purview(dir) == g.keys[i]
    {
      assert t[i] in GroupLists(g)[i];
      assert g.keys[i] in g.items;
      assert t[i] in Filter(m2d.keys, SpecifiesPurview(m2d.items, dir, g.keys[i]));
    }
  }

  /** Every purview of the dictionary in direction `dir` is a key of the grouping. */
  lemma PurviewIsGrouped(m2d: OrderedDict<Mechanism, Distinction>, dir: TemporalDirection, k: Mechanism)
    requires m2d.Valid() && k in m2d.items
    ensures m2d.items[k].Purview(dir) in Group(m2d.keys, m2d.items, dir).keys
  {
    GroupSelectsByPurview(m2d.keys, m2d.items, dir);
    var i :| 0 <= i < |m2d.keys| && m2d.keys[i] == k;
    assert PurviewsOf(m2d.keys, m2d.items, dir)[i] == m2d.items[k].Purview(dir);
  }

  /** Distinct mechanisms of one combination specify distinct purviews. */
  lemma ChoiceNoSharedPurview(m2d: OrderedDict<Mechanism, Distinction>, dir: TemporalDirection,
                              t: seq<Mechanism>, k1: Mechanism, k2: Mechanism)
    requires m2d.Valid()
    requires t in Product(GroupLists(Group(m2d.keys, m2d.items, dir)))
    requires k1 in t && k2 in t && k1 != k2
    ensures k1 in m2d.items && k2 in m2d.items
    ensures m2d.items[k1].Purview(dir) != m2d.items[k2].Purview(dir)
  {
    var g := Group(m2d.keys, m2d.items, dir);
    PickedSpecifiesPurview(m2d, dir, t);
    var i :| 0 <= i < |t| && t[i] == k1;
    var j :| 0 <= j < |t| && t[j] == k2;
    assert g.keys[i] != g.keys[j];
  }

  /** Every purview is specified by a mechanism of each combination. */
  lemma ChoiceCoversPurview(m2d: OrderedDict<Mechanism, Distinction>, dir: TemporalDirection,
                            t: seq<Mechanism>, k: Mechanism)
    requires m2d.Valid() && k in m2d.items
    requires t in Product(GroupLists(Group(m2d.keys, m2d.items, dir)))
    ensures exists k' :: k' in t && k' in m2d.items && m2d.items[k'].Purview(dir) == m2d.items[k].Purview(dir)
  {
    var g := Group(m2d.keys, m2d.items, dir);
    PickedSpecifiesPurview(m2d, dir, t);
    PurviewIsGrouped(m2d, dir, k);
    var j :| 0 <= j < |g.keys| && g.keys[j] == m2d.items[k].Purview(dir);
    assert t[j] in t;
  }

  /** A single combination of the product picks one mechanism per purview. */
  lemma ChoiceOnePerPurview(m2d: OrderedDict<Mechanism, Distinction>, dir: TemporalDirection, t: seq<Mechanism>)
    requires m2d.Valid()
    requires t in Product(GroupLists(Group(m2d.keys, m2d.items, dir)))
    ensures OnePerPurview(ToSet(t), m2d.items, dir)
  {
    var c := ToSet(t);
    PickedSpecifiesPurview(m2d, dir, t);
    assert WithinKeys(c, m2d.items);
    forall k1, k2 | k1 in c && k2 in c && k1 != k2
      ensures m2d.items[k1].Purview(dir) != m2d.items[k2].Purview(dir)
    {
      ChoiceNoSharedPurview(m2d, dir, t, k1, k2);
    }
    forall k | k in m2d.items
      ensures exists k' :: k' in c && m2d.items[k'].Purview(dir) == m2d.items[k].Purview(dir)
    {
      ChoiceCoversPurview(m2d, dir, t, k);
    }
  }

  /** Every combination `_nonconflicting_mice_set` yields maps each purview to a single mechanism. */
  lemma NonconflictingMiceSetsOnePerPurview(m2d: OrderedDict<Mechanism, Distinction>, dir: TemporalDirection,
                                            c: set<Mechanism>)
    requires m2d.Valid()
    requires c in NonconflictingMiceSets(Group(m2d.keys, m2d.items, dir))
    ensures OnePerPurview(c, m2d.items, dir)
  {
    var choices := Product(GroupLists(Group(m2d.keys, m2d.items, dir)));
    var n :| 0 <= n < |choices| && ToSet(choices[n]) == c;
    assert choices[n] in choices;
    ChoiceOnePerPurview(m2d, dir, choices[n]);
  }

  /** `cause_mechanisms & effect_mechanisms` for each pair, cause side outermost. */
  function Intersections(causes: seq<set<Mechanism>>, effects: seq<set<Mechanism>>): seq<set<Mechanism>>
  {
    if causes == [] then []
    else
      seq(|effects|, j requires 0 <= j < |effects| => causes[0] * effects[j])
        + Intersections(causes[1..], effects)
  }

  /** Each intersection meets one cause-side set and one effect-side set. */
  lemma {:induction false} IntersectionMember(causes: seq<set<Mechanism>>, effects: seq<set<Mechanism>>,
                                              s: set<Mechanism>)
    requires s in Intersections(causes, effects)
    ensures exists c, e :: c in causes && e in effects && s == c * e
  {
    var front := seq(|effects|, j requires 0 <= j < |effects| => causes[0] * effects[j]);
    if s in front {
      var j :| 0 <= j < |effects| && front[j] == s;
      assert causes[0] in causes && effects[j] in effects;
    } else {
      IntersectionMember(causes[1..], effects, s);
      var c, e :| c in causes[1..] && e in effects && s == c * e;
      assert c in causes;
    }
  }

  /** Every pair of a cause-side set and an effect-side set contributes its intersection. */
  lemma {:induction false} IntersectionComplete(causes: seq<set<Mechanism>>, effects: seq<set<Mechanism>>,
                                                c: set<Mechanism>, e: set<Mechanism>)
    requires c in causes && e in effects
    ensures c * e in Intersections(causes, effects)
  {
    var front := seq(|effects|, j requires 0 <= j < |effects| => causes[0] * effects[j]);
    assert Intersections(causes, effects) == front + Intersections(causes[1..], effects);
    if causes[0] == c {
      var j :| 0 <= j < |effects| && effects[j] == e;
      assert front[j] == c * e;
    } else {
      IntersectionComplete(causes[1..], effects, c, e);
    }
  }

  /** Membership in `s`, as a test. */
  function InSet(s: set<Mechanism>): Mechanism -> bool
  {
    k => k in s
  }

  /** The dictionary's keys that are in `chosen`, in the dictionary's order. */
  function Chosen(m2d: OrderedDict<Mechanism, Distinction>, chosen: set<Mechanism>): seq<Mechanism>
  {
    Filter(m2d.keys, InSet(chosen))
  }

  /** `map(mechanism_to_distinction.get, mechanisms)`, listed in the dictionary's order. */
  function Select(m2d: OrderedDict<Mechanism, Distinction>, chosen: set<Mechanism>): (r: seq<Distinction>)
    requires m2d.Valid()
  {
    var ks := Chosen(m2d, chosen);
    seq(|ks|, i requires 0 <= i < |ks| => m2d.items[ks[i]])
  }

  lemma SelectFacts(m2d: OrderedDict<Mechanism, Distinction>, chosen: set<Mechanism>)
    requires m2d.Valid()
    ensures Distinct(Chosen(m2d, chosen))
    ensures forall k :: k in Chosen(m2d, chosen) <==> k in chosen && k in m2d.items
    ensures |Select(m2d, chosen)| == |Chosen(m2d, chosen)|
    ensures forall i :: 0 <= i < |Chosen(m2d, chosen)| ==>
      Chosen(m2d, chosen)[i] in m2d.items && Select(m2d, chosen)[i] == m2d.items[Chosen(m2d, chosen)[i]]
  {
    FilterDistinct(m2d.keys, InSet(chosen));
    var ks := Chosen(m2d, chosen);
    assert forall i :: 0 <= i < |ks| ==> ks[i] in ks;
  }

  /**
   * The specification of `all_nonconflicting_distinction_sets`: a flat structure is refused;
   * otherwise one structure per distinct intersection of a cause-side and an effect-side
   * choice, each bound to the input's subsystem.
   */
  function NonconflictingDistinctionSets(ces: Ces): (r: Result<seq<Ces>>)
    ensures r.Err? <==> ces.flat
    ensures r.Err? ==> r.error == ValueError("Expected CauseEffectStructure; got FlatCauseEffectStructure")
  {
    if ces.flat then Err(ValueError("Expected CauseEffectStructure; got FlatCauseEffectStructure"))
    else
      var m2d := MechanismToDistinction(ces.distinctions);
      var chosen := Unique(Intersections(
        NonconflictingMiceSets(Group(m2d.keys, m2d.items, CAUSE)),
        NonconflictingMiceSets(Group(m2d.keys, m2d.items, EFFECT))));
      Ok(seq(|chosen|, i requires 0 <= i < |chosen| => Ces(Select(m2d, chosen[i]), ces.subsystem, false)))
  }

  /** `all_nonconflicting_distinction_sets`, with the grouping loop of the source. */
  method AllNonconflictingDistinctionSets(ces: Ces) returns (r: Result<seq<Ces>>)
    ensures r == NonconflictingDistinctionSets(ces)
  {
    if ces.flat {
      return Err(ValueError("Expected CauseEffectStructure; got FlatCauseEffectStructure"));
    }
    var m2d := MechanismToDistinction(ces.distinctions);
    var causeGroups, effectGroups := GroupByPurview(m2d);
    var chosen := Unique(Intersections(NonconflictingMiceSets(causeGroups), NonconflictingMiceSets(effectGroups)));
    r := Ok(seq(|chosen|, i requires 0 <= i < |chosen| => Ces(Select(m2d, chosen[i]), ces.subsystem, false)));
  }

  /**
   * No two distinctions share a mechanism, a cause purview or an effect purview.
   */
  ghost predicate ConflictFree(ds: seq<Distinction>)
  {
    forall i, j :: 0 <= i < |ds| && 0 <= j < |ds| && i != j ==>
      && MechanismOf(ds[i]) != MechanismOf(ds[j])
      && ds[i].cause.purview != ds[j].cause.purview
      && ds[i].effect.purview != ds[j].effect.purview
  }

  /** Every value of the dictionary is stored under its own mechanism. */
  ghost predicate KeyedByMechanism(m2d: OrderedDict<Mechanism, Distinction>)
  {
    m2d.Valid() && forall k :: k in m2d.items ==> MechanismOf(m2d.items[k]) == k
  }

  /** Two positions of a selection by a set that is one-per-purview on both sides never conflict. */
  lemma SelectPairNoConflict(m2d: OrderedDict<Mechanism, Distinction>, c: set<Mechanism>, e: set<Mechanism>,
                             i: nat, j: nat)
    requires KeyedByMechanism(m2d)
    requires WithinKeys(c, m2d.items) && NoSharedPurview(c, m2d.items, CAUSE)
    requires WithinKeys(e, m2d.items) && NoSharedPurview(e, m2d.items, EFFECT)
    requires i < |Select(m2d, c * e)| && j < |Select(m2d, c * e)| && i != j
    ensures MechanismOf(Select(m2d, c * e)[i]) != MechanismOf(Select(m2d, c * e)[j])
    ensures Select(m2d, c * e)[i].cause.purview != Select(m2d, c * e)[j].cause.purview
    ensures Select(m2d, c * e)[i].effect.purview != Select(m2d, c * e)[j].effect.purview
  {
    var ks := Chosen(m2d, c * e);
    SelectFacts(m2d, c * e);
    var a, b := ks[i], ks[j];
    assert a in ks && b in ks;
    assert a != b;
    assert a in c && b in c && a in e && b in e;
    assert m2d.items[a].Purview(CAUSE) != m2d.items[b].Purview(CAUSE);
    assert m2d.items[a].Purview(EFFECT) != m2d.items[b].Purview(EFFECT);
  }

  /** The distinctions selected by a set that is one-per-purview on both sides are conflict-free. */
  lemma SelectConflictFree(m2d: OrderedDict<Mechanism, Distinction>, c: set<Mechanism>, e: set<Mechanism>)
    requires KeyedByMechanism(m2d)
    requires OnePerPurview(c, m2d.items, CAUSE) && OnePerPurview(e, m2d.items, EFFECT)
    ensures ConflictFree(Select(m2d, c * e))
  {
    var ds := Select(m2d, c * e);
    forall i, j | 0 <= i < |ds| && 0 <= j < |ds| && i != j
      ensures MechanismOf(ds[i]) != MechanismOf(ds[j])
      ensures ds[i].cause.purview != ds[j].cause.purview
      ensures ds[i].effect.purview != ds[j].effect.purview
    {
      SelectPairNoConflict(m2d, c, e, i, j);
    }
  }

  /** The distinctions selected from the dictionary of `ds` are distinctions of `ds`. */
  lemma SelectDrawnFromInput(ds: seq<Distinction>, chosen: set<Mechanism>)
    ensures forall d :: d in Select(MechanismToDistinction(ds), chosen) ==> d in ds
  {
    var m2d := MechanismToDistinction(ds);
    SelectFacts(m2d, chosen);
  }

  /** A cause-side choice intersected with an effect-side choice selects conflict-free distinctions. */
  lemma IntersectedChoicesConflictFree(ds: seq<Distinction>, c: set<Mechanism>, e: set<Mechanism>)
    requires c in NonconflictingMiceSets(Group(MechanismToDistinction(ds).keys, MechanismToDistinction(ds).items, CAUSE))
    requires e in NonconflictingMiceSets(Group(MechanismToDistinction(ds).keys, MechanismToDistinction(ds).items, EFFECT))
    ensures ConflictFree(Select(MechanismToDistinction(ds), c * e))
  {
    var m2d := MechanismToDistinction(ds);
    NonconflictingMiceSetsOnePerPurview(m2d, CAUSE, c);
    NonconflictingMiceSetsOnePerPurview(m2d, EFFECT, e);
    SelectConflictFree(m2d, c, e);
  }

  /** One yielded structure: drawn from the input and conflict-free. */
  lemma YieldedConflictFree(ces: Ces, x: Ces)
    requires !ces.flat && x in NonconflictingDistinctionSets(ces).value
    ensures forall d :: d in x.distinctions ==> d in ces.distinctions
    ensures ConflictFree(x.distinctions)
    ensures x.subsystem == ces.subsystem && !x.flat
  {
    var m2d := MechanismToDistinction(ces.distinctions);
    var cs := NonconflictingMiceSets(Group(m2d.keys, m2d.items, CAUSE));
    var es := NonconflictingMiceSets(Group(m2d.keys, m2d.items, EFFECT));
    var chosen := Unique(Intersections(cs, es));
    var n :| 0 <= n < |chosen| && x == Ces(Select(m2d, chosen[n]), ces.subsystem, false);
    assert chosen[n] in chosen;
    IntersectionMember(cs, es, chosen[n]);
    var c, e :| c in cs && e in es && chosen[n] == c * e;
    IntersectedChoicesConflictFree(ces.distinctions, c, e);
    SelectDrawnFromInput(ces.distinctions, chosen[n]);
  }

  /**
   * Every yielded structure is drawn from the input, bound to its subsystem, and holds at
   * most one mechanism per purview on each side.
   */
  lemma NonconflictingSetsAreConflictFree(ces: Ces)
    requires !ces.flat
    ensures forall x :: x in NonconflictingDistinctionSets(ces).value ==>
      && (forall d :: d in x.distinctions ==> d in ces.distinctions)
      && ConflictFree(x.distinctions)
      && x.subsystem == ces.subsystem
      && !x.flat
  {
    forall x | x in NonconflictingDistinctionSets(ces).value
      ensures forall d :: d in x.distinctions ==> d in ces.distinctions
      ensures ConflictFree(x.distinctions)
      ensures x.subsystem == ces.subsystem && !x.flat
    {
      YieldedConflictFree(ces, x);
    }
  }

  /** A key of the dictionary chosen by `s1` is chosen by any `s2` selecting the same distinctions. */
  lemma SelectReaches(m2d: OrderedDict<Mechanism, Distinction>, s1: set<Mechanism>, s2: set<Mechanism>,
                      k: Mechanism)
    requires KeyedByMechanism(m2d)
    requires k in s1 && k in m2d.items
    requires Select(m2d, s1) == Select(m2d, s2)
    ensures k in s2
  {
    SelectFacts(m2d, s1);
    SelectFacts(m2d, s2);
    var ks1, ks2 := Chosen(m2d, s1), Chosen(m2d, s2);
    var i :| 0 <= i < |ks1| && ks1[i] == k;
    var j := i;
    assert Select(m2d, s2)[j] == m2d.items[k];
    assert ks2[j] in ks2;
    assert MechanismOf(m2d.items[ks2[j]]) == ks2[j];
  }

  /** Different sets of dictionary keys select different distinctions. */
  lemma SelectInjective(m2d: OrderedDict<Mechanism, Distinction>, s1: set<Mechanism>, s2: set<Mechanism>)
    requires KeyedByMechanism(m2d)
    requires WithinKeys(s1, m2d.items) && WithinKeys(s2, m2d.items)
    requires Select(m2d, s1) == Select(m2d, s2)
    ensures s1 == s2
  {
    forall k | k in s1
      ensures k in s2
    {
      SelectReaches(m2d, s1, s2, k);
    }
    forall k | k in s2
      ensures k in s1
    {
      SelectReaches(m2d, s2, s1, k);
    }
  }

  /** Every intersection the search keeps is a set of dictionary keys. */
  lemma ChosenWithinKeys(ces: Ces, s: set<Mechanism>)
    requires !ces.flat
    requires
      var m2d := MechanismToDistinction(ces.distinctions);
      s in Intersections(NonconflictingMiceSets(Group(m2d.keys, m2d.items, CAUSE)),
                         NonconflictingMiceSets(Group(m2d.keys, m2d.items, EFFECT)))
    ensures WithinKeys(s, MechanismToDistinction(ces.distinctions).items)
  {
    var m2d := MechanismToDistinction(ces.distinctions);
    var cs := NonconflictingMiceSets(Group(m2d.keys, m2d.items, CAUSE));
    var es := NonconflictingMiceSets(Group(m2d.keys, m2d.items, EFFECT));
    IntersectionMember(cs, es, s);
    var c, e :| c in cs && e in es && s == c * e;
    NonconflictingMiceSetsOnePerPurview(m2d, CAUSE, c);
  }

  /** Two positions of the search's result hold different structures. */
  lemma YieldedPairDistinct(ces: Ces, a: nat, b: nat)
    requires !ces.flat
    requires a < |NonconflictingDistinctionSets(ces).value| && b < |NonconflictingDistinctionSets(ces).value|
    requires a != b
    ensures NonconflictingDistinctionSets(ces).value[a] != NonconflictingDistinctionSets(ces).value[b]
  {
    var m2d := MechanismToDistinction(ces.distinctions);
    var chosen := Unique(Intersections(NonconflictingMiceSets(Group(m2d.keys, m2d.items, CAUSE)),
                                       NonconflictingMiceSets(Group(m2d.keys, m2d.items, EFFECT))));
    var r := NonconflictingDistinctionSets(ces).value;
    assert r[a].distinctions == Select(m2d, chosen[a]) && r[b].distinctions == Select(m2d, chosen[b]);
    assert chosen[a] != chosen[b];
    assert chosen[a] in chosen && chosen[b] in chosen;
    ChosenWithinKeys(ces, chosen[a]);
    ChosenWithinKeys(ces, chosen[b]);
    if Select(m2d, chosen[a]) == Select(m2d, chosen[b]) {
      SelectInjective(m2d, chosen[a], chosen[b]);
    }
  }

  /** No structure is yielded twice. */
  lemma NonconflictingSetsDistinct(ces: Ces)
    requires !ces.flat
    ensures Distinct(NonconflictingDistinctionSets(ces).value)
  {
    var r := NonconflictingDistinctionSets(ces).value;
    forall a, b | 0 <= a < |r| && 0 <= b < |r| && a != b
      ensures r[a] != r[b]
    {
      YieldedPairDistinct(ces, a, b);
    }
  }

  /**
   * The search is complete: for every cause-side and every effect-side choice of one
   * mechanism per purview, the distinctions of the mechanisms in both choices are yielded.
   */
  lemma EveryChoicePairIsYielded(ces: Ces, c: set<Mechanism>, e: set<Mechanism>)
    requires !ces.flat
    requires c in NonconflictingMiceSets(Group(MechanismToDistinction(ces.distinctions).keys,
                                               MechanismToDistinction(ces.distinctions).items, CAUSE))
    requires e in NonconflictingMiceSets(Group(MechanismToDistinction(ces.distinctions).keys,
                                               MechanismToDistinction(ces.distinctions).items, EFFECT))
    ensures Ces(Select(MechanismToDistinction(ces.distinctions), c * e), ces.subsystem, false)
            in NonconflictingDistinctionSets(ces).value
  {
    var m2d := MechanismToDistinction(ces.distinctions);
    var cs := NonconflictingMiceSets(Group(m2d.keys, m2d.items, CAUSE));
    var es := NonconflictingMiceSets(Group(m2d.keys, m2d.items, EFFECT));
    IntersectionComplete(cs, es, c, e);
    var chosen := Unique(Intersections(cs, es));
    assert c * e in chosen;
    var i :| 0 <= i < |chosen| && chosen[i] == c * e;
    assert NonconflictingDistinctionSets(ces).value[i] == Ces(Select(m2d, c * e), ces.subsystem, false);
  }

  /** Distinctions with different mechanisms never share a cause purview or an effect purview. */
  ghost predicate NoConflicts(ds: seq<Distinction>)
  {
    forall i, j :: 0 <= i < |ds| && 0 <= j < |ds| && MechanismOf(ds[i]) != MechanismOf(ds[j]) ==>
      ds[i].cause.purview != ds[j].cause.purview && ds[i].effect.purview != ds[j].effect.purview
  }

  /** Without conflicts in the input, no two keys of the dictionary share a purview. */
  lemma NoConflictsInDictionary(ds: seq<Distinction>, dir: TemporalDirection)
    requires NoConflicts(ds)
    ensures var m2d := MechanismToDistinction(ds).items;
      WithinKeys(m2d.Keys, m2d) && NoSharedPurview(m2d.Keys, m2d, dir)
  {
    var m2d := MechanismToDistinction(ds).items;
    forall k1, k2 | k1 in m2d && k2 in m2d && k1 != k2
      ensures m2d[k1].Purview(dir) != m2d[k2].Purview(dir)
    {
      var i :| 0 <= i < |ds| && ds[i] == m2d[k1];
      var j :| 0 <= j < |ds| && ds[j] == m2d[k2];
      assert MechanismOf(ds[i]) != MechanismOf(ds[j]);
    }
  }

  /** When every purview has a single specifying mechanism, each group holds exactly that mechanism. */
  lemma SingletonGroup(m2d: OrderedDict<Mechanism, Distinction>, dir: TemporalDirection, i: nat)
    requires m2d.Valid() && WithinKeys(m2d.items.Keys, m2d.items) && NoSharedPurview(m2d.items.Keys, m2d.items, dir)
    requires i < |Group(m2d.keys, m2d.items, dir).keys|
    ensures var g := Group(m2d.keys, m2d.items, dir);
      && |GroupLists(g)[i]| == 1
      && GroupLists(g)[i][0] in m2d.items
      && m2d.items[GroupLists(g)[i][0]].Purview(dir) == g.keys[i]
  {
    var g := Group(m2d.keys, m2d.items, dir);
    GroupSelectsByPurview(m2d.keys, m2d.items, dir);
    var p := g.keys[i];
    var purviews := PurviewsOf(m2d.keys, m2d.items, dir);
    assert p in purviews;
    var n :| 0 <= n < |purviews| && purviews[n] == p;
    var k := m2d.keys[n];
    FilterSingleton(m2d.keys, SpecifiesPurview(m2d.items, dir, p), k);
  }

  /** Without shared purviews, the heads of the groups are exactly the dictionary's keys. */
  lemma HeadsAreAllKeys(m2d: OrderedDict<Mechanism, Distinction>, dir: TemporalDirection)
    requires m2d.Valid() && WithinKeys(m2d.items.Keys, m2d.items) && NoSharedPurview(m2d.items.Keys, m2d.items, dir)
    requires forall i :: 0 <= i < |GroupLists(Group(m2d.keys, m2d.items, dir))| ==>
      |GroupLists(Group(m2d.keys, m2d.items, dir))[i]| == 1
    ensures ToSet(Heads(GroupLists(Group(m2d.keys, m2d.items, dir)))) == m2d.items.Keys
  {
    var g := Group(m2d.keys, m2d.items, dir);
    var heads := Heads(GroupLists(g));
    forall k | k in m2d.items
      ensures k in heads
    {
      PurviewIsGrouped(m2d, dir, k);
      var j :| 0 <= j < |g.keys| && g.keys[j] == m2d.items[k].Purview(dir);
      SingletonGroup(m2d, dir, j);
      assert heads[j] == k;
    }
    forall k | k in heads
      ensures k in m2d.items
    {
      var j :| 0 <= j < |heads| && heads[j] == k;
      SingletonGroup(m2d, dir, j);
    }
  }

  /** Without shared purviews, `_nonconflicting_mice_set` yields the set of all mechanisms, once. */
  lemma SingleNonconflictingMiceSet(m2d: OrderedDict<Mechanism, Distinction>, dir: TemporalDirection)
    requires m2d.Valid() && WithinKeys(m2d.items.Keys, m2d.items) && NoSharedPurview(m2d.items.Keys, m2d.items, dir)
    ensures NonconflictingMiceSets(Group(m2d.keys, m2d.items, dir)) == [m2d.items.Keys]
  {
    var g := Group(m2d.keys, m2d.items, dir);
    var lists := GroupLists(g);
    forall i | 0 <= i < |lists|
      ensures |lists[i]| == 1
    {
      SingletonGroup(m2d, dir, i);
    }
    ProductOfSingletons(lists);
    HeadsAreAllKeys(m2d, dir);
    var choices := Product(lists);
    assert choices == [Heads(lists)];
    assert NonconflictingMiceSets(g) == seq(|choices|, i requires 0 <= i < |choices| => ToSet(choices[i]));
  }

  /** The values of the dictionary, in its order. */
  function Values(m2d: OrderedDict<Mechanism, Distinction>): seq<Distinction>
    requires m2d.Valid()
  {
    seq(|m2d.keys|, i requires 0 <= i < |m2d.keys| => m2d.items[m2d.keys[i]])
  }

  /** Choosing every key selects every value, in order. */
  lemma SelectAll(m2d: OrderedDict<Mechanism, Distinction>)
    requires m2d.Valid()
    ensures Select(m2d, m2d.items.Keys) == Values(m2d)
  {
    FilterKeepsAll(m2d.keys, InSet(m2d.items.Keys));
  }

  /** A single cause-side choice meeting the same effect-side choice yields that choice once. */
  lemma IntersectAllOnce(all: set<Mechanism>)
    ensures Unique(Intersections([all], [all])) == [all]
  {
    var front := seq(1, j requires 0 <= j < 1 => [all][0] * [all][j]);
    assert all * all == all;
    assert front[0] == all;
    assert front == [all];
    assert Intersections([all], [all]) == front + Intersections([], [all]);
    assert [all][..0] == Unique<set<Mechanism>>([]);
  }

  /**
   * When distinctions with different mechanisms never share a purview on either side,
   * exactly one structure is yielded, holding every mechanism's distinction.
   */
  lemma WithoutConflictsAllAreYielded(ces: Ces)
    requires !ces.flat && NoConflicts(ces.distinctions)
    ensures var m2d := MechanismToDistinction(ces.distinctions);
      NonconflictingDistinctionSets(ces) == Ok([Ces(Values(m2d), ces.subsystem, false)])
  {
    var m2d := MechanismToDistinction(ces.distinctions);
    var all := m2d.items.Keys;
    assert NonconflictingMiceSets(Group(m2d.keys, m2d.items, CAUSE)) == [all] by {
      NoConflictsInDictionary(ces.distinctions, CAUSE);
      SingleNonconflictingMiceSet(m2d, CAUSE);
    }
    assert NonconflictingMiceSets(Group(m2d.keys, m2d.items, EFFECT)) == [all] by {
      NoConflictsInDictionary(ces.distinctions, EFFECT);
      SingleNonconflictingMiceSet(m2d, EFFECT);
    }
    assert Unique(Intersections([all], [all])) == [all] by {
      IntersectAllOnce(all);
    }
    assert Select(m2d, all) == Values(m2d) by {
      SelectAll(m2d);
    }
    var chosen := [all];
    var r := seq(|chosen|, i requires 0 <= i < |chosen| => Ces(Select(m2d, chosen[i]), ces.subsystem, false));
    assert r == [Ces(Values(m2d), ces.subsystem, false)];
  }

  /** Every distinction of the input shares its mechanism with a distinction of the dictionary. */
  lemma ValuesCoverInput(ds: seq<Distinction>)
    ensures forall d :: d in ds ==>
      exists d' :: d' in Values(MechanismToDistinction(ds)) && MechanismOf(d') == MechanismOf(d)
  {
    var m2d := MechanismToDistinction(ds);
    forall d | d in ds
      ensures exists d' :: d' in Values(m2d) && MechanismOf(d') == MechanismOf(d)
    {
      var k := MechanismOf(d);
      var i :| 0 <= i < |m2d.keys| && m2d.keys[i] == k;
      assert Values(m2d)[i] == m2d.items[k];
    }
  }

  /** An empty structure yields a single empty structure bound to the same subsystem. */
  lemma EmptyYieldsOneEmpty(ces: Ces)
    requires !ces.flat && ces.distinctions == []
    ensures NonconflictingDistinctionSets(ces) == Ok([Ces([], ces.subsystem, false)])
  {
    WithoutConflictsAllAreYielded(ces);
    assert MechanismToDistinction(ces.distinctions) == OrderedDict([], map[]);
    assert Values(MechanismToDistinction(ces.distinctions)) == [];
  }
}
