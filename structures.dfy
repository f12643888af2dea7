/**
 * The values the irreducibility search works on. Distinctions, relations and the
 * subsystem come from collaborators that are not part of this model; only the parts
 * of them the search reads are kept.
 */
module Structures {
  import opened Wrappers
  import opened Directions
  import opened Seqs

  /** A tuple of node indices. */
  type Nodes = seq<nat>

  /** A state of a purview: one value per node. */
  type State = seq<int>

  /**
   * A maximally irreducible cause or effect: one side of a distinction, and the unit a
   * flat cause-effect structure lists. `specifiedState` holds the (tied) states it specifies.
   */
  datatype Mice = Mice(
    direction: Direction,
    mechanism: Nodes,
    purview: Nodes,
    phi: real,
    specifiedState: seq<State>)

  /** A mechanism with its cause and its effect, and the distinction's small phi. */
  datatype Distinction = Distinction(mechanism: Nodes, cause: Mice, effect: Mice, phi: real)
  {
    /** `distinction.purview(direction)` */
    function Purview(d: TemporalDirection): Nodes
    {
      if d == CAUSE then cause.purview else effect.purview
    }
  }

  /** The part of a subsystem the core reads: its node indices and whether its cut is null. */
  datatype Subsystem = Subsystem(nodeIndices: Nodes, cutIsNull: bool)

  /** `len(subsystem)` */
  function Size(s: Subsystem): nat
  {
    |s.nodeIndices|
  }

  /**
   * A cause-effect structure: distinctions in order, the subsystem it is bound to
   * (absent when constructed without one), and whether it is the flat view.
   */
  datatype Ces = Ces(distinctions: seq<Distinction>, subsystem: Option<Subsystem>, flat: bool)

  /** The flat view's elements: the cause and the effect of each distinction. */
  function Flatten(ds: seq<Distinction>): (r: seq<Mice>)
    ensures forall m :: m in r <==> exists d :: d in ds && (m == d.cause || m == d.effect)
  {
    if ds == [] then []
    else [ds[0].cause, ds[0].effect] + Flatten(ds[1..])
  }

  /** A relation among the relata (causes and effects of distinctions), with its phi. */
  datatype Relation = Relation(relata: seq<Mice>, phi: real)

  /**
   * A cut of the system. `SystemCut` severs the connections from `fromNodes` to
   * `toNodes` in one temporal direction; `CompleteCut` severs everything; `NullCut` is a
   * subsystem's uncut baseline and severs nothing.
   */
  datatype Cut =
    | NullCut
    | SystemCut(direction: TemporalDirection, fromNodes: Nodes, toNodes: Nodes)
    | CompleteCut

  /** A directionless bipartition of the cut indices, as the bipartition source yields it. */
  datatype Bipartition = Bipartition(fromNodes: Nodes, toNodes: Nodes)

  /** `sum(phis)` over distinctions. */
  function SumDistinctionPhi(ds: seq<Distinction>): real
  {
    Sum(ds, (d: Distinction) => d.phi)
  }

  /** `sum(phis)` over relations. */
  function SumRelationPhi(rs: seq<Relation>): real
  {
    Sum(rs, (r: Relation) => r.phi)
  }

  /** Every small phi is non-negative. */
  predicate NonnegativePhis(ds: seq<Distinction>, rs: seq<Relation>)
  {
    (forall d :: d in ds ==> d.phi >= 0.0) && (forall r :: r in rs ==> r.phi >= 0.0)
  }
}
