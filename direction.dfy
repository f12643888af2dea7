/**
 * Causal directions: the `Direction` integer enumeration with its JSON form,
 * the temporal ordering of a (mechanism, purview) pair, and `flip`.
 */
module Directions {
  import opened Wrappers

  datatype Direction = CAUSE | EFFECT | BIDIRECTIONAL

  /** The directions that order a pair in time; every system cut carries one of these. */
  type TemporalDirection = d: Direction | d != BIDIRECTIONAL witness CAUSE

  /** The integer value of the enumeration member. */
  function Value(d: Direction): nat
  {
    match d
    case CAUSE => 0
    case EFFECT => 1
    case BIDIRECTIONAL => 2
  }

  /** The member's name, `Direction.name`. */
  function Name(d: Direction): string
  {
    match d
    case CAUSE => "CAUSE"
    case EFFECT => "EFFECT"
    case BIDIRECTIONAL => "BIDIRECTIONAL"
  }

  /** Lookup by name, `Direction[name]`; an unknown name raises `KeyError`. */
  function FromName(name: string): (r: Result<Direction>)
    ensures r.Ok? ==> Name(r.value) == name
    ensures r.Err? ==> r.error == KeyError && forall d: Direction :: Name(d) != name
  {
    if name == "CAUSE" then Ok(CAUSE)
    else if name == "EFFECT" then Ok(EFFECT)
    else if name == "BIDIRECTIONAL" then Ok(BIDIRECTIONAL)
    else Err(KeyError)
  }

  /** A JSON object whose values are strings. */
  type JsonObject = map<string, string>

  /** `to_json`: the object `{"direction": name}`. */
  function ToJson(d: Direction): (j: JsonObject)
    ensures j.Keys == {"direction"}
  {
    map["direction" := Name(d)]
  }

  /** `from_json`: a missing key or an unknown name raises `KeyError`. */
  function FromJson(j: JsonObject): (r: Result<Direction>)
    ensures r.Ok? <==> "direction" in j && exists d: Direction :: Name(d) == j["direction"]
    ensures r.Ok? ==> Name(r.value) == j["direction"]
    ensures r.Err? ==> r.error == KeyError
  {
    if "direction" in j then FromName(j["direction"]) else Err(KeyError)
  }

  /** Every direction survives the JSON round trip. */
  lemma JsonRoundTrip(d: Direction)
    ensures FromJson(ToJson(d)) == Ok(d)
  {
  }

  /** Decoding is the inverse of encoding on the `direction` key. */
  lemma JsonDecodeThenEncode(j: JsonObject)
    requires FromJson(j).Ok?
    ensures ToJson(FromJson(j).value) == map["direction" := j["direction"]]
  {
  }

  /**
   * `order`: CAUSE puts the purview (at t-1) before the mechanism (at t);
   * EFFECT puts the mechanism (at t) before the purview (at t+1);
   * BIDIRECTIONAL is handed to the direction validator, which rejects it.
   */
  function Order<X>(d: Direction, mechanism: X, purview: X): (r: Result<(X, X)>)
    ensures r.Err? <==> d == BIDIRECTIONAL
    ensures r.Err? ==> r.error == InvalidDirection
    ensures d == CAUSE ==> r == Ok((purview, mechanism))
    ensures d == EFFECT ==> r == Ok((mechanism, purview))
  {
    match d
    case CAUSE => Ok((purview, mechanism))
    case EFFECT => Ok((mechanism, purview))
    case BIDIRECTIONAL => Err(InvalidDirection)
  }

  /** `flip`: CAUSE becomes EFFECT; every other member becomes CAUSE. */
  function Flip(d: Direction): (r: TemporalDirection)
    ensures r in Both()
    ensures r == EFFECT <==> d == CAUSE
  {
    if d == CAUSE then EFFECT else CAUSE
  }

  /** `Direction.both()`: the two temporal directions, CAUSE first. */
  function Both(): (r: seq<Direction>)
    ensures |r| == 2 && r[0] == CAUSE && r[0] != r[1] && BIDIRECTIONAL !in r
  {
    [CAUSE, EFFECT]
  }

  /** `Direction.all()`: the three members in the order of their integer values. */
  function All(): (r: seq<Direction>)
    ensures |r| == 3
    ensures forall i :: 0 <= i < |r| ==> Value(r[i]) == i
  {
    [CAUSE, EFFECT, BIDIRECTIONAL]
  }

  /** `flip` is an involution on the two temporal directions, and never fixes one. */
  lemma FlipInvolution(d: Direction)
    requires d in Both()
    ensures Flip(Flip(d)) == d
    ensures Flip(d) != d && Flip(d) in Both()
  {
  }

  /** BIDIRECTIONAL flips to CAUSE, so `flip` is not injective on `all()`. */
  lemma FlipBidirectional()
    ensures Flip(BIDIRECTIONAL) == CAUSE == Flip(EFFECT)
  {
  }

  /** Flipping a temporal direction swaps the ordered pair. */
  lemma FlipSwapsOrder<X>(d: Direction, mechanism: X, purview: X)
    requires d in Both()
    ensures Order(d, mechanism, purview).Ok? && Order(Flip(d), mechanism, purview).Ok?
    ensures Order(Flip(d), mechanism, purview).value.0 == Order(d, mechanism, purview).value.1
    ensures Order(Flip(d), mechanism, purview).value.1 == Order(d, mechanism, purview).value.0
  {
  }

  /**
   * The enumerations: `both()` lists exactly the temporal directions, `all()` lists every
   * member once, and the integer values are 0, 1 and 2 in that order.
   */
  lemma Enumerations()
    ensures forall d: Direction :: d in Both() <==> d != BIDIRECTIONAL
    ensures forall d: Direction :: d in All()
    ensures All() == Both() + [BIDIRECTIONAL]
    ensures forall i :: 0 <= i < |All()| ==> Value(All()[i]) == i
  {
    forall d: Direction
      ensures d in All() && (d in Both() <==> d != BIDIRECTIONAL)
    {
      match d
      case CAUSE =>
      case EFFECT =>
      case BIDIRECTIONAL =>
    }
  }

  /** Distinct members have distinct values and distinct names. */
  lemma ValuesDistinct(d: Direction, e: Direction)
    requires d != e
    ensures Value(d) != Value(e) && Name(d) != Name(e)
  {
  }
}
