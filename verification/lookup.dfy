/**
 * The read-side gate of the iterative optimizer (`Lookup`): resolving
 * `GroupReference` placeholders and answering statistics and cost queries.
 *
 * The memo, its groups and the estimate formulas live outside this gate;
 * here a resolver is just a function from group ids to plan nodes, and the
 * estimates are abstract values with an explicit "unknown" constant.
 */
module Lookup {
  import opened Wrappers

  type GroupId = int
  type Symbol = string

  /** A plan node: a symbolic reference to a memo group, or a concrete operator. */
  datatype PlanNode =
    | GroupReference(groupId: GroupId, outputs: seq<Symbol>)
    | Operator(name: string, sources: seq<PlanNode>, outputs: seq<Symbol>)

  /** Placeholder for the query session and the symbol-to-type map; only their presence matters here. */
  datatype Session = Session(queryId: string)
  datatype Type = Type(signature: string)

  /** Statistics and cost estimates; their numeric content is not modelled. */
  datatype PlanNodeStatsEstimate = UnknownStats | Stats(summary: nat)
  datatype PlanNodeCostEstimate = UnknownCost | Cost(summary: nat)

  /** Guava's `verify` failure. */
  datatype VerifyError = VerifyError(message: string)

  const UNEXPECTED_GROUP_REFERENCE := "Unexpected GroupReference"

  /** The two implementations of the interface: `noLookup()` and `from(resolver)`. */
  datatype Lookup =
    | NoLookup
    | From(resolver: GroupId -> PlanNode)

  /**
   * `resolve`: `from(resolver)` replaces a group reference by whatever the
   * resolver returns for its group, which may itself be a group reference;
   * any other node is returned as is. `noLookup()` rejects group references.
   */
  function Resolve(lookup: Lookup, node: PlanNode): (r: Result<PlanNode, VerifyError>)
    ensures !node.GroupReference? ==> r == Success(node)
    ensures r.Failure? <==> lookup.NoLookup? && node.GroupReference?
    ensures r.Failure? ==> r.error.message == UNEXPECTED_GROUP_REFERENCE
    ensures lookup.From? && node.GroupReference? ==> r == Success(lookup.resolver(node.groupId))
  {
    match lookup
    case NoLookup =>
      if node.GroupReference? then Failure(VerifyError(UNEXPECTED_GROUP_REFERENCE)) else Success(node)
    case From(resolver) =>
      if node.GroupReference? then Success(resolver(node.groupId)) else Success(node)
  }

  /** `getStats`: both implementations answer UNKNOWN_STATS, whatever they are asked. */
  function GetStats(lookup: Lookup, session: Session, types: map<Symbol, Type>, node: PlanNode): (s: PlanNodeStatsEstimate)
    ensures s == UnknownStats
  {
    UnknownStats
  }

  /** `getCumulativeCost`: both implementations answer UNKNOWN_COST, whatever they are asked. */
  function GetCumulativeCost(lookup: Lookup, session: Session, types: map<Symbol, Type>, node: PlanNode): (c: PlanNodeCostEstimate)
    ensures c == UnknownCost
  {
    UnknownCost
  }

  /** A resolver that never hands back a placeholder. */
  ghost predicate Materializing(resolver: GroupId -> PlanNode)
  {
    forall g :: !resolver(g).GroupReference?
  }

  /** Wherever `noLookup()` succeeds, every `from(resolver)` agrees with it. */
  lemma NoLookupAgreesWithFrom(resolver: GroupId -> PlanNode, node: PlanNode)
    requires Resolve(NoLookup, node).Success?
    ensures Resolve(From(resolver), node) == Resolve(NoLookup, node)
  {
  }

  /**
   * With a resolver that never yields a placeholder, `from(resolver)` never
   * returns one, and resolving its own output changes nothing.
   */
  lemma FromResolveIdempotent(resolver: GroupId -> PlanNode, node: PlanNode)
    requires Materializing(resolver)
    ensures Resolve(From(resolver), node).Success?
    ensures !Resolve(From(resolver), node).value.GroupReference?
    ensures Resolve(From(resolver), Resolve(From(resolver), node).value) == Resolve(From(resolver), node)
  {
    if node.GroupReference? {
      assert !resolver(node.groupId).GroupReference?;
    }
  }

  /**
   * After a successful resolve, `noLookup()` accepts the result: a
   * materializing `from(resolver)` hands group-unaware code only concrete nodes.
   */
  lemma ResolvedNodesPassNoLookup(resolver: GroupId -> PlanNode, node: PlanNode)
    requires Materializing(resolver)
    ensures Resolve(NoLookup, Resolve(From(resolver), node).value) == Resolve(From(resolver), node)
  {
    FromResolveIdempotent(resolver, node);
  }

  /**
   * A placeholder and the node it resolves to get the same estimates: the
   * estimate queries answer without resolving, so they never fail, not even
   * for the placeholders that `noLookup().resolve` rejects.
   */
  lemma EstimatesIgnoreResolution(lookup: Lookup, resolver: GroupId -> PlanNode, session: Session,
                                   types: map<Symbol, Type>, node: PlanNode)
    ensures GetStats(lookup, session, types, node)
         == GetStats(lookup, session, types, Resolve(From(resolver), node).value)
    ensures GetCumulativeCost(lookup, session, types, node)
         == GetCumulativeCost(lookup, session, types, Resolve(From(resolver), node).value)
    ensures Resolve(NoLookup, node).Failure? ==>
      && GetStats(NoLookup, session, types, node) == UnknownStats
      && GetCumulativeCost(NoLookup, session, types, node) == UnknownCost
  {
  }
}
