/**
  What every plan the allocator returns promises its caller, whichever of the
  two strategies produced it: the full request at non-worsening prices, fills
  cut only from eligible orders, and no exchange pushed past its balance; a
  sell (with unique exchange names) fails exactly when the request exceeds
  what the bids and balances can absorb, and then by that excess.
 */
module Guarantees {
  import opened Models
  import opened Eligible
  import opened Priority
  import opened Allocation
  import opened Shortfall

  /** The contract of a result for a positive request of side `side`. */
  ghost predicate PlanGuarantees(side: OrderType, exchanges: seq<NamedExchange>, amount: real,
                                 r: Result<seq<ExecutionOrder>>)
  {
    match r
    case Ok(fills) =>
      // the whole request, in positive pieces (so no piece exceeds what was left of it)
      && Total(fills) == amount
      && (forall k :: 0 <= k < |fills| ==> fills[k].amount > 0.0)
      // best prices first
      && FillsInPriority(side, fills)
      // every fill is cut from a counter-side order in the right book list
      && (forall k :: 0 <= k < |fills| ==>
            exists c :: c in Collect(side, exchanges) && Serves(fills[k], c))
      // ... and a different order for each fill: no order backs two fills
      && (exists t, idx :: multiset(t) == multiset(Collect(side, exchanges)) && Matched(fills, t, idx))
      // no exchange is asked for more than its balance
      && (UniqueNames(exchanges) ==>
            forall i :: 0 <= i < |exchanges| ==>
              Spent(side, fills, exchanges[i].name) <= Max(0.0, Balance(side, exchanges[i])))
      // a sell succeeds only within what the bids and balances can absorb
      && (side == Sell && UniqueNames(exchanges) ==> amount <= SellCapacity(exchanges))
    case Err(e) =>
      && e.InsufficientLiquidity? && e.side == side && 0.0 < e.remaining <= amount
      // a failed sell has used up all of that capacity
      && (side == Sell && UniqueNames(exchanges) ==> e.remaining == amount - SellCapacity(exchanges))
  }

  /** The greedy walk over ANY price-sorted arrangement of the eligible orders
      keeps the plan contract; both strategies are instances of this. */
  lemma GreedyGuarantees(side: OrderType, exchanges: seq<NamedExchange>, amount: real, t: seq<Candidate>)
    requires amount > 0.0
    requires Sorted(side, t)
    requires multiset(t) == multiset(Collect(side, exchanges))
    ensures PlanGuarantees(side, exchanges, amount, Finish(side, Walk(side, Start(amount), t)))
  {
    var w := Walk(side, Start(amount), t);
    WalkConserves(side, amount, t);
    FinishAllOrNothing(side, amount, t);
    WalkInPriority(side, Start(amount), t);
    WalkProvenance(side, Start(amount), t);
    forall k | 0 <= k < |w.fills| ensures exists c :: c in Collect(side, exchanges) && Serves(w.fills[k], c) {
      var j :| 0 <= j < |t| && Serves(w.fills[k], t[j]);
      assert t[j] in multiset(t);
    }
    var idx :| Matched(w.fills, t, idx);
    if UniqueNames(exchanges) {
      forall i | 0 <= i < |exchanges|
        ensures Spent(side, w.fills, exchanges[i].name) <= Max(0.0, Balance(side, exchanges[i]))
      {
        CeilingIsBalance(side, exchanges, i, t);
        WalkCapacity(side, amount, t, exchanges[i].name, Balance(side, exchanges[i]));
      }
      if side == Sell {
        SellShortfall(exchanges, amount, t);
      }
    }
  }
}
