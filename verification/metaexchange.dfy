/**
  The allocator's entry points, written as the loops they are: the
  sort-then-scan routines behind `ProcessOrder` and the priority-queue routine
  `ProcessOrderLargeSet`. Each is proved to compute the functional greedy walk
  of `Allocation`, and hence to keep the plan contract of `Guarantees`.
 */
module MetaExchange {
  import opened Models
  import opened Eligible
  import opened Priority
  import opened Allocation
  import opened Guarantees
  import opened Queue
  import opened Agreement
  import opened Ties

  /** The result `ProcessOrder` is specified to return. */
  function SortAndScan(exchanges: seq<NamedExchange>, request: OrderRequest): Result<seq<ExecutionOrder>>
  {
    if request.amount <= 0.0 then Err(AmountNotPositive)
    else Allocate(request.side, exchanges, request.amount)
  }

  /** Validates the amount, then dispatches on the request side. */
  method ProcessOrder(exchanges: seq<NamedExchange>, request: OrderRequest)
    returns (r: Result<seq<ExecutionOrder>>)
    ensures request.amount <= 0.0 ==> r == Err(AmountNotPositive)
    ensures request.amount > 0.0 ==> r == Allocate(request.side, exchanges, request.amount)
    ensures request.amount > 0.0 ==> PlanGuarantees(request.side, exchanges, request.amount, r)
  {
    if request.amount <= 0.0 {
      return Err(AmountNotPositive);
    }
    match request.side {
      case Sell =>
        r := ProcessSellOrder(exchanges, request.amount);
      case Buy =>
        r := ProcessBuyOrder(exchanges, request.amount);
    }
    var all := Collect(request.side, exchanges);
    SortByPriorityCorrect(request.side, all);
    GreedyGuarantees(request.side, exchanges, request.amount, SortByPriority(request.side, all));
  }

  /** Sells against all Buy-tagged bids, highest price first, each exchange
      limited by its BTC balance. */
  method ProcessSellOrder(exchanges: seq<NamedExchange>, amount: real) returns (r: Result<seq<ExecutionOrder>>)
    ensures r == Allocate(Sell, exchanges, amount)
  {
    var allBids := SortByPriority(Sell, Collect(Sell, exchanges));
    r := SellAgainst(allBids, amount);
  }

  /** The scan of `ProcessSellOrder` over its sorted bids. */
  method SellAgainst(allBids: seq<Candidate>, amount: real) returns (r: Result<seq<ExecutionOrder>>)
    ensures r == Finish(Sell, Walk(Sell, Start(amount), allBids))
  {
    var result: seq<ExecutionOrder> := [];
    var remainingAmount := amount;
    var btcSoldByExchange: map<string, real> := map[];
    var i := 0;
    // the loop guard stands for the C# loop's early `break` once the request is met
    while i < |allBids| && remainingAmount > 0.0
      invariant 0 <= i <= |allBids|
      invariant WalkState(remainingAmount, btcSoldByExchange, result) == Walk(Sell, Start(amount), allBids[..i])
    {
      WalkUnfold(Sell, Start(amount), allBids[..i], allBids[i]);
      assert allBids[..i + 1] == allBids[..i] + [allBids[i]];
      remainingAmount, btcSoldByExchange, result := SellToBid(remainingAmount, btcSoldByExchange, result, allBids[i]);
      i := i + 1;
    }
    if i < |allBids| {
      WalkStopped(Sell, Start(amount), allBids[..i], allBids[i..]);
      assert allBids[..i] + allBids[i..] == allBids;
    } else {
      assert allBids[..i] == allBids;
    }
    if remainingAmount > 0.0 {
      return Err(InsufficientLiquidity(Sell, remainingAmount));
    }
    return Ok(result);
  }

  /** One pass of the sell loop: the bid is served up to the remaining request,
      its size and the BTC its exchange has left. */
  method SellToBid(remainingAmount: real, btcSoldByExchange: map<string, real>, result: seq<ExecutionOrder>, bid: Candidate)
    returns (remaining': real, sold': map<string, real>, result': seq<ExecutionOrder>)
    requires remainingAmount > 0.0
    ensures WalkState(remaining', sold', result') == Step(Sell, WalkState(remainingAmount, btcSoldByExchange, result), bid)
  {
    remaining', sold', result' := remainingAmount, btcSoldByExchange, result;
    if bid.exchange !in sold' {
      sold' := sold'[bid.exchange := 0.0];
    }
    var btcAvailable := bid.maxBtc - sold'[bid.exchange];
    if btcAvailable > 0.0 {
      var btcToSell := Min(remainingAmount, bid.order.amount);
      btcToSell := Min(btcToSell, btcAvailable);
      if btcToSell > 0.0 {
        result' := result' + [ExecutionOrder(bid.exchange, btcToSell, bid.order.price)];
        remaining' := remaining' - btcToSell;
        sold' := sold'[bid.exchange := sold'[bid.exchange] + btcToSell];
      }
    }
  }

  /** Buys from all Sell-tagged asks, lowest price first, each exchange limited
      by its EUR balance: a fill that would overspend shrinks to what is left. */
  method ProcessBuyOrder(exchanges: seq<NamedExchange>, amount: real) returns (r: Result<seq<ExecutionOrder>>)
    ensures r == Allocate(Buy, exchanges, amount)
  {
    var allAsks := SortByPriority(Buy, Collect(Buy, exchanges));
    r := BuyFrom(allAsks, amount);
  }

  /** The scan of `ProcessBuyOrder` over its sorted asks. */
  method BuyFrom(allAsks: seq<Candidate>, amount: real) returns (r: Result<seq<ExecutionOrder>>)
    ensures r == Finish(Buy, Walk(Buy, Start(amount), allAsks))
  {
    var result: seq<ExecutionOrder> := [];
    var remainingAmount := amount;
    var eurSpentByExchange: map<string, real> := map[];
    var i := 0;
    // the loop guard stands for the C# loop's early `break` once the request is met
    while i < |allAsks| && remainingAmount > 0.0
      invariant 0 <= i <= |allAsks|
      invariant WalkState(remainingAmount, eurSpentByExchange, result) == Walk(Buy, Start(amount), allAsks[..i])
    {
      WalkUnfold(Buy, Start(amount), allAsks[..i], allAsks[i]);
      assert allAsks[..i + 1] == allAsks[..i] + [allAsks[i]];
      remainingAmount, eurSpentByExchange, result := BuyFromAsk(remainingAmount, eurSpentByExchange, result, allAsks[i]);
      i := i + 1;
    }
    if i < |allAsks| {
      WalkStopped(Buy, Start(amount), allAsks[..i], allAsks[i..]);
      assert allAsks[..i] + allAsks[i..] == allAsks;
    } else {
      assert allAsks[..i] == allAsks;
    }
    if remainingAmount > 0.0 {
      return Err(InsufficientLiquidity(Buy, remainingAmount));
    }
    return Ok(result);
  }

  /** One pass of the buy loop: the ask is served up to the remaining request
      and its size, shrunk to what the exchange's EUR left pays for. */
  method BuyFromAsk(remainingAmount: real, eurSpentByExchange: map<string, real>, result: seq<ExecutionOrder>, ask: Candidate)
    returns (remaining': real, spent': map<string, real>, result': seq<ExecutionOrder>)
    requires remainingAmount > 0.0
    ensures WalkState(remaining', spent', result') == Step(Buy, WalkState(remainingAmount, eurSpentByExchange, result), ask)
  {
    remaining', spent', result' := remainingAmount, eurSpentByExchange, result;
    if ask.exchange !in spent' {
      spent' := spent'[ask.exchange := 0.0];
    }
    var eurAvailable := ask.maxEur - spent'[ask.exchange];
    if eurAvailable > 0.0 {
      var btcToBuy := Min(remainingAmount, ask.order.amount);
      var eurNeeded := btcToBuy * ask.order.price;
      if eurNeeded > eurAvailable {
        btcToBuy := eurAvailable / ask.order.price;
      }
      assert btcToBuy == FillAmount(Buy, remainingAmount, ask.order, eurAvailable);
      assert Cost(Buy, btcToBuy, ask.order.price) == btcToBuy * ask.order.price;
      if btcToBuy > 0.0 {
        result' := result' + [ExecutionOrder(ask.exchange, btcToBuy, ask.order.price)];
        remaining' := remaining' - btcToBuy;
        spent' := spent'[ask.exchange := spent'[ask.exchange] + btcToBuy * ask.order.price];
      }
    }
  }

  /** The priority-queue strategy. It rejects an empty exchange list before the
      amount, queues every eligible order, and dequeues best prices until the
      request is met or the queue is empty. */
  method ProcessOrderLargeSet(exchanges: seq<NamedExchange>, request: OrderRequest)
    returns (r: Result<seq<ExecutionOrder>>)
    ensures |exchanges| == 0 ==> r == Err(NoExchanges)
    ensures |exchanges| > 0 && request.amount <= 0.0 ==> r == Err(AmountNotPositive)
    // the walk over the order the queue released, a price-sorted arrangement of the eligible orders
    ensures |exchanges| > 0 && request.amount > 0.0 ==>
              exists t :: && Sorted(request.side, t)
                          && multiset(t) == multiset(Collect(request.side, exchanges))
                          && r == Finish(request.side, Walk(request.side, Start(request.amount), t))
    ensures |exchanges| > 0 && request.amount > 0.0 ==>
              PlanGuarantees(request.side, exchanges, request.amount, r)
    // with no tied prices, exactly what the sort-then-scan strategy returns
    ensures |exchanges| > 0 && DistinctPrices(Collect(request.side, exchanges)) ==>
              r == SortAndScan(exchanges, request)
    // with tied prices the plans may differ, but with unique exchange names and
    // positive buy prices both strategies succeed together or fail alike
    ensures |exchanges| > 0 && UniqueNames(exchanges) && Priced(request.side, Collect(request.side, exchanges)) ==>
              && r.Ok? == SortAndScan(exchanges, request).Ok?
              && (r.Err? ==> r == SortAndScan(exchanges, request))
  {
    if |exchanges| == 0 {
      return Err(NoExchanges);
    }
    if request.amount <= 0.0 {
      return Err(AmountNotPositive);
    }
    var queue, fundsUsedByExchange := EnqueueOrders(request.side, exchanges);
    r := DrainQueue(request.side, queue, fundsUsedByExchange, request.amount);
    ghost var t :| && Sorted(request.side, t) && multiset(t) == queue
                   && r == Finish(request.side, Walk(request.side, WalkState(request.amount, fundsUsedByExchange, []), t));
    WalkSeeded(request.side, request.amount, fundsUsedByExchange, t);
    GreedyGuarantees(request.side, exchanges, request.amount, t);
    if DistinctPrices(Collect(request.side, exchanges)) {
      OnlyArrangement(request.side, exchanges, t);
    }
    if UniqueNames(exchanges) && Priced(request.side, Collect(request.side, exchanges)) {
      SameOutcome(request.side, exchanges, request.amount, t);
    }
  }

  /** The populate phase of `ProcessOrderLargeSet`: every counter-side order of
      the right book list is queued with its exchange's balances, and every
      exchange starts the ledger at zero. */
  method EnqueueOrders(side: OrderType, exchanges: seq<NamedExchange>)
    returns (queue: multiset<Candidate>, fundsUsedByExchange: map<string, real>)
    ensures queue == multiset(Collect(side, exchanges))
    ensures forall c :: c in queue ==> c.exchange in fundsUsedByExchange
    ensures forall n :: n in fundsUsedByExchange ==> fundsUsedByExchange[n] == 0.0
  {
    queue := multiset{};
    fundsUsedByExchange := map[];
    for e := 0 to |exchanges|
      invariant queue == multiset(Collect(side, exchanges[..e]))
      invariant forall c :: c in queue ==> c.exchange in fundsUsedByExchange
      invariant forall n :: n in fundsUsedByExchange ==> fundsUsedByExchange[n] == 0.0
    {
      var name := exchanges[e].name;
      if name !in fundsUsedByExchange {
        fundsUsedByExchange := fundsUsedByExchange[name := 0.0];
      }
      queue := EnqueueBook(side, exchanges[e], queue);
      assert exchanges[..e + 1][..e] == exchanges[..e];
      assert Collect(side, exchanges[..e + 1]) == Collect(side, exchanges[..e]) + FromOne(side, exchanges[e]);
    }
    assert exchanges[..|exchanges|] == exchanges;
  }

  /** One exchange's share of the populate phase: its counter-side orders, in
      book order, tagged with its name and balances. */
  method EnqueueBook(side: OrderType, exchange: NamedExchange, queue0: multiset<Candidate>)
    returns (queue: multiset<Candidate>)
    ensures queue == queue0 + multiset(FromOne(side, exchange))
    ensures forall c :: c in queue ==> c in queue0 || c.exchange == exchange.name
  {
    var isBuy := side == Buy;
    var name := exchange.name;
    var data := exchange.data;
    var orders := if isBuy then data.book.asks else data.book.bids;
    queue := queue0;
    for j := 0 to |orders|
      invariant queue == queue0 + multiset(CollectOrders(side, exchange, orders[..j]))
      invariant forall c :: c in queue ==> c in queue0 || c.exchange == name
    {
      var order := orders[j].order;
      assert orders[..j + 1][..j] == orders[..j];
      if (isBuy && order.side == Sell) || (!isBuy && order.side == Buy) {
        queue := queue + multiset{Candidate(name, order, data.funds.crypto, data.funds.euro)};
      }
    }
    assert orders[..|orders|] == orders;
  }

  /** The dequeue phase of `ProcessOrderLargeSet`: whatever order the queue
      releases equally priced entries in, the result is the greedy walk, from
      the seeded ledger, over some price-sorted arrangement of the queued orders. */
  method DrainQueue(side: OrderType, queue0: multiset<Candidate>, funds0: map<string, real>, amount: real)
    returns (r: Result<seq<ExecutionOrder>>)
    requires forall c :: c in queue0 ==> c.exchange in funds0
    requires forall n :: n in funds0 ==> funds0[n] == 0.0
    ensures exists t :: && Sorted(side, t) && multiset(t) == queue0
                        && r == Finish(side, Walk(side, WalkState(amount, funds0, []), t))
  {
    var remainingAmount, fundsUsedByExchange, result, taken, queue := DequeueWhileShort(side, queue0, funds0, amount);
    // what came out, then the rest in price order, walks to the same state
    ghost var t := taken + Remaining(side, queue);
    DrainedArrangement(side, WalkState(amount, funds0, []), queue0, taken, queue);
    if remainingAmount > 0.0 {
      r := Err(InsufficientLiquidity(side, remainingAmount));
    } else {
      r := Ok(result);
    }
    assert r == Finish(side, Walk(side, WalkState(amount, funds0, []), t));
  }

  /** The dequeue loop itself. It stops with the queue empty or the request met,
      having served the best remaining entry on every pass; `taken` records the
      order the entries came out in and `queue` what is left. */
  method DequeueWhileShort(side: OrderType, queue0: multiset<Candidate>, funds0: map<string, real>, amount: real)
    returns (remainingAmount: real, fundsUsedByExchange: map<string, real>, result: seq<ExecutionOrder>,
             ghost taken: seq<Candidate>, ghost queue: multiset<Candidate>)
    requires forall c :: c in queue0 ==> c.exchange in funds0
    requires forall n :: n in funds0 ==> funds0[n] == 0.0
    // conservation: the request is split between what was filled and what is left
    ensures remainingAmount == amount - Total(result)
    ensures amount > 0.0 ==> remainingAmount >= 0.0
    ensures forall k :: 0 <= k < |result| ==> result[k].amount > 0.0
    ensures multiset(taken) + queue == queue0
    ensures Sorted(side, taken) && Precedes(side, taken, queue)
    ensures |queue| == 0 || remainingAmount <= 0.0
    ensures WalkState(remainingAmount, fundsUsedByExchange, result) == Walk(side, WalkState(amount, funds0, []), taken)
  {
    var pending := queue0;
    fundsUsedByExchange := funds0;
    remainingAmount := amount;
    result := [];
    taken := [];
    while |pending| > 0 && remainingAmount > 0.0
      invariant multiset(taken) + pending == queue0
      invariant Sorted(side, taken) && Precedes(side, taken, pending)
      invariant forall c :: c in pending ==> c.exchange in fundsUsedByExchange
      invariant WalkState(remainingAmount, fundsUsedByExchange, result) == Walk(side, WalkState(amount, funds0, []), taken)
      decreases |pending|
    {
      BestExists(side, pending);
      var c :| c in pending && IsBest(side, c, pending);
      DequeueBest(side, taken, pending, c);
      pending := pending - multiset{c};
      WalkUnfold(side, WalkState(amount, funds0, []), taken, c);
      remainingAmount, fundsUsedByExchange, result := TradeWith(side, remainingAmount, fundsUsedByExchange, result, c);
      taken := taken + [c];
    }
    queue := pending;
    WalkSeeded(side, amount, funds0, taken);
    WalkConserves(side, amount, taken);
  }

  /** When the dequeue loop stops, either the queue is empty or the request is
      met; either way the walk over what came out, followed by the rest in
      price order, ends where the loop did. */
  lemma DrainedArrangement(side: OrderType, seed: WalkState, queue0: multiset<Candidate>,
                           taken: seq<Candidate>, queue: multiset<Candidate>)
    requires multiset(taken) + queue == queue0
    requires Sorted(side, taken) && Precedes(side, taken, queue)
    requires |queue| == 0 || Walk(side, seed, taken).remaining <= 0.0
    ensures Sorted(side, taken + Remaining(side, queue))
    ensures multiset(taken + Remaining(side, queue)) == queue0
    ensures Walk(side, seed, taken + Remaining(side, queue)) == Walk(side, seed, taken)
  {
    ArrangeRest(side, taken, queue);
    if |queue| > 0 {
      WalkStopped(side, seed, taken, Remaining(side, queue));
    } else {
      assert taken + Remaining(side, queue) == taken;
    }
  }

  /** One pass of the dequeue loop: the dequeued order is served up to the
      remaining request and its size, within what its exchange has left. */
  method TradeWith(side: OrderType, remainingAmount: real, fundsUsedByExchange: map<string, real>,
                   result: seq<ExecutionOrder>, c: Candidate)
    returns (remaining': real, funds': map<string, real>, result': seq<ExecutionOrder>)
    requires remainingAmount > 0.0
    requires c.exchange in fundsUsedByExchange
    ensures WalkState(remaining', funds', result') == Step(side, WalkState(remainingAmount, fundsUsedByExchange, result), c)
    ensures forall n :: n in fundsUsedByExchange ==> n in funds'
  {
    var isBuy := side == Buy;
    remaining', funds', result' := remainingAmount, fundsUsedByExchange, result;
    var fundsAvailable := if isBuy then c.maxEur - funds'[c.exchange] else c.maxBtc - funds'[c.exchange];
    if fundsAvailable <= 0.0 {
      return;
    }
    var amountToTrade := Min(remainingAmount, c.order.amount);
    if isBuy {
      var eurNeeded := amountToTrade * c.order.price;
      if eurNeeded > fundsAvailable {
        amountToTrade := fundsAvailable / c.order.price;
      }
    } else {
      amountToTrade := Min(amountToTrade, fundsAvailable);
    }
    assert amountToTrade == FillAmount(side, remainingAmount, c.order, fundsAvailable);
    if amountToTrade > 0.0 {
      var spent := if isBuy then amountToTrade * c.order.price else amountToTrade;
      assert spent == Cost(side, amountToTrade, c.order.price);
      result' := result' + [ExecutionOrder(c.exchange, amountToTrade, c.order.price)];
      remaining' := remaining' - amountToTrade;
      funds' := funds'[c.exchange := funds'[c.exchange] + spent];
      // the C# loop's early `break` after this fill is the guard of the dequeue loop
    }
  }
}
