/**
  Concrete books from the repository's unit tests, with the plan (or error)
  the allocator computes for each input. Where the code's answer differs from what a
  test asserts, the lemma states the code's answer.
 */
module Scenarios {
  import opened Models
  import opened Eligible
  import opened Priority
  import opened Allocation
  import opened MetaExchange
  import opened Guarantees

  /** A resting ask, tagged Sell as the test helper tags asks. */
  function Ask(price: real, amount: real): OrderWrapper
  {
    OrderWrapper(Order(Sell, amount, price))
  }

  /** A resting bid, tagged Buy as the test helper tags bids. */
  function Bid(price: real, amount: real): OrderWrapper
  {
    OrderWrapper(Order(Buy, amount, price))
  }

  /** An exchange snapshot whose id is its name, as the test helper builds them. */
  function Exchange(name: string, euro: real, crypto: real, asks: seq<OrderWrapper>, bids: seq<OrderWrapper>): NamedExchange
  {
    NamedExchange(name, ExchangeData(name, AvailableFunds(crypto, euro), OrderBook(bids, asks)))
  }

  // ---------------------------------------------------------------------------
  // Unfolding the pipeline on short literal inputs

  lemma CollectPair(side: OrderType, e1: NamedExchange, e2: NamedExchange)
    ensures Collect(side, [e1, e2]) == FromOne(side, e1) + FromOne(side, e2)
  {
    var one, two := [e1], [e1, e2];
    assert two[..1] == one && two[1] == e2;
    assert one[..0] == [] && one[0] == e1;
    assert Collect(side, one) == FromOne(side, e1) by {
      assert Collect(side, one) == Collect(side, []) + FromOne(side, e1);
    }
  }

  lemma CollectTriple(side: OrderType, e1: NamedExchange, e2: NamedExchange, e3: NamedExchange)
    ensures Collect(side, [e1, e2, e3]) == FromOne(side, e1) + FromOne(side, e2) + FromOne(side, e3)
  {
    assert [e1, e2, e3][..2] == [e1, e2];
    CollectPair(side, e1, e2);
  }

  /** An exchange with one counter-side order in the right list contributes exactly it. */
  lemma FromSingle(side: OrderType, e: NamedExchange, w: OrderWrapper)
    requires BookSide(side, e.data.book) == [w] && w.order.side == Counter(side)
    ensures FromOne(side, e) == [Candidate(e.name, w.order, e.data.funds.crypto, e.data.funds.euro)]
  {
    assert [w][..0] == [];
    assert CollectOrders(side, e, [w]) == CollectOrders(side, e, []) + [Candidate(e.name, w.order, e.data.funds.crypto, e.data.funds.euro)];
  }

  /** An exchange with an empty list on the right side contributes nothing. */
  lemma FromNone(side: OrderType, e: NamedExchange)
    requires BookSide(side, e.data.book) == []
    ensures FromOne(side, e) == []
  {
  }

  lemma SortPair(side: OrderType, a: Candidate, b: Candidate)
    ensures SortByPriority(side, [a, b]) == if Better(side, b.order.price, a.order.price) then [b, a] else [a, b]
  {
    assert [a, b][..1] == [a];
    assert [a][..0] == [];
    assert Insert(side, [], a) == [a];
    assert [a][1..] == [];
  }

  lemma SortUnfold(side: OrderType, a: Candidate, b: Candidate, c: Candidate)
    ensures SortByPriority(side, [a, b, c]) == Insert(side, SortByPriority(side, [a, b]), c)
  {
    assert [a, b, c][..2] == [a, b];
  }

  lemma InsertLast(side: OrderType, a: Candidate, b: Candidate, c: Candidate)
    requires !Better(side, b.order.price, a.order.price) && !Better(side, c.order.price, b.order.price)
    ensures Insert(side, [a, b], c) == [a, b, c]
  {
    assert [a, b][1..] == [b];
    assert [b][1..] == [];
    assert Insert(side, [b], c) == [b] + Insert(side, [], c) == [b, c];
  }

  lemma SortTriple(side: OrderType, a: Candidate, b: Candidate, c: Candidate)
    requires !Better(side, b.order.price, a.order.price) && !Better(side, c.order.price, b.order.price)
    ensures SortByPriority(side, [a, b, c]) == [a, b, c]
  {
    SortUnfold(side, a, b, c);
    SortPair(side, a, b);
    InsertLast(side, a, b, c);
  }

  lemma WalkPair(side: OrderType, st: WalkState, a: Candidate, b: Candidate)
    ensures Walk(side, st, [a, b]) == Step(side, Step(side, st, a), b)
  {
    assert [a, b][..1] == [a];
    assert [a][..0] == [];
    assert Walk(side, st, [a]) == Step(side, Walk(side, st, []), a);
    assert Walk(side, st, [a, b]) == Step(side, Walk(side, st, [a]), b);
  }

  lemma WalkTriple(side: OrderType, st: WalkState, a: Candidate, b: Candidate, c: Candidate)
    ensures Walk(side, st, [a, b, c]) == Step(side, Step(side, Step(side, st, a), b), c)
  {
    assert [a, b, c][..2] == [a, b];
    WalkPair(side, st, a, b);
  }

  /** The candidate exchange `e` contributes for its wrapped order `w`. */
  function Tagged(e: NamedExchange, w: OrderWrapper): Candidate
  {
    Candidate(e.name, w.order, e.data.funds.crypto, e.data.funds.euro)
  }

  /** Three exchanges with one eligible order each, already in price order. */
  lemma SortedTriple(side: OrderType, e1: NamedExchange, e2: NamedExchange, e3: NamedExchange,
                     w1: OrderWrapper, w2: OrderWrapper, w3: OrderWrapper)
    requires BookSide(side, e1.data.book) == [w1] && w1.order.side == Counter(side)
    requires BookSide(side, e2.data.book) == [w2] && w2.order.side == Counter(side)
    requires BookSide(side, e3.data.book) == [w3] && w3.order.side == Counter(side)
    requires !Better(side, w2.order.price, w1.order.price) && !Better(side, w3.order.price, w2.order.price)
    ensures SortByPriority(side, Collect(side, [e1, e2, e3])) == [Tagged(e1, w1), Tagged(e2, w2), Tagged(e3, w3)]
  {
    CollectTriple(side, e1, e2, e3);
    FromSingle(side, e1, w1);
    FromSingle(side, e2, w2);
    FromSingle(side, e3, w3);
    assert Collect(side, [e1, e2, e3]) == [Tagged(e1, w1)] + [Tagged(e2, w2)] + [Tagged(e3, w3)];
    assert [Tagged(e1, w1)] + [Tagged(e2, w2)] + [Tagged(e3, w3)] == [Tagged(e1, w1), Tagged(e2, w2), Tagged(e3, w3)];
    SortTriple(side, Tagged(e1, w1), Tagged(e2, w2), Tagged(e3, w3));
  }

  /** Two exchanges with one eligible order each, already in price order. */
  lemma SortedPair(side: OrderType, e1: NamedExchange, e2: NamedExchange, w1: OrderWrapper, w2: OrderWrapper)
    requires BookSide(side, e1.data.book) == [w1] && w1.order.side == Counter(side)
    requires BookSide(side, e2.data.book) == [w2] && w2.order.side == Counter(side)
    requires !Better(side, w2.order.price, w1.order.price)
    ensures SortByPriority(side, Collect(side, [e1, e2])) == [Tagged(e1, w1), Tagged(e2, w2)]
  {
    CollectPair(side, e1, e2);
    FromSingle(side, e1, w1);
    FromSingle(side, e2, w2);
    assert Collect(side, [e1, e2]) == [Tagged(e1, w1)] + [Tagged(e2, w2)] == [Tagged(e1, w1), Tagged(e2, w2)];
    SortPair(side, Tagged(e1, w1), Tagged(e2, w2));
  }

  /** A live step against an exchange with capacity left emits the fill
      `FillAmount` computes and leaves every other exchange's ledger alone. */
  lemma StepFills(side: OrderType, st: WalkState, c: Candidate, f: real)
    requires st.remaining > 0.0 && Ceiling(side, c) - Used(st.ledger, c.exchange) > 0.0
    requires f == FillAmount(side, st.remaining, c.order, Ceiling(side, c) - Used(st.ledger, c.exchange)) && f > 0.0
    ensures Step(side, st, c).remaining == st.remaining - f
    ensures Step(side, st, c).fills == st.fills + [ExecutionOrder(c.exchange, f, c.order.price)]
    ensures forall n :: n != c.exchange ==> Used(Step(side, st, c).ledger, n) == Used(st.ledger, n)
    ensures Used(Step(side, st, c).ledger, c.exchange) == Used(st.ledger, c.exchange) + Cost(side, f, c.order.price)
  {
    StepSpec(side, st, c);
  }

  /** Once the request is covered, a step changes nothing. */
  lemma StepIdle(side: OrderType, st: WalkState, c: Candidate)
    requires st.remaining <= 0.0
    ensures Step(side, st, c) == st
  {
  }

  /** Buying 3 BTC takes all of it from the cheaper ask. */
  lemma BuySimpleCase()
    ensures SortAndScan([Exchange("ex1", 20000.0, 3.0, [Ask(3000.0, 5.0)], []),
                         Exchange("ex2", 20000.0, 9.0, [Ask(3100.0, 5.0)], [])],
                        OrderRequest(Buy, 3.0))
            == Ok([ExecutionOrder("ex1", 3.0, 3000.0)])
  {
    var e1 := Exchange("ex1", 20000.0, 3.0, [Ask(3000.0, 5.0)], []);
    var e2 := Exchange("ex2", 20000.0, 9.0, [Ask(3100.0, 5.0)], []);
    SortedPair(Buy, e1, e2, Ask(3000.0, 5.0), Ask(3100.0, 5.0));
    BuySimpleCaseWalk();
  }

  /** The walk of `BuySimpleCase` over its two sorted candidates. */
  lemma BuySimpleCaseWalk()
    ensures var w := Walk(Buy, Start(3.0), [Candidate("ex1", Order(Sell, 5.0, 3000.0), 3.0, 20000.0),
                                            Candidate("ex2", Order(Sell, 5.0, 3100.0), 9.0, 20000.0)]);
            w.remaining == 0.0 && w.fills == [ExecutionOrder("ex1", 3.0, 3000.0)]
  {
    var a := Candidate("ex1", Order(Sell, 5.0, 3000.0), 3.0, 20000.0);
    var b := Candidate("ex2", Order(Sell, 5.0, 3100.0), 9.0, 20000.0);
    WalkPair(Buy, Start(3.0), a, b);
    assert FillAmount(Buy, 3.0, a.order, 20000.0) == 3.0;
    StepFills(Buy, Start(3.0), a, 3.0);
    StepIdle(Buy, Step(Buy, Start(3.0), a), b);
  }

  /** Selling 3 BTC takes all of it from the dearer bid. */
  lemma SellSimpleCase()
    ensures SortAndScan([Exchange("ex1", 50000.0, 5.0, [], [Bid(3000.0, 5.0)]),
                         Exchange("ex2", 50000.0, 5.0, [], [Bid(2900.0, 5.0)])],
                        OrderRequest(Sell, 3.0))
            == Ok([ExecutionOrder("ex1", 3.0, 3000.0)])
  {
    var e1 := Exchange("ex1", 50000.0, 5.0, [], [Bid(3000.0, 5.0)]);
    var e2 := Exchange("ex2", 50000.0, 5.0, [], [Bid(2900.0, 5.0)]);
    SortedPair(Sell, e1, e2, Bid(3000.0, 5.0), Bid(2900.0, 5.0));
    SellSimpleCaseWalk();
  }

  /** The walk of `SellSimpleCase` over its two sorted candidates. */
  lemma SellSimpleCaseWalk()
    ensures var w := Walk(Sell, Start(3.0), [Candidate("ex1", Order(Buy, 5.0, 3000.0), 5.0, 50000.0),
                                             Candidate("ex2", Order(Buy, 5.0, 2900.0), 5.0, 50000.0)]);
            w.remaining == 0.0 && w.fills == [ExecutionOrder("ex1", 3.0, 3000.0)]
  {
    var a := Candidate("ex1", Order(Buy, 5.0, 3000.0), 5.0, 50000.0);
    var b := Candidate("ex2", Order(Buy, 5.0, 2900.0), 5.0, 50000.0);
    WalkPair(Sell, Start(3.0), a, b);
    assert FillAmount(Sell, 3.0, a.order, 5.0) == 3.0;
    StepFills(Sell, Start(3.0), a, 3.0);
    StepIdle(Sell, Step(Sell, Start(3.0), a), b);
  }

  /** Selling 5 BTC: the best bid's exchange can deliver only its 2 BTC, the
      next bid takes the other 3, the worst bid is never reached. */
  lemma SellMultipleExchanges()
    ensures SortAndScan([Exchange("ex1", 50000.0, 2.0, [], [Bid(3100.0, 2.0)]),
                         Exchange("ex2", 50000.0, 5.0, [], [Bid(3000.0, 5.0)]),
                         Exchange("ex3", 50000.0, 5.0, [], [Bid(2900.0, 5.0)])],
                        OrderRequest(Sell, 5.0))
            == Ok([ExecutionOrder("ex1", 2.0, 3100.0), ExecutionOrder("ex2", 3.0, 3000.0)])
  {
    var e1 := Exchange("ex1", 50000.0, 2.0, [], [Bid(3100.0, 2.0)]);
    var e2 := Exchange("ex2", 50000.0, 5.0, [], [Bid(3000.0, 5.0)]);
    var e3 := Exchange("ex3", 50000.0, 5.0, [], [Bid(2900.0, 5.0)]);
    SortedTriple(Sell, e1, e2, e3, Bid(3100.0, 2.0), Bid(3000.0, 5.0), Bid(2900.0, 5.0));
    SellMultipleExchangesWalk();
  }

  /** The walk of `SellMultipleExchanges` over its three sorted candidates. */
  lemma SellMultipleExchangesWalk()
    ensures var w := Walk(Sell, Start(5.0), [Candidate("ex1", Order(Buy, 2.0, 3100.0), 2.0, 50000.0),
                                             Candidate("ex2", Order(Buy, 5.0, 3000.0), 5.0, 50000.0),
                                             Candidate("ex3", Order(Buy, 5.0, 2900.0), 5.0, 50000.0)]);
            w.remaining == 0.0 && w.fills == [ExecutionOrder("ex1", 2.0, 3100.0), ExecutionOrder("ex2", 3.0, 3000.0)]
  {
    var a := Candidate("ex1", Order(Buy, 2.0, 3100.0), 2.0, 50000.0);
    var b := Candidate("ex2", Order(Buy, 5.0, 3000.0), 5.0, 50000.0);
    var c := Candidate("ex3", Order(Buy, 5.0, 2900.0), 5.0, 50000.0);
    var w1 := Step(Sell, Start(5.0), a);
    assert FillAmount(Sell, 5.0, a.order, 2.0) == 2.0;
    StepFills(Sell, Start(5.0), a, 2.0);
    var w2 := Step(Sell, w1, b);
    assert FillAmount(Sell, 3.0, b.order, 5.0) == 3.0;
    StepFills(Sell, w1, b, 3.0);
    WalkTriple(Sell, Start(5.0), a, b, c);
  }

  /** Selling 3 BTC with 1 BTC on each exchange fails with 1 BTC left over. */
  lemma SellInsufficientBtcBalance()
    ensures SortAndScan([Exchange("ex1", 50000.0, 1.0, [], [Bid(3100.0, 2.0)]),
                         Exchange("ex2", 50000.0, 1.0, [], [Bid(3000.0, 5.0)])],
                        OrderRequest(Sell, 3.0))
            == Err(InsufficientLiquidity(Sell, 1.0))
  {
    var e1 := Exchange("ex1", 50000.0, 1.0, [], [Bid(3100.0, 2.0)]);
    var e2 := Exchange("ex2", 50000.0, 1.0, [], [Bid(3000.0, 5.0)]);
    SortedPair(Sell, e1, e2, Bid(3100.0, 2.0), Bid(3000.0, 5.0));
    SellInsufficientBtcBalanceWalk();
  }

  /** The walk of `SellInsufficientBtcBalance` over its two sorted candidates. */
  lemma SellInsufficientBtcBalanceWalk()
    ensures var w := Walk(Sell, Start(3.0), [Candidate("ex1", Order(Buy, 2.0, 3100.0), 1.0, 50000.0),
                                             Candidate("ex2", Order(Buy, 5.0, 3000.0), 1.0, 50000.0)]);
            w.remaining == 1.0
  {
    var a := Candidate("ex1", Order(Buy, 2.0, 3100.0), 1.0, 50000.0);
    var b := Candidate("ex2", Order(Buy, 5.0, 3000.0), 1.0, 50000.0);
    WalkPair(Sell, Start(3.0), a, b);
    var w1 := Step(Sell, Start(3.0), a);
    assert FillAmount(Sell, 3.0, a.order, 1.0) == 1.0;
    StepFills(Sell, Start(3.0), a, 1.0);
    assert FillAmount(Sell, 2.0, b.order, 1.0) == 1.0;
    StepFills(Sell, w1, b, 1.0);
  }

  /** With empty books on both sides, a request fails with all of it left over. */
  lemma EmptyBooks(side: OrderType)
    ensures SortAndScan([Exchange("ex1", 50000.0, 5.0, [], []),
                         Exchange("ex2", 50000.0, 5.0, [], [])],
                        OrderRequest(side, 3.0))
            == Err(InsufficientLiquidity(side, 3.0))
  {
    var e1 := Exchange("ex1", 50000.0, 5.0, [], []);
    var e2 := Exchange("ex2", 50000.0, 5.0, [], []);
    CollectPair(side, e1, e2);
    FromNone(side, e1);
    FromNone(side, e2);
    assert Walk(side, Start(3.0), SortByPriority(side, [])) == Start(3.0);
  }

  /** Buying 3 BTC from two exchanges with empty books fails with 3 BTC left. */
  lemma BuyNoOrders()
    ensures SortAndScan([Exchange("ex1", 50000.0, 5.0, [], []),
                         Exchange("ex2", 50000.0, 5.0, [], [])],
                        OrderRequest(Buy, 3.0))
            == Err(InsufficientLiquidity(Buy, 3.0))
  {
    EmptyBooks(Buy);
  }

  /** Selling 3 BTC to two exchanges with empty books fails with 3 BTC left. */
  lemma SellNoOrders()
    ensures SortAndScan([Exchange("ex1", 50000.0, 5.0, [], []),
                         Exchange("ex2", 50000.0, 5.0, [], [])],
                        OrderRequest(Sell, 3.0))
            == Err(InsufficientLiquidity(Sell, 3.0))
  {
    EmptyBooks(Sell);
  }

  /** Buying 5 BTC where the cheapest exchange can pay for all of its ask: the
      buy is capped by EUR only, so the plan is 2 BTC from ex1 and 3 from ex2. */
  lemma BuyMultipleExchanges()
    ensures SortAndScan([Exchange("ex1", 10000.0, 1.0, [Ask(3000.0, 2.0)], []),
                         Exchange("ex2", 20000.0, 3.0, [Ask(3100.0, 5.0)], []),
                         Exchange("ex3", 22000.0, 4.0, [Ask(3200.0, 5.0)], [])],
                        OrderRequest(Buy, 5.0))
            == Ok([ExecutionOrder("ex1", 2.0, 3000.0), ExecutionOrder("ex2", 3.0, 3100.0)])
  {
    var e1 := Exchange("ex1", 10000.0, 1.0, [Ask(3000.0, 2.0)], []);
    var e2 := Exchange("ex2", 20000.0, 3.0, [Ask(3100.0, 5.0)], []);
    var e3 := Exchange("ex3", 22000.0, 4.0, [Ask(3200.0, 5.0)], []);
    SortedTriple(Buy, e1, e2, e3, Ask(3000.0, 2.0), Ask(3100.0, 5.0), Ask(3200.0, 5.0));
    BuyMultipleExchangesWalk();
  }

  /** The walk of `BuyMultipleExchanges` over its three sorted candidates. */
  lemma BuyMultipleExchangesWalk()
    ensures var w := Walk(Buy, Start(5.0), [Candidate("ex1", Order(Sell, 2.0, 3000.0), 1.0, 10000.0),
                                             Candidate("ex2", Order(Sell, 5.0, 3100.0), 3.0, 20000.0),
                                             Candidate("ex3", Order(Sell, 5.0, 3200.0), 4.0, 22000.0)]);
            w.remaining == 0.0 && w.fills == [ExecutionOrder("ex1", 2.0, 3000.0), ExecutionOrder("ex2", 3.0, 3100.0)]
  {
    var a := Candidate("ex1", Order(Sell, 2.0, 3000.0), 1.0, 10000.0);
    var b := Candidate("ex2", Order(Sell, 5.0, 3100.0), 3.0, 20000.0);
    var c := Candidate("ex3", Order(Sell, 5.0, 3200.0), 4.0, 22000.0);
    var w1 := Step(Buy, Start(5.0), a);
    assert FillAmount(Buy, 5.0, a.order, 10000.0) == 2.0;
    StepFills(Buy, Start(5.0), a, 2.0);
    var w2 := Step(Buy, w1, b);
    assert FillAmount(Buy, 3.0, b.order, 20000.0) == 3.0;
    StepFills(Buy, w1, b, 3.0);
    WalkTriple(Buy, Start(5.0), a, b, c);
  }

  /** Buying 3 BTC against 1 BTC at 3000 (5000 EUR) and 1 BTC at 3100 (2000 EUR):
      the first ask fills whole, the second shrinks to what 2000 EUR buys, and
      the error carries what is left, 2 - 2000/3100 BTC. */
  lemma BuyInsufficientLiquidity()
    ensures SortAndScan([Exchange("ex1", 5000.0, 0.0, [Ask(3000.0, 1.0)], []),
                         Exchange("ex2", 2000.0, 0.0, [Ask(3100.0, 1.0)], [])],
                        OrderRequest(Buy, 3.0))
            == Err(InsufficientLiquidity(Buy, 2.0 - 2000.0 / 3100.0))
  {
    var e1 := Exchange("ex1", 5000.0, 0.0, [Ask(3000.0, 1.0)], []);
    var e2 := Exchange("ex2", 2000.0, 0.0, [Ask(3100.0, 1.0)], []);
    SortedPair(Buy, e1, e2, Ask(3000.0, 1.0), Ask(3100.0, 1.0));
    BuyInsufficientLiquidityWalk();
  }

  /** The walk of `BuyInsufficientLiquidity` over its two sorted candidates. */
  lemma BuyInsufficientLiquidityWalk()
    ensures var w := Walk(Buy, Start(3.0), [Candidate("ex1", Order(Sell, 1.0, 3000.0), 0.0, 5000.0),
                                            Candidate("ex2", Order(Sell, 1.0, 3100.0), 0.0, 2000.0)]);
            w.remaining == 2.0 - 2000.0 / 3100.0
  {
    var a := Candidate("ex1", Order(Sell, 1.0, 3000.0), 0.0, 5000.0);
    var b := Candidate("ex2", Order(Sell, 1.0, 3100.0), 0.0, 2000.0);
    WalkPair(Buy, Start(3.0), a, b);
    var w1 := Step(Buy, Start(3.0), a);
    assert FillAmount(Buy, 3.0, a.order, 5000.0) == 1.0;
    StepFills(Buy, Start(3.0), a, 1.0);
    assert FillAmount(Buy, 2.0, b.order, 2000.0) == 2000.0 / 3100.0;
    StepFills(Buy, w1, b, 2000.0 / 3100.0);
  }

  // ---------------------------------------------------------------------------
  // Tied prices: the two strategies may disagree

  /** An exchange whose right book list holds two counter-side orders. */
  lemma FromDouble(side: OrderType, e: NamedExchange, w1: OrderWrapper, w2: OrderWrapper)
    requires BookSide(side, e.data.book) == [w1, w2]
    requires w1.order.side == Counter(side) && w2.order.side == Counter(side)
    ensures FromOne(side, e) == [Tagged(e, w1), Tagged(e, w2)]
  {
    assert [w1, w2][..1] == [w1];
    assert [w1][..0] == [];
    assert CollectOrders(side, e, [w1]) == CollectOrders(side, e, []) + [Tagged(e, w1)];
    assert CollectOrders(side, e, [w1, w2]) == CollectOrders(side, e, [w1]) + [Tagged(e, w2)];
  }

  /** The books of the tie example: ex1 holds 1.5 BTC and two bids at 100,
      ex2 holds 10 BTC and one bid at 100. */
  function TieBooks(): seq<NamedExchange>
  {
    [Exchange("ex1", 0.0, 1.5, [], [Bid(100.0, 1.0), Bid(100.0, 1.0)]),
     Exchange("ex2", 0.0, 10.0, [], [Bid(100.0, 1.0)])]
  }

  /** The eligible orders of `TieBooks` for a sell, in encounter order. */
  lemma TieCandidates()
    ensures Collect(Sell, TieBooks()) == [Candidate("ex1", Order(Buy, 1.0, 100.0), 1.5, 0.0),
                                          Candidate("ex1", Order(Buy, 1.0, 100.0), 1.5, 0.0),
                                          Candidate("ex2", Order(Buy, 1.0, 100.0), 10.0, 0.0)]
  {
    var e1, e2 := TieBooks()[0], TieBooks()[1];
    assert TieBooks() == [e1, e2];
    CollectPair(Sell, e1, e2);
    FromDouble(Sell, e1, Bid(100.0, 1.0), Bid(100.0, 1.0));
    FromSingle(Sell, e2, Bid(100.0, 1.0));
  }

  /** Selling 2 BTC over the encounter-order arrangement: ex1's first bid fills
      whole, its second only up to the 0.5 BTC ex1 has left, ex2 supplies the rest. */
  lemma TieEncounterWalk()
    ensures var w := Walk(Sell, Start(2.0), [Candidate("ex1", Order(Buy, 1.0, 100.0), 1.5, 0.0),
                                             Candidate("ex1", Order(Buy, 1.0, 100.0), 1.5, 0.0),
                                             Candidate("ex2", Order(Buy, 1.0, 100.0), 10.0, 0.0)]);
            w.remaining == 0.0
            && w.fills == [ExecutionOrder("ex1", 1.0, 100.0), ExecutionOrder("ex1", 0.5, 100.0),
                           ExecutionOrder("ex2", 0.5, 100.0)]
  {
    var a := Candidate("ex1", Order(Buy, 1.0, 100.0), 1.5, 0.0);
    var b := Candidate("ex2", Order(Buy, 1.0, 100.0), 10.0, 0.0);
    WalkTriple(Sell, Start(2.0), a, a, b);
    var w1 := Step(Sell, Start(2.0), a);
    assert FillAmount(Sell, 2.0, a.order, 1.5) == 1.0;
    StepFills(Sell, Start(2.0), a, 1.0);
    var w2 := Step(Sell, w1, a);
    assert FillAmount(Sell, 1.0, a.order, 0.5) == 0.5;
    StepFills(Sell, w1, a, 0.5);
    assert FillAmount(Sell, 0.5, b.order, 10.0) == 0.5;
    StepFills(Sell, w2, b, 0.5);
  }

  /** Selling 2 BTC with ex2's bid dequeued first: two whole fills. */
  lemma TieOtherWalk()
    ensures var w := Walk(Sell, Start(2.0), [Candidate("ex2", Order(Buy, 1.0, 100.0), 10.0, 0.0),
                                             Candidate("ex1", Order(Buy, 1.0, 100.0), 1.5, 0.0),
                                             Candidate("ex1", Order(Buy, 1.0, 100.0), 1.5, 0.0)]);
            w.remaining == 0.0
            && w.fills == [ExecutionOrder("ex2", 1.0, 100.0), ExecutionOrder("ex1", 1.0, 100.0)]
  {
    var a := Candidate("ex1", Order(Buy, 1.0, 100.0), 1.5, 0.0);
    var b := Candidate("ex2", Order(Buy, 1.0, 100.0), 10.0, 0.0);
    WalkTriple(Sell, Start(2.0), b, a, a);
    var w1 := Step(Sell, Start(2.0), b);
    assert FillAmount(Sell, 2.0, b.order, 10.0) == 1.0;
    StepFills(Sell, Start(2.0), b, 1.0);
    assert FillAmount(Sell, 1.0, a.order, 1.5) == 1.0;
    StepFills(Sell, w1, a, 1.0);
    StepIdle(Sell, Step(Sell, w1, a), a);
  }

  /** The sort-then-scan answer on the tie example. */
  lemma TieSortAndScan()
    ensures SortAndScan(TieBooks(), OrderRequest(Sell, 2.0))
            == Ok([ExecutionOrder("ex1", 1.0, 100.0), ExecutionOrder("ex1", 0.5, 100.0),
                   ExecutionOrder("ex2", 0.5, 100.0)])
  {
    var a := Candidate("ex1", Order(Buy, 1.0, 100.0), 1.5, 0.0);
    var b := Candidate("ex2", Order(Buy, 1.0, 100.0), 10.0, 0.0);
    TieCandidates();
    SortTriple(Sell, a, a, b);
    TieEncounterWalk();
  }

  /** Putting ex2's bid first still sorts the tie example's orders by price. */
  lemma TieOtherArrangement()
    ensures var a := Candidate("ex1", Order(Buy, 1.0, 100.0), 1.5, 0.0);
            var b := Candidate("ex2", Order(Buy, 1.0, 100.0), 10.0, 0.0);
            Sorted(Sell, [b, a, a]) && multiset([b, a, a]) == multiset([a, a, b])
  {
  }

  /** With tied prices, the priority queue may dequeue the three equally priced
      bids in an order the stable sort does not produce, and that order changes
      the plan: the sort-then-scan strategy answers with three fills, while
      another price-sorted arrangement of the same orders, which the contract of
      `ProcessOrderLargeSet` admits, answers with two. */
  lemma TiedPricesDiverge()
    ensures var all := Collect(Sell, TieBooks());
            var other := [all[2], all[0], all[1]];
            && Sorted(Sell, other) && multiset(other) == multiset(all)
            && SortAndScan(TieBooks(), OrderRequest(Sell, 2.0))
               == Ok([ExecutionOrder("ex1", 1.0, 100.0), ExecutionOrder("ex1", 0.5, 100.0),
                      ExecutionOrder("ex2", 0.5, 100.0)])
            && Finish(Sell, Walk(Sell, Start(2.0), other))
               == Ok([ExecutionOrder("ex2", 1.0, 100.0), ExecutionOrder("ex1", 1.0, 100.0)])
  {
    var a := Candidate("ex1", Order(Buy, 1.0, 100.0), 1.5, 0.0);
    var b := Candidate("ex2", Order(Buy, 1.0, 100.0), 10.0, 0.0);
    TieCandidates();
    TieOtherArrangement();
    TieSortAndScan();
    TieOtherWalk();
  }

  /** One exchange with 1000 EUR and a single ask of 1 BTC at 100, asked for
      2 BTC: the code buys the one BTC on offer and fails with 1 BTC left. */
  lemma SingleAsk()
    ensures SortAndScan([Exchange("ex1", 1000.0, 0.0, [Ask(100.0, 1.0)], [])], OrderRequest(Buy, 2.0))
            == Err(InsufficientLiquidity(Buy, 1.0))
  {
    var e := Exchange("ex1", 1000.0, 0.0, [Ask(100.0, 1.0)], []);
    var c := Candidate("ex1", Order(Sell, 1.0, 100.0), 0.0, 1000.0);
    SingleAskCollected();
    assert SortByPriority(Buy, [c]) == [c] by {
      assert [c][..0] == [];
    }
    assert Walk(Buy, Start(2.0), [c]) == Step(Buy, Start(2.0), c) by {
      assert [c][..0] == [];
    }
    assert FillAmount(Buy, 2.0, c.order, 1000.0) == 1.0;
    StepFills(Buy, Start(2.0), c, 1.0);
  }

  /** The single ask of `SingleAsk` is its only eligible order. */
  lemma SingleAskCollected()
    ensures Collect(Buy, [Exchange("ex1", 1000.0, 0.0, [Ask(100.0, 1.0)], [])])
            == [Candidate("ex1", Order(Sell, 1.0, 100.0), 0.0, 1000.0)]
  {
    var e := Exchange("ex1", 1000.0, 0.0, [Ask(100.0, 1.0)], []);
    assert [e][..0] == [];
    assert Collect(Buy, [e]) == Collect(Buy, []) + FromOne(Buy, e);
    FromSingle(Buy, e, Ask(100.0, 1.0));
  }

  /** Charging two 1 BTC fills to the single 1 BTC ask of `SingleAsk` would
      cover the request, yet breaks the plan contract: no order backs two
      fills. */
  lemma DoubleChargeRejected()
    ensures var f := ExecutionOrder("ex1", 1.0, 100.0);
            !PlanGuarantees(Buy, [Exchange("ex1", 1000.0, 0.0, [Ask(100.0, 1.0)], [])], 2.0, Ok([f, f]))
  {
    var f := ExecutionOrder("ex1", 1.0, 100.0);
    var c := Candidate("ex1", Order(Sell, 1.0, 100.0), 0.0, 1000.0);
    SingleAskCollected();
    forall t, idx | multiset(t) == multiset([c]) ensures !Matched([f, f], t, idx) {
      assert |t| == |multiset(t)| == 1;
      if |idx| == 2 {
        // two strictly increasing indices do not fit into one position
        assert !(0 <= idx[0] < idx[1] < |t|);
      }
    }
  }
}
