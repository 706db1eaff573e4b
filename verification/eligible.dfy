/**
  The eligible-order collector: the SelectMany/Where pipeline that gathers,
  across all exchanges and in encounter order, every resting order that can
  serve the request, each tagged with its exchange's name and balances.
 */
module Eligible {
  import opened Models

  /** A collected order together with its exchange's name and balance ceilings. */
  datatype Candidate = Candidate(exchange: string, order: Order, maxBtc: real, maxEur: real)

  /** The side a resting order must carry to serve a request of side `side`. */
  function Counter(side: OrderType): (c: OrderType)
    ensures c != side
  {
    if side == Buy then Sell else Buy
  }

  /** The book list a request draws from: asks for a Buy, bids for a Sell. */
  function BookSide(side: OrderType, book: OrderBook): seq<OrderWrapper>
  {
    if side == Buy then book.asks else book.bids
  }

  /** The ceiling the allocator reads for a candidate: EUR for a Buy, BTC for a Sell. */
  function Ceiling(side: OrderType, c: Candidate): real
  {
    if side == Buy then c.maxEur else c.maxBtc
  }

  /** The balance of an exchange that bounds a request of side `side`. */
  function Balance(side: OrderType, e: NamedExchange): real
  {
    if side == Buy then e.data.funds.euro else e.data.funds.crypto
  }

  /** A candidate that exchange `e` legitimately contributes to a `side` request. */
  predicate FromExchange(side: OrderType, e: NamedExchange, c: Candidate)
  {
    && c.exchange == e.name
    && c.maxBtc == e.data.funds.crypto
    && c.maxEur == e.data.funds.euro
    && c.order.side == Counter(side)
    && OrderWrapper(c.order) in BookSide(side, e.data.book)
  }

  /** The candidates drawn from the wrapped orders `ws` of exchange `e`, in book order. */
  function CollectOrders(side: OrderType, e: NamedExchange, ws: seq<OrderWrapper>): seq<Candidate>
  {
    if |ws| == 0 then []
    else
      var last := ws[|ws| - 1];
      var init := CollectOrders(side, e, ws[..|ws| - 1]);
      if last.order.side == Counter(side)
      then init + [Candidate(e.name, last.order, e.data.funds.crypto, e.data.funds.euro)]
      else init
  }

  /** The candidates of one exchange. */
  function FromOne(side: OrderType, e: NamedExchange): seq<Candidate>
  {
    CollectOrders(side, e, BookSide(side, e.data.book))
  }

  /** All candidates, exchange by exchange and within an exchange in book order
      (the SelectMany/Where order; no price order yet). */
  function Collect(side: OrderType, exchanges: seq<NamedExchange>): seq<Candidate>
  {
    if |exchanges| == 0 then []
    else
      var n := |exchanges| - 1;
      Collect(side, exchanges[..n]) + FromOne(side, exchanges[n])
  }

  /** Exactly the counter-side orders of `ws` are collected, each tagged with the
      exchange's name and balances. */
  lemma {:induction false} CollectOrdersMembers(side: OrderType, e: NamedExchange, ws: seq<OrderWrapper>)
    ensures forall c :: c in CollectOrders(side, e, ws) <==>
              && c == Candidate(e.name, c.order, e.data.funds.crypto, e.data.funds.euro)
              && c.order.side == Counter(side) && OrderWrapper(c.order) in ws
  {
    if |ws| > 0 {
      var last := ws[|ws| - 1];
      CollectOrdersMembers(side, e, ws[..|ws| - 1]);
      assert forall w :: w in ws <==> w == last || w in ws[..|ws| - 1];
    }
  }

  /** Eligibility of one exchange's orders: the counter side, from the right book list. */
  lemma FromOneMembers(side: OrderType, e: NamedExchange)
    ensures forall c :: c in FromOne(side, e) <==> FromExchange(side, e, c)
  {
    CollectOrdersMembers(side, e, BookSide(side, e.data.book));
  }

  /** Eligibility across exchanges: a candidate is collected exactly when some
      exchange legitimately contributes it. */
  lemma {:induction false} CollectMembers(side: OrderType, exchanges: seq<NamedExchange>)
    ensures forall c :: c in Collect(side, exchanges) <==>
              exists i :: 0 <= i < |exchanges| && FromExchange(side, exchanges[i], c)
  {
    if |exchanges| > 0 {
      var n := |exchanges| - 1;
      var init := Collect(side, exchanges[..n]);
      CollectMembers(side, exchanges[..n]);
      FromOneMembers(side, exchanges[n]);
      forall c ensures c in Collect(side, exchanges) <==>
                         exists i :: 0 <= i < |exchanges| && FromExchange(side, exchanges[i], c) {
        if c in init {
          var k :| 0 <= k < n && FromExchange(side, exchanges[..n][k], c);
          assert FromExchange(side, exchanges[k], c);
        }
        if exists i :: 0 <= i < n && FromExchange(side, exchanges[i], c) {
          var k :| 0 <= k < n && FromExchange(side, exchanges[k], c);
          assert exchanges[..n][k] == exchanges[k];
        }
      }
    }
  }

  /** How many copies of `c` exchange `e` contributes: as many as its right
      book list holds of the wrapped order, provided `c` carries the counter
      side and `e`'s name and balances; none otherwise. */
  function Copies(side: OrderType, e: NamedExchange, c: Candidate): nat
  {
    if c == Candidate(e.name, c.order, e.data.funds.crypto, e.data.funds.euro) && c.order.side == Counter(side)
    then multiset(BookSide(side, e.data.book))[OrderWrapper(c.order)]
    else 0
  }

  /** The copies of `c` that the exchanges of a list contribute together. */
  function CopiesAcross(side: OrderType, exchanges: seq<NamedExchange>, c: Candidate): nat
  {
    if |exchanges| == 0 then 0
    else CopiesAcross(side, exchanges[..|exchanges| - 1], c) + Copies(side, exchanges[|exchanges| - 1], c)
  }

  /** Every copy of an eligible order is collected, repeated orders included:
      the collector neither drops nor duplicates anything. */
  lemma {:induction false} CollectOrdersCount(side: OrderType, e: NamedExchange, ws: seq<OrderWrapper>, c: Candidate)
    ensures multiset(CollectOrders(side, e, ws))[c] ==
              if c == Candidate(e.name, c.order, e.data.funds.crypto, e.data.funds.euro) && c.order.side == Counter(side)
              then multiset(ws)[OrderWrapper(c.order)]
              else 0
  {
    if |ws| > 0 {
      var n := |ws| - 1;
      CollectOrdersCount(side, e, ws[..n], c);
      assert ws == ws[..n] + [ws[n]];
      assert multiset(ws) == multiset(ws[..n]) + multiset{ws[n]};
    }
  }

  /** Counting version of `CollectMembers`: the collected list holds each
      candidate exactly as often as the exchanges' books hold its order. */
  lemma {:induction false} CollectCount(side: OrderType, exchanges: seq<NamedExchange>, c: Candidate)
    ensures multiset(Collect(side, exchanges))[c] == CopiesAcross(side, exchanges, c)
  {
    if |exchanges| > 0 {
      var n := |exchanges| - 1;
      CollectCount(side, exchanges[..n], c);
      CollectOrdersCount(side, exchanges[n], BookSide(side, exchanges[n].data.book), c);
    }
  }

  /** Exchange names are pairwise distinct (the ledger is keyed by name). */
  predicate UniqueNames(exchanges: seq<NamedExchange>)
  {
    forall i, j :: 0 <= i < j < |exchanges| ==> exchanges[i].name != exchanges[j].name
  }

  /** With unique names, every collected candidate of exchange `i` carries that
      exchange's balance as its ceiling. */
  lemma CeilingIsBalance(side: OrderType, exchanges: seq<NamedExchange>, i: int, t: seq<Candidate>)
    requires UniqueNames(exchanges) && 0 <= i < |exchanges|
    requires multiset(t) == multiset(Collect(side, exchanges))
    ensures forall c :: c in t && c.exchange == exchanges[i].name ==> Ceiling(side, c) == Balance(side, exchanges[i])
  {
    forall c | c in t && c.exchange == exchanges[i].name
      ensures Ceiling(side, c) == Balance(side, exchanges[i])
    {
      assert c in multiset(t);
      CollectMembers(side, exchanges);
      assert c in Collect(side, exchanges);
      var j :| 0 <= j < |exchanges| && FromExchange(side, exchanges[j], c);
      assert j == i;
    }
  }
}
