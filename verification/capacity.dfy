/**
  A step in closed form. While the request is not yet met, serving a candidate
  trades the least of three quantities: the remaining request, the order's
  size, and the BTC its exchange can still absorb. The results about tied
  prices and about failing walks rest on this form.
 */
module Capacity {
  import opened Models
  import opened Eligible
  import opened Allocation

  /** Buy orders quote positive prices, so that EUR converts to BTC. */
  predicate PricedForSide(side: OrderType, c: Candidate)
  {
    side == Buy ==> c.order.price > 0.0
  }

  /** The BTC that `c`'s exchange can still absorb at `c`'s price: the BTC
      left for a Sell, what the EUR left pays for at a Buy. */
  function Room(side: OrderType, ledger: Ledger, c: Candidate): real
    requires PricedForSide(side, c)
  {
    var left := Ceiling(side, c) - Used(ledger, c.exchange);
    if side == Sell then left else left / c.order.price
  }

  /** The amount traded with `remaining` BTC still wanted, an order of size
      `amount`, and `room` BTC of capacity: nothing once the request is met,
      otherwise the least of the three, and never a negative amount. */
  function Take(remaining: real, amount: real, room: real): real
  {
    if remaining <= 0.0 then 0.0 else Max(0.0, Min(Min(remaining, amount), room))
  }

  /** What one step trades against `c`, as an amount. */
  function Gain(side: OrderType, st: WalkState, c: Candidate): real
    requires PricedForSide(side, c)
  {
    Take(st.remaining, c.order.amount, Room(side, st.ledger, c))
  }

  /** The amount a live step trades against a candidate whose exchange has
      capacity left, as a function of the three bounds. */
  lemma FillIsGain(side: OrderType, st: WalkState, c: Candidate)
    requires PricedForSide(side, c)
    requires st.remaining > 0.0
    requires Ceiling(side, c) - Used(st.ledger, c.exchange) > 0.0
    ensures var f := FillAmount(side, st.remaining, c.order, Ceiling(side, c) - Used(st.ledger, c.exchange));
            Gain(side, st, c) == if f > 0.0 then f else 0.0
  {
    FillAmountBounds(side, st.remaining, c.order, Ceiling(side, c) - Used(st.ledger, c.exchange));
  }

  /** A step trades exactly `Gain`. It takes that much off the remaining
      request and books its cost against the candidate's exchange only. */
  lemma StepGain(side: OrderType, st: WalkState, c: Candidate)
    requires PricedForSide(side, c)
    ensures Step(side, st, c).remaining == st.remaining - Gain(side, st, c)
    ensures Used(Step(side, st, c).ledger, c.exchange)
            == Used(st.ledger, c.exchange) + Cost(side, Gain(side, st, c), c.order.price)
    ensures forall n :: n != c.exchange ==> Used(Step(side, st, c).ledger, n) == Used(st.ledger, n)
  {
    if st.remaining > 0.0 {
      var ledger := if c.exchange in st.ledger then st.ledger else st.ledger[c.exchange := 0.0];
      var available := Ceiling(side, c) - ledger[c.exchange];
      assert available == Ceiling(side, c) - Used(st.ledger, c.exchange);
      assert forall n :: n != c.exchange ==> Used(ledger, n) == Used(st.ledger, n);
      if available <= 0.0 {
        if side == Buy {
          NoRoom(available, c.order.price);
        }
        assert Gain(side, st, c) == 0.0;
      } else {
        FillIsGain(side, st, c);
      }
    }
  }

  /** Nothing left to spend buys nothing. */
  lemma NoRoom(left: real, p: real)
    requires left <= 0.0 && p > 0.0
    ensures left / p <= 0.0
  {
    assert left / p * p == left;
  }
}
