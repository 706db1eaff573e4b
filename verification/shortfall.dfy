/**
  Failing walks. A request the walk cannot fill is not failed early: when the
  walk ends short, every exchange has booked all it could, namely the least of
  its balance and what its eligible orders ask for in full.
 */
module Shortfall {
  import opened Models
  import opened Eligible
  import opened Allocation
  import opened Capacity
  import opened Ties

  /** What serving `c` in full books against its exchange: BTC for a Sell,
      EUR for a Buy; an order of no positive size books nothing. */
  function Demand(side: OrderType, c: Candidate): real
  {
    Max(0.0, Cost(side, c.order.amount, c.order.price))
  }

  /** The demand of the candidates of `s` quoting exchange `name`. */
  function DemandOf(side: OrderType, s: seq<Candidate>, name: string): (d: real)
    ensures d >= 0.0
  {
    if |s| == 0 then 0.0
    else
      var last := s[|s| - 1];
      DemandOf(side, s[..|s| - 1], name) + (if last.exchange == name then Demand(side, last) else 0.0)
  }

  /** The demand the eligible orders of exchange `e` put on it. */
  function ExchangeDemand(side: OrderType, e: NamedExchange): real
  {
    DemandOf(side, FromOne(side, e), e.name)
  }

  /** A take that leaves part of the request open was cut by the order or by
      the room, not by the request. */
  lemma ShortTake(r: real, a: real, room: real)
    requires r > 0.0 && Take(r, a, room) < r
    ensures Take(r, a, room) == Max(0.0, Min(a, room))
  {
  }

  /** At a positive price, the EUR of the BTC that fits in `left / p` is the
      EUR that fits in `left`. */
  lemma BuyShortTake(a: real, p: real, left: real)
    requires p > 0.0
    ensures Max(0.0, Min(a, left / p)) * p == Max(0.0, Min(a * p, left))
  {
    if a <= left / p {
      assert a * p <= left / p * p;
    } else {
      assert a * p > left / p * p;
    }
    assert left / p * p == left;
  }

  /** Booking the part of demand `d` that fits under `bound` keeps the
      consumption at the least of the bound and the demand seen. */
  lemma Saturate(u: real, bound: real, seen: real, d: real)
    requires seen >= 0.0 && u == Min(Max(0.0, bound), seen)
    ensures u + Max(0.0, Min(d, bound - u)) == Min(Max(0.0, bound), seen + Max(0.0, d))
  {
  }

  /** A step that leaves the request open books all of the candidate's demand
      that fits under its exchange's ceiling. */
  lemma StepSaturates(side: OrderType, st: WalkState, c: Candidate, name: string, bound: real, seen: real)
    requires PricedForSide(side, c)
    requires c.exchange == name ==> Ceiling(side, c) == bound
    requires seen >= 0.0 && Used(st.ledger, name) == Min(Max(0.0, bound), seen)
    requires Step(side, st, c).remaining > 0.0
    ensures Used(Step(side, st, c).ledger, name)
            == Min(Max(0.0, bound), seen + if c.exchange == name then Demand(side, c) else 0.0)
  {
    StepGain(side, st, c);
    if c.exchange == name {
      ShortGain(side, st, c);
      Saturate(Used(st.ledger, name), bound, seen, Cost(side, c.order.amount, c.order.price));
    }
  }

  /** A step that leaves the request open books the part of the candidate's
      full cost that fits under its exchange's ceiling. */
  lemma ShortGain(side: OrderType, st: WalkState, c: Candidate)
    requires PricedForSide(side, c)
    requires 0.0 < st.remaining - Gain(side, st, c)
    ensures Cost(side, Gain(side, st, c), c.order.price)
            == Max(0.0, Min(Cost(side, c.order.amount, c.order.price), Ceiling(side, c) - Used(st.ledger, c.exchange)))
  {
    ShortCost(side, st.remaining, c.order.amount, c.order.price, Ceiling(side, c) - Used(st.ledger, c.exchange), Gain(side, st, c));
  }

  /** The cost of a take that leaves the request open, from `left` still
      available at price `p`. */
  lemma ShortCost(side: OrderType, r: real, a: real, p: real, left: real, g: real)
    requires side == Buy ==> p > 0.0
    requires g == Take(r, a, if side == Sell then left else left / p) && 0.0 < r - g
    ensures Cost(side, g, p) == Max(0.0, Min(Cost(side, a, p), left))
  {
    if side == Buy {
      BuyShortCost(r, a, p, left, g, Max(0.0, Min(a * p, left)));
    } else {
      ShortTake(r, a, left);
    }
  }

  /** The EUR booked by a buy take that leaves the request open. */
  lemma BuyShortCost(r: real, a: real, p: real, left: real, g: real, bound: real)
    requires p > 0.0 && g == Take(r, a, left / p) && 0.0 < r - g
    requires bound == Max(0.0, Min(a * p, left))
    ensures g * p == bound
  {
    ShortTake(r, a, left / p);
    BuyShortTake(a, p, left);
  }

  /** A walk that ends short has booked, against every exchange name, the
      least of its ceiling and the demand its candidates put on it. */
  lemma {:induction false} WalkSaturates(side: OrderType, amount: real, s: seq<Candidate>, name: string, bound: real)
    requires Priced(side, s)
    requires forall c :: c in s && c.exchange == name ==> Ceiling(side, c) == bound
    requires Walk(side, Start(amount), s).remaining > 0.0
    ensures Used(Walk(side, Start(amount), s).ledger, name) == Min(Max(0.0, bound), DemandOf(side, s, name))
  {
    if |s| > 0 {
      var p, c := s[..|s| - 1], s[|s| - 1];
      assert c in s;
      var w := Walk(side, Start(amount), p);
      StepGain(side, w, c);
      assert Priced(side, p) && forall d :: d in p && d.exchange == name ==> Ceiling(side, d) == bound by {
        forall d | d in p ensures d in s {
        }
      }
      WalkSaturates(side, amount, p, name, bound);
      StepSaturates(side, w, c, name, bound, DemandOf(side, p, name));
    }
  }

  /** Demand adds up over concatenation. */
  lemma {:induction false} DemandAppend(side: OrderType, a: seq<Candidate>, b: seq<Candidate>, name: string)
    ensures DemandOf(side, a + b, name) == DemandOf(side, a, name) + DemandOf(side, b, name)
  {
    if |b| == 0 {
      assert a + b == a;
    } else {
      DemandAppend(side, a, b[..|b| - 1], name);
      assert (a + b)[..|a + b| - 1] == a + b[..|b| - 1];
    }
  }

  /** Demand does not depend on the order of the candidates. */
  lemma {:induction false} DemandPermutation(side: OrderType, a: seq<Candidate>, b: seq<Candidate>, name: string)
    requires multiset(a) == multiset(b)
    ensures DemandOf(side, a, name) == DemandOf(side, b, name)
    decreases |a|
  {
    if |a| == 0 {
      assert |b| == |multiset(b)| == 0;
    } else {
      var init, x := a[..|a| - 1], a[|a| - 1];
      assert x in multiset(b);
      var k :| 0 <= k < |b| && b[k] == x;
      var rest := b[..k] + b[k + 1..];
      assert multiset(init) == multiset(rest) by {
        RemoveOne(b, k);
        DropLast(a);
      }
      DemandPermutation(side, init, rest, name);
      DemandWithout(side, b, k, name);
    }
  }

  /** Dropping the last element takes one copy of it out of the multiset. */
  lemma DropLast(s: seq<Candidate>)
    requires |s| > 0
    ensures multiset(s[..|s| - 1]) == multiset(s) - multiset{s[|s| - 1]}
  {
    assert s == s[..|s| - 1] + [s[|s| - 1]];
  }

  /** The demand of `s` is that of `s` without element `k`, plus what `k` asks. */
  lemma DemandWithout(side: OrderType, s: seq<Candidate>, k: int, name: string)
    requires 0 <= k < |s|
    ensures DemandOf(side, s, name)
            == DemandOf(side, s[..k] + s[k + 1..], name) + if s[k].exchange == name then Demand(side, s[k]) else 0.0
  {
    var x := s[k];
    assert s == (s[..k] + [x]) + s[k + 1..];
    DemandAppend(side, s[..k] + [x], s[k + 1..], name);
    DemandAppend(side, s[..k], [x], name);
    DemandAppend(side, s[..k], s[k + 1..], name);
    assert [x][..0] == [];
  }

  /** Candidates of other exchanges put no demand on `name`. */
  lemma {:induction false} DemandAbsent(side: OrderType, s: seq<Candidate>, name: string)
    requires forall c :: c in s ==> c.exchange != name
    ensures DemandOf(side, s, name) == 0.0
  {
    if |s| > 0 {
      assert s[|s| - 1] in s;
      DemandAbsent(side, s[..|s| - 1], name);
    }
  }

  /** With unique names, the demand on exchange `i` across all eligible orders
      is the demand of its own eligible orders. */
  lemma {:induction false} CollectDemand(side: OrderType, exchanges: seq<NamedExchange>, i: int)
    requires UniqueNames(exchanges) && 0 <= i < |exchanges|
    ensures DemandOf(side, Collect(side, exchanges), exchanges[i].name) == ExchangeDemand(side, exchanges[i])
  {
    var n := |exchanges| - 1;
    var init, e := exchanges[..n], exchanges[n];
    var name := exchanges[i].name;
    DemandAppend(side, Collect(side, init), FromOne(side, e), name);
    if i == n {
      CollectMembers(side, init);
      forall c | c in Collect(side, init) ensures c.exchange != name {
        var j :| 0 <= j < |init| && FromExchange(side, init[j], c);
      }
      DemandAbsent(side, Collect(side, init), name);
    } else {
      assert init[i] == exchanges[i];
      CollectDemand(side, init, i);
      FromOneMembers(side, e);
      DemandAbsent(side, FromOne(side, e), name);
    }
  }

  /** A walk over an arrangement of the eligible orders that ends short has
      booked, against every exchange, the least of its balance and the demand
      of its eligible orders: BTC sold against its bids, or EUR paid for its
      asks. */
  lemma ShortfallSaturates(side: OrderType, exchanges: seq<NamedExchange>, amount: real, t: seq<Candidate>, i: int)
    requires UniqueNames(exchanges) && 0 <= i < |exchanges|
    requires Priced(side, Collect(side, exchanges))
    requires multiset(t) == multiset(Collect(side, exchanges))
    requires Walk(side, Start(amount), t).remaining > 0.0
    ensures Used(Walk(side, Start(amount), t).ledger, exchanges[i].name)
            == Min(Max(0.0, Balance(side, exchanges[i])), ExchangeDemand(side, exchanges[i]))
  {
    CeilingIsBalance(side, exchanges, i, t);
    assert Priced(side, t) by {
      forall c | c in t ensures c in Collect(side, exchanges) {
        assert c in multiset(t);
      }
    }
    WalkSaturates(side, amount, t, exchanges[i].name, Balance(side, exchanges[i]));
    DemandPermutation(side, t, Collect(side, exchanges), exchanges[i].name);
    CollectDemand(side, exchanges, i);
  }

  // ---------------------------------------------------------------------------
  // Never more than the demand

  /** A take never exceeds what the order and the room allow. */
  lemma TakeAtMost(r: real, a: real, room: real)
    ensures Take(r, a, room) <= Max(0.0, Min(a, room))
  {
  }

  /** Whatever a step trades against `c`, it books no more than the part of
      the candidate's full cost that fits under its exchange's ceiling. */
  lemma GainAtMost(side: OrderType, st: WalkState, c: Candidate)
    requires PricedForSide(side, c)
    ensures Cost(side, Gain(side, st, c), c.order.price)
            <= Max(0.0, Min(Cost(side, c.order.amount, c.order.price), Ceiling(side, c) - Used(st.ledger, c.exchange)))
  {
    CostAtMost(side, st.remaining, c.order.amount, c.order.price, Ceiling(side, c) - Used(st.ledger, c.exchange), Gain(side, st, c));
  }

  /** The cost of any take from `left` still available at price `p`. */
  lemma CostAtMost(side: OrderType, r: real, a: real, p: real, left: real, g: real)
    requires side == Buy ==> p > 0.0
    requires g == Take(r, a, if side == Sell then left else left / p)
    ensures Cost(side, g, p) <= Max(0.0, Min(Cost(side, a, p), left))
  {
    if side == Buy {
      assert g * p <= Max(0.0, Min(a * p, left)) by {
        BuyCostAtMost(r, a, p, left, g, Max(0.0, Min(a * p, left)));
      }
    } else {
      assert g <= Max(0.0, Min(a, left)) by {
        TakeAtMost(r, a, left);
      }
    }
  }

  /** The EUR booked by any buy take. */
  lemma BuyCostAtMost(r: real, a: real, p: real, left: real, g: real, bound: real)
    requires p > 0.0 && g == Take(r, a, left / p)
    requires bound == Max(0.0, Min(a * p, left))
    ensures g * p <= bound
  {
    TakeAtMost(r, a, left / p);
    BuyShortTake(a, p, left);
    assert g * p <= Max(0.0, Min(a, left / p)) * p;
  }

  /** Booking at most the part of demand `d` that fits under `bound` keeps the
      consumption within the least of the bound and the demand seen. */
  lemma SaturateAtMost(u: real, bound: real, seen: real, d: real, booked: real)
    requires seen >= 0.0 && u <= Min(Max(0.0, bound), seen)
    requires booked <= Max(0.0, Min(d, bound - u))
    ensures u + booked <= Min(Max(0.0, bound), seen + Max(0.0, d))
  {
  }

  /** Every walk books, against every exchange name, at most the least of its
      ceiling and the demand its candidates put on it. */
  lemma {:induction false} WalkAtMost(side: OrderType, amount: real, s: seq<Candidate>, name: string, bound: real)
    requires Priced(side, s)
    requires forall c :: c in s && c.exchange == name ==> Ceiling(side, c) == bound
    ensures Used(Walk(side, Start(amount), s).ledger, name) <= Min(Max(0.0, bound), DemandOf(side, s, name))
  {
    if |s| > 0 {
      var p, c := s[..|s| - 1], s[|s| - 1];
      assert c in s;
      var w := Walk(side, Start(amount), p);
      assert Priced(side, p) && forall d :: d in p && d.exchange == name ==> Ceiling(side, d) == bound by {
        forall d | d in p ensures d in s {
        }
      }
      WalkAtMost(side, amount, p, name, bound);
      StepGain(side, w, c);
      if c.exchange == name {
        GainAtMost(side, w, c);
        SaturateAtMost(Used(w.ledger, name), bound, DemandOf(side, p, name),
                       Cost(side, c.order.amount, c.order.price), Cost(side, Gain(side, w, c), c.order.price));
      }
    }
  }

  // ---------------------------------------------------------------------------
  // Sells in closed form

  /** The BTC the eligible bids can absorb: per exchange, the least of its BTC
      balance and the total size of its eligible bids. */
  function SellCapacity(exchanges: seq<NamedExchange>): (cap: real)
    ensures cap >= 0.0
  {
    if |exchanges| == 0 then 0.0
    else
      var e := exchanges[|exchanges| - 1];
      SellCapacity(exchanges[..|exchanges| - 1]) + Min(Max(0.0, Balance(Sell, e)), ExchangeDemand(Sell, e))
  }

  /** What the ledger books against the listed exchanges altogether. */
  function Booked(ledger: Ledger, exchanges: seq<NamedExchange>): real
  {
    if |exchanges| == 0 then 0.0
    else Booked(ledger, exchanges[..|exchanges| - 1]) + Used(ledger, exchanges[|exchanges| - 1].name)
  }

  /** Candidates that all belong to listed exchanges. */
  predicate Listed(exchanges: seq<NamedExchange>, s: seq<Candidate>)
  {
    forall c :: c in s ==> exists i :: 0 <= i < |exchanges| && exchanges[i].name == c.exchange
  }

  /** Ledgers that agree on the listed exchanges book the same total. */
  lemma {:induction false} BookedAgree(l: Ledger, m: Ledger, exchanges: seq<NamedExchange>)
    requires forall i :: 0 <= i < |exchanges| ==> Used(m, exchanges[i].name) == Used(l, exchanges[i].name)
    ensures Booked(m, exchanges) == Booked(l, exchanges)
  {
    if |exchanges| > 0 {
      BookedAgree(l, m, exchanges[..|exchanges| - 1]);
    }
  }

  /** Booking `g` more against one listed exchange adds `g` to the total. */
  lemma {:induction false} BookedShift(l: Ledger, m: Ledger, exchanges: seq<NamedExchange>, name: string, g: real)
    requires UniqueNames(exchanges)
    requires exists i :: 0 <= i < |exchanges| && exchanges[i].name == name
    requires Used(m, name) == Used(l, name) + g
    requires forall n :: n != name ==> Used(m, n) == Used(l, n)
    ensures Booked(m, exchanges) == Booked(l, exchanges) + g
  {
    var n := |exchanges| - 1;
    var init := exchanges[..n];
    if exchanges[n].name == name {
      BookedAgree(l, m, init);
    } else {
      var i :| 0 <= i < |exchanges| && exchanges[i].name == name;
      assert init[i] == exchanges[i];
      BookedShift(l, m, init, name, g);
    }
  }

  /** The empty ledger books nothing. */
  lemma {:induction false} BookedNothing(exchanges: seq<NamedExchange>)
    ensures Booked(map[], exchanges) == 0.0
  {
    if |exchanges| > 0 {
      BookedNothing(exchanges[..|exchanges| - 1]);
    }
  }

  /** A sell walk conserves BTC: what is still wanted plus what the ledger
      books against the listed exchanges is the request. */
  lemma {:induction false} SellWalkBooks(amount: real, exchanges: seq<NamedExchange>, s: seq<Candidate>)
    requires UniqueNames(exchanges) && Listed(exchanges, s)
    ensures var w := Walk(Sell, Start(amount), s);
            w.remaining + Booked(w.ledger, exchanges) == amount
  {
    if |s| == 0 {
      BookedNothing(exchanges);
    } else {
      var p, c := s[..|s| - 1], s[|s| - 1];
      assert c in s;
      assert Listed(exchanges, p) by {
        forall d | d in p ensures d in s {
        }
      }
      SellWalkBooks(amount, exchanges, p);
      var w := Walk(Sell, Start(amount), p);
      StepGain(Sell, w, c);
      BookedShift(w.ledger, Step(Sell, w, c).ledger, exchanges, c.exchange, Gain(Sell, w, c));
    }
  }

  /** Per-exchange bounds add up to the sell capacity. */
  lemma {:induction false} BookedCapacity(ledger: Ledger, exchanges: seq<NamedExchange>)
    ensures (forall i :: 0 <= i < |exchanges| ==>
               Used(ledger, exchanges[i].name) <= Min(Max(0.0, Balance(Sell, exchanges[i])), ExchangeDemand(Sell, exchanges[i])))
            ==> Booked(ledger, exchanges) <= SellCapacity(exchanges)
    ensures (forall i :: 0 <= i < |exchanges| ==>
               Used(ledger, exchanges[i].name) == Min(Max(0.0, Balance(Sell, exchanges[i])), ExchangeDemand(Sell, exchanges[i])))
            ==> Booked(ledger, exchanges) == SellCapacity(exchanges)
  {
    if |exchanges| > 0 {
      var init := exchanges[..|exchanges| - 1];
      BookedCapacity(ledger, init);
      assert forall i :: 0 <= i < |init| ==> init[i] == exchanges[i];
    }
  }

  /** A sell over an arrangement of the eligible bids succeeds exactly when
      the request fits in the sell capacity, and otherwise falls short by the
      excess. */
  lemma SellShortfall(exchanges: seq<NamedExchange>, amount: real, t: seq<Candidate>)
    requires UniqueNames(exchanges)
    requires multiset(t) == multiset(Collect(Sell, exchanges))
    ensures var w := Walk(Sell, Start(amount), t);
            && (w.remaining > 0.0 <==> amount > SellCapacity(exchanges))
            && (w.remaining > 0.0 ==> w.remaining == amount - SellCapacity(exchanges))
  {
    var w := Walk(Sell, Start(amount), t);
    var all := Collect(Sell, exchanges);
    CollectMembers(Sell, exchanges);
    forall c | c in t ensures c in all {
      assert c in multiset(t);
    }
    assert Listed(exchanges, t) by {
      forall c | c in t ensures exists i :: 0 <= i < |exchanges| && exchanges[i].name == c.exchange {
        var i :| 0 <= i < |exchanges| && FromExchange(Sell, exchanges[i], c);
      }
    }
    SellWalkBooks(amount, exchanges, t);
    if w.remaining > 0.0 {
      forall i | 0 <= i < |exchanges| ensures
        Used(w.ledger, exchanges[i].name) == Min(Max(0.0, Balance(Sell, exchanges[i])), ExchangeDemand(Sell, exchanges[i]))
      {
        ShortfallSaturates(Sell, exchanges, amount, t, i);
      }
    } else {
      forall i | 0 <= i < |exchanges| ensures
        Used(w.ledger, exchanges[i].name) <= Min(Max(0.0, Balance(Sell, exchanges[i])), ExchangeDemand(Sell, exchanges[i]))
      {
        CeilingIsBalance(Sell, exchanges, i, t);
        WalkAtMost(Sell, amount, t, exchanges[i].name, Balance(Sell, exchanges[i]));
        DemandPermutation(Sell, t, all, exchanges[i].name);
        CollectDemand(Sell, exchanges, i);
      }
    }
    BookedCapacity(w.ledger, exchanges);
  }
}
