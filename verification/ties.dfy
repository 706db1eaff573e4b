/**
  Tied prices. The priority queue may release equally priced orders in any
  order, so the queue strategy can walk a different price-sorted arrangement
  from the stable sort. The plan itself can then differ (see
  `Scenarios.TiedPricesDiverge`). The outcome cannot, as long as each exchange
  name carries one ceiling and buy prices are positive: either both
  arrangements fill the request, or both fail with the same remainder.
 */
module Ties {
  import opened Models
  import opened Eligible
  import opened Priority
  import opened Allocation
  import opened Capacity

  /** Two walk states that lead to the same outcome from here on: both have
      met the request, or they agree on the remaining request and on every
      exchange's consumption. */
  ghost predicate Alike(a: WalkState, b: WalkState)
  {
    || (a.remaining <= 0.0 && b.remaining <= 0.0)
    || (a.remaining == b.remaining && forall n :: Used(a.ledger, n) == Used(b.ledger, n))
  }

  /** Every candidate of `s` quotes a positive price if `side` is Buy. */
  predicate Priced(side: OrderType, s: seq<Candidate>)
  {
    forall c :: c in s ==> PricedForSide(side, c)
  }

  /** Candidates of `s` from the same exchange carry the same ceiling. */
  predicate OneCeiling(side: OrderType, s: seq<Candidate>)
  {
    forall c, d :: c in s && d in s && c.exchange == d.exchange ==> Ceiling(side, c) == Ceiling(side, d)
  }

  /** Alike states end in the same outcome: both plans, or the same error. */
  lemma AlikeOutcome(side: OrderType, a: WalkState, b: WalkState)
    requires Alike(a, b)
    ensures Finish(side, a).Ok? == Finish(side, b).Ok?
    ensures Finish(side, a).Err? ==> Finish(side, a) == Finish(side, b)
  {
  }

  /** A step keeps alike states alike. */
  lemma StepAlike(side: OrderType, a: WalkState, b: WalkState, c: Candidate)
    requires Alike(a, b)
    ensures Alike(Step(side, a, c), Step(side, b, c))
  {
    if !(a.remaining <= 0.0 && b.remaining <= 0.0) {
      // the fills emitted so far play no part in a step
      var b' := b.(fills := a.fills);
      StepCongruent(side, a, b', c);
      assert Step(side, b', c).remaining == Step(side, b, c).remaining;
      assert Step(side, b', c).ledger == Step(side, b, c).ledger;
    }
  }

  /** A walk keeps alike states alike. */
  lemma {:induction false} WalkAlike(side: OrderType, a: WalkState, b: WalkState, s: seq<Candidate>)
    requires Alike(a, b)
    ensures Alike(Walk(side, a, s), Walk(side, b, s))
  {
    if |s| > 0 {
      var p := s[..|s| - 1];
      WalkAlike(side, a, b, p);
      StepAlike(side, Walk(side, a, p), Walk(side, b, p), s[|s| - 1]);
    }
  }

  /** Walking `a + b` is walking `a`, then `b` from where `a` ended. */
  lemma {:induction false} WalkAppend(side: OrderType, st: WalkState, a: seq<Candidate>, b: seq<Candidate>)
    ensures Walk(side, st, a + b) == Walk(side, Walk(side, st, a), b)
  {
    if |b| == 0 {
      assert a + b == a;
    } else {
      var p := b[..|b| - 1];
      WalkAppend(side, st, a, p);
      assert (a + b)[..|a + b| - 1] == a + p;
    }
  }

  /** Two takes in a row from the same capacity `room` add up to one take of
      both orders together, so their order does not matter. */
  lemma TakeTwice(r: real, a: real, b: real, room: real)
    ensures var g := Take(r, a, room);
            g + Take(r - g, b, room - g) == Take(r, Max(0.0, a) + Max(0.0, b), room)
  {
  }

  /** Booking `g` BTC against `c`'s exchange shrinks its room by `g`. */
  lemma RoomShrinks(side: OrderType, l: Ledger, m: Ledger, c: Candidate, g: real)
    requires PricedForSide(side, c)
    requires Used(m, c.exchange) == Used(l, c.exchange) + Cost(side, g, c.order.price)
    ensures Room(side, m, c) == Room(side, l, c) - g
  {
    if side == Buy {
      var p, left := c.order.price, Ceiling(side, c) - Used(l, c.exchange);
      assert Ceiling(side, c) - Used(m, c.exchange) == left - g * p;
      DivShift(left, g, p);
    }
  }

  /** Dividing out a multiple of the divisor. */
  lemma DivShift(left: real, g: real, p: real)
    requires p > 0.0
    ensures (left - g * p) / p == left / p - g
  {
    assert (left / p - g) * p == left - g * p;
  }

  /** Takes from two separate rooms: in either order, both meet the request
      or each order gets the same amount. */
  lemma TakeApart(r: real, a: real, b: real, ra: real, rb: real)
    ensures var g, h := Take(r, a, ra), Take(r - Take(r, a, ra), b, rb);
            var g', h' := Take(r, b, rb), Take(r - Take(r, b, rb), a, ra);
            || (r - g - h <= 0.0 && r - g' - h' <= 0.0)
            || (g == h' && h == g')
  {
  }

  /** `next` is where one step against `c` takes `st`: `Gain` off the
      remaining request, its cost booked against `c`'s exchange alone. */
  ghost predicate Moved(side: OrderType, st: WalkState, c: Candidate, next: WalkState)
    requires PricedForSide(side, c)
  {
    && next.remaining == st.remaining - Gain(side, st, c)
    && Used(next.ledger, c.exchange) == Used(st.ledger, c.exchange) + Cost(side, Gain(side, st, c), c.order.price)
    && forall n :: n != c.exchange ==> Used(next.ledger, n) == Used(st.ledger, n)
  }

  /** A step moves the walk state as `Moved` says. */
  lemma StepMoves(side: OrderType, st: WalkState, c: Candidate)
    requires PricedForSide(side, c)
    ensures Moved(side, st, c, Step(side, st, c))
  {
    StepGain(side, st, c);
  }

  /** Two moves against candidates of different exchanges, each made first:
      in either order both meet the request, or each candidate trades the
      same amount, since neither touches the other's room. */
  lemma GainsApart(side: OrderType, st: WalkState, x: Candidate, y: Candidate, s1: WalkState, t1: WalkState)
    requires PricedForSide(side, x) && PricedForSide(side, y)
    requires x.exchange != y.exchange
    requires s1.remaining == st.remaining - Gain(side, st, x) && Used(s1.ledger, y.exchange) == Used(st.ledger, y.exchange)
    requires t1.remaining == st.remaining - Gain(side, st, y) && Used(t1.ledger, x.exchange) == Used(st.ledger, x.exchange)
    ensures var g, h := Gain(side, st, x), Gain(side, s1, y);
            var g', h' := Gain(side, st, y), Gain(side, t1, x);
            || (st.remaining - g - h <= 0.0 && st.remaining - g' - h' <= 0.0)
            || (g == h' && h == g')
  {
    assert Room(side, s1.ledger, y) == Room(side, st.ledger, y);
    assert Room(side, t1.ledger, x) == Room(side, st.ledger, x);
    TakeApart(st.remaining, x.order.amount, y.order.amount, Room(side, st.ledger, x), Room(side, st.ledger, y));
  }

  /** Trading `g` then `h` against two different exchanges, or `g'` then
      `h'` the other way round, ends alike when both meet the request or the
      amounts match up. */
  lemma MovesApart(side: OrderType, st: WalkState, x: Candidate, y: Candidate,
                   g: real, h: real, g': real, h': real, s2: WalkState, t2: WalkState)
    requires x.exchange != y.exchange
    requires (st.remaining - g - h <= 0.0 && st.remaining - g' - h' <= 0.0) || (g == h' && h == g')
    requires s2.remaining == st.remaining - g - h && t2.remaining == st.remaining - g' - h'
    requires Used(s2.ledger, x.exchange) == Used(st.ledger, x.exchange) + Cost(side, g, x.order.price)
    requires Used(s2.ledger, y.exchange) == Used(st.ledger, y.exchange) + Cost(side, h, y.order.price)
    requires Used(t2.ledger, x.exchange) == Used(st.ledger, x.exchange) + Cost(side, h', x.order.price)
    requires Used(t2.ledger, y.exchange) == Used(st.ledger, y.exchange) + Cost(side, g', y.order.price)
    requires forall n :: n != x.exchange && n != y.exchange ==> Used(s2.ledger, n) == Used(st.ledger, n)
    requires forall n :: n != x.exchange && n != y.exchange ==> Used(t2.ledger, n) == Used(st.ledger, n)
    ensures Alike(s2, t2)
  {
    if !(s2.remaining <= 0.0 && t2.remaining <= 0.0) {
      forall n ensures Used(s2.ledger, n) == Used(t2.ledger, n) {
        if n == x.exchange {
        } else if n == y.exchange {
        }
      }
    }
  }

  /** Serving two candidates of different exchanges in either order ends
      alike. */
  lemma SwapApart(side: OrderType, st: WalkState, x: Candidate, y: Candidate)
    requires PricedForSide(side, x) && PricedForSide(side, y)
    requires x.exchange != y.exchange
    ensures Alike(Step(side, Step(side, st, x), y), Step(side, Step(side, st, y), x))
  {
    var s1, t1 := Step(side, st, x), Step(side, st, y);
    StepMoves(side, st, x);
    StepMoves(side, s1, y);
    StepMoves(side, st, y);
    StepMoves(side, t1, x);
    GainsApart(side, st, x, y, s1, t1);
    MovesApart(side, st, x, y, Gain(side, st, x), Gain(side, s1, y), Gain(side, st, y), Gain(side, t1, x),
               Step(side, s1, y), Step(side, t1, x));
  }

  /** Two moves against equally priced candidates of one exchange with one
      ceiling, each made first: in either order the two trade the same total,
      one take of both orders' sizes together from the shared room. */
  lemma GainsTogether(side: OrderType, st: WalkState, x: Candidate, y: Candidate, s1: WalkState, t1: WalkState)
    requires PricedForSide(side, x) && PricedForSide(side, y)
    requires x.exchange == y.exchange && x.order.price == y.order.price
    requires Ceiling(side, x) == Ceiling(side, y)
    requires s1.remaining == st.remaining - Gain(side, st, x)
    requires Used(s1.ledger, x.exchange) == Used(st.ledger, x.exchange) + Cost(side, Gain(side, st, x), x.order.price)
    requires t1.remaining == st.remaining - Gain(side, st, y)
    requires Used(t1.ledger, y.exchange) == Used(st.ledger, y.exchange) + Cost(side, Gain(side, st, y), y.order.price)
    ensures Gain(side, st, x) + Gain(side, s1, y) == Gain(side, st, y) + Gain(side, t1, x)
  {
    var room, d := Room(side, st.ledger, x), Max(0.0, x.order.amount) + Max(0.0, y.order.amount);
    TwoGains(side, st, x, y, s1, room, d);
    TwoGains(side, st, y, x, t1, room, d);
  }

  /** A move against `x` and then one against `y`, of the same exchange,
      price and ceiling, trade one take of both orders' sizes `d` from the
      shared room. */
  lemma TwoGains(side: OrderType, st: WalkState, x: Candidate, y: Candidate, s1: WalkState, room: real, d: real)
    requires PricedForSide(side, x) && PricedForSide(side, y)
    requires x.exchange == y.exchange && x.order.price == y.order.price
    requires Ceiling(side, x) == Ceiling(side, y)
    requires room == Room(side, st.ledger, x)
    requires d == Max(0.0, x.order.amount) + Max(0.0, y.order.amount)
    requires s1.remaining == st.remaining - Gain(side, st, x)
    requires Used(s1.ledger, x.exchange) == Used(st.ledger, x.exchange) + Cost(side, Gain(side, st, x), x.order.price)
    ensures Gain(side, st, x) + Gain(side, s1, y) == Take(st.remaining, d, room)
  {
    var g := Gain(side, st, x);
    RoomShrinks(side, st.ledger, s1.ledger, y, g);
    TakesAdd(st.remaining, x.order.amount, y.order.amount, room, d, g, Gain(side, s1, y));
  }

  /** Two takes in a row from one room, named, add up to one take of both
      orders' sizes `d`. */
  lemma TakesAdd(r: real, a: real, b: real, room: real, d: real, g: real, h: real)
    requires d == Max(0.0, a) + Max(0.0, b)
    requires g == Take(r, a, room) && h == Take(r - g, b, room - g)
    ensures g + h == Take(r, d, room)
  {
    TakeTwice(r, a, b, room);
  }

  /** Trading `g` then `h`, or `g'` then `h'`, against one exchange at one
      price ends alike when the two totals match. */
  lemma MovesTogether(side: OrderType, st: WalkState, e: string, p: real,
                      g: real, h: real, g': real, h': real, s2: WalkState, t2: WalkState)
    requires g + h == g' + h'
    requires s2.remaining == st.remaining - g - h && t2.remaining == st.remaining - g' - h'
    requires Used(s2.ledger, e) == Used(st.ledger, e) + Cost(side, g, p) + Cost(side, h, p)
    requires Used(t2.ledger, e) == Used(st.ledger, e) + Cost(side, g', p) + Cost(side, h', p)
    requires forall n :: n != e ==> Used(s2.ledger, n) == Used(st.ledger, n)
    requires forall n :: n != e ==> Used(t2.ledger, n) == Used(st.ledger, n)
    ensures Alike(s2, t2)
  {
    CostAdds(side, g, h, p);
    CostAdds(side, g', h', p);
  }

  /** Serving two equally priced candidates of the same exchange, with the
      same ceiling, in either order ends alike. */
  lemma SwapTogether(side: OrderType, st: WalkState, x: Candidate, y: Candidate)
    requires PricedForSide(side, x) && PricedForSide(side, y)
    requires x.exchange == y.exchange && x.order.price == y.order.price
    requires Ceiling(side, x) == Ceiling(side, y)
    ensures Alike(Step(side, Step(side, st, x), y), Step(side, Step(side, st, y), x))
  {
    var s1, t1 := Step(side, st, x), Step(side, st, y);
    StepMoves(side, st, x);
    StepMoves(side, s1, y);
    StepMoves(side, st, y);
    StepMoves(side, t1, x);
    GainsTogether(side, st, x, y, s1, t1);
    MovesTogether(side, st, x.exchange, x.order.price,
                  Gain(side, st, x), Gain(side, s1, y), Gain(side, st, y), Gain(side, t1, x),
                  Step(side, s1, y), Step(side, t1, x));
  }

  /** The cost of two fills at one price is the cost of their sum. */
  lemma CostAdds(side: OrderType, g: real, h: real, p: real)
    ensures Cost(side, g, p) + Cost(side, h, p) == Cost(side, g + h, p)
  {
    if side == Buy {
      assert g * p + h * p == (g + h) * p;
    }
  }

  /** Serving two equally priced candidates in either order ends alike, when
      one exchange name means one ceiling. */
  lemma SwapTied(side: OrderType, st: WalkState, x: Candidate, y: Candidate)
    requires PricedForSide(side, x) && PricedForSide(side, y)
    requires x.order.price == y.order.price
    requires x.exchange == y.exchange ==> Ceiling(side, x) == Ceiling(side, y)
    ensures Alike(Step(side, Step(side, st, x), y), Step(side, Step(side, st, y), x))
  {
    if x.exchange == y.exchange {
      SwapTogether(side, st, x, y);
    } else {
      SwapApart(side, st, x, y);
    }
  }

  /** Alike is transitive. */
  lemma AlikeTrans(a: WalkState, b: WalkState, c: WalkState)
    requires Alike(a, b) && Alike(b, c)
    ensures Alike(a, c)
  {
  }

  /** A candidate can be walked ahead of a run of candidates quoting its own
      price without changing the outcome. */
  lemma {:induction false} BubbleFront(side: OrderType, st: WalkState, u: seq<Candidate>, x: Candidate)
    requires PricedForSide(side, x) && Priced(side, u)
    requires forall i :: 0 <= i < |u| ==> u[i].order.price == x.order.price
    requires forall i :: 0 <= i < |u| && u[i].exchange == x.exchange ==> Ceiling(side, u[i]) == Ceiling(side, x)
    ensures Alike(Walk(side, st, u + [x]), Walk(side, st, [x] + u))
  {
    if |u| == 0 {
      assert u + [x] == [x] + u;
    } else {
      var v, y := u[..|u| - 1], u[|u| - 1];
      assert y in u;
      assert Priced(side, v) by {
        forall c | c in v ensures PricedForSide(side, c) {
          assert c in u;
        }
      }
      assert u == v + [y];
      BubbleFront(side, st, v, x);
      BubbleStep(side, st, v, y, x);
    }
  }

  /** One more candidate `y` of `x`'s price, behind a run that `x` can
      already be walked ahead of, lets `x` be walked ahead of the longer run:
      `x` first trades places with `y`, then with the rest. */
  lemma BubbleStep(side: OrderType, st: WalkState, v: seq<Candidate>, y: Candidate, x: Candidate)
    requires PricedForSide(side, x) && PricedForSide(side, y)
    requires y.order.price == x.order.price
    requires y.exchange == x.exchange ==> Ceiling(side, y) == Ceiling(side, x)
    requires Alike(Walk(side, st, v + [x]), Walk(side, st, [x] + v))
    ensures Alike(Walk(side, st, v + [y] + [x]), Walk(side, st, [x] + (v + [y])))
  {
    var w := Walk(side, st, v);
    var a, b := Walk(side, st, v + [x]), Walk(side, st, [x] + v);
    assert Walk(side, st, v + [y] + [x]) == Step(side, Step(side, w, y), x) by {
      WalkUnfold(side, st, v + [y], x);
      WalkUnfold(side, st, v, y);
    }
    assert Alike(Step(side, Step(side, w, y), x), Step(side, a, y)) by {
      SwapTied(side, w, y, x);
      WalkUnfold(side, st, v, x);
    }
    assert Alike(Step(side, a, y), Step(side, b, y)) by {
      StepAlike(side, a, b, y);
    }
    assert Step(side, b, y) == Walk(side, st, [x] + (v + [y])) by {
      assert ([x] + v) + [y] == [x] + (v + [y]);
      WalkUnfold(side, st, [x] + v, y);
    }
    AlikeTrans(Walk(side, st, v + [y] + [x]), Step(side, a, y), Step(side, b, y));
  }

  /** Dropping one element keeps a sequence sorted. */
  lemma SortedRemove(side: OrderType, s: seq<Candidate>, k: int)
    requires Sorted(side, s) && 0 <= k < |s|
    ensures Sorted(side, s[..k] + s[k + 1..])
  {
    var r := s[..k] + s[k + 1..];
    forall i, j | 0 <= i < j < |r| ensures !Better(side, r[j].order.price, r[i].order.price) {
      var i', j' := if i < k then i else i + 1, if j < k then j else j + 1;
      assert r[i] == s[i'] && r[j] == s[j'];
    }
  }

  /** In a sorted arrangement of the same candidates, the head of another
      sorted arrangement sits behind candidates of its own price only. */
  lemma FindFront(side: OrderType, t1: seq<Candidate>, t2: seq<Candidate>) returns (k: int)
    requires Sorted(side, t1) && Sorted(side, t2)
    requires multiset(t1) == multiset(t2) && |t1| > 0
    ensures 0 <= k < |t2| && t2[k] == t1[0]
    ensures forall i :: 0 <= i < k ==> t2[i].order.price == t1[0].order.price
  {
    var x := t1[0];
    assert x in multiset(t2);
    k :| 0 <= k < |t2| && t2[k] == x;
    forall i | 0 <= i < k ensures t2[i].order.price == x.order.price {
      assert !Better(side, x.order.price, t2[i].order.price);
      assert t2[i] in multiset(t1);
      var j :| 0 <= j < |t1| && t1[j] == t2[i];
      if j > 0 {
        assert !Better(side, t2[i].order.price, x.order.price);
      }
    }
  }

  /** Dropping element `k` takes one copy of it out of the multiset. */
  lemma RemoveOne(s: seq<Candidate>, k: int)
    requires 0 <= k < |s|
    ensures multiset(s[..k] + s[k + 1..]) == multiset(s) - multiset{s[k]}
  {
    assert s == s[..k] + [s[k]] + s[k + 1..];
  }

  /** Dropping the head takes one copy of it out of the multiset. */
  lemma RemoveFirst(s: seq<Candidate>)
    requires |s| > 0
    ensures multiset(s[1..]) == multiset(s) - multiset{s[0]}
  {
    assert s == [s[0]] + s[1..];
  }

  /** Walking `[x] + s` is serving `x`, then walking `s`. */
  lemma WalkCons(side: OrderType, st: WalkState, x: Candidate, s: seq<Candidate>)
    ensures Walk(side, st, [x] + s) == Walk(side, Step(side, st, x), s)
  {
    WalkAppend(side, st, [x], s);
    WalkUnfold(side, st, [], x);
    assert [] + [x] == [x];
  }

  /** Walking `t2` ends like serving its element `k` first and then the rest
      in order, when everything ahead of `k` quotes its price. */
  lemma ToFront(side: OrderType, st: WalkState, t2: seq<Candidate>, k: int)
    requires 0 <= k < |t2|
    requires Priced(side, t2) && OneCeiling(side, t2)
    requires forall i :: 0 <= i < k ==> t2[i].order.price == t2[k].order.price
    ensures Alike(Walk(side, st, t2), Walk(side, Step(side, st, t2[k]), t2[..k] + t2[k + 1..]))
  {
    var x, u, v := t2[k], t2[..k], t2[k + 1..];
    assert t2 == u + [x] + v;
    SplitAt(side, t2, k);
    BubbleFront(side, st, u, x);
    WalkAlike(side, Walk(side, st, u + [x]), Walk(side, st, [x] + u), v);
    WalkAround(side, st, u, x, v);
  }

  /** The parts of `t2` around element `k` keep its positive buy prices and
      ceilings. */
  lemma SplitAt(side: OrderType, t2: seq<Candidate>, k: int)
    requires 0 <= k < |t2|
    requires Priced(side, t2) && OneCeiling(side, t2)
    ensures Priced(side, t2[..k]) && Priced(side, t2[k + 1..]) && PricedForSide(side, t2[k])
    ensures forall i :: 0 <= i < k && t2[i].exchange == t2[k].exchange ==> Ceiling(side, t2[i]) == Ceiling(side, t2[k])
  {
    assert t2[k] in t2;
    forall c | c in t2[..k] || c in t2[k + 1..] ensures c in t2 {
    }
    forall i | 0 <= i < k ensures t2[i] in t2 {
    }
  }

  /** The two regroupings of `u + [x] + v` that the rearrangement walks. */
  lemma WalkAround(side: OrderType, st: WalkState, u: seq<Candidate>, x: Candidate, v: seq<Candidate>)
    ensures Walk(side, st, u + [x] + v) == Walk(side, Walk(side, st, u + [x]), v)
    ensures Walk(side, Walk(side, st, [x] + u), v) == Walk(side, Step(side, st, x), u + v)
  {
    WalkAppend(side, st, u + [x], v);
    WalkAhead(side, st, u, x, v);
  }

  /** Walking `[x] + u`, then `v`, is serving `x`, then walking `u + v`. */
  lemma WalkAhead(side: OrderType, st: WalkState, u: seq<Candidate>, x: Candidate, v: seq<Candidate>)
    ensures Walk(side, Walk(side, st, [x] + u), v) == Walk(side, Step(side, st, x), u + v)
  {
    var w := [x] + u;
    assert Walk(side, Walk(side, st, w), v) == Walk(side, st, w + v) by {
      WalkAppend(side, st, w, v);
    }
    assert w + v == [x] + (u + v);
    WalkCons(side, st, x, u + v);
  }

  /** Arrangements of the same candidates share positive buy prices and
      ceilings. */
  lemma SameMembers(side: OrderType, t1: seq<Candidate>, t2: seq<Candidate>)
    requires multiset(t1) == multiset(t2)
    requires Priced(side, t1) && OneCeiling(side, t1)
    ensures Priced(side, t2) && OneCeiling(side, t2)
  {
    forall c | c in t2 ensures c in t1 {
      assert c in multiset(t1);
    }
  }

  /** Any two price-sorted arrangements of the same candidates end alike,
      when buy prices are positive and one exchange name means one ceiling. */
  lemma {:induction false} SortedAlike(side: OrderType, st: WalkState, t1: seq<Candidate>, t2: seq<Candidate>)
    requires Sorted(side, t1) && Sorted(side, t2)
    requires multiset(t1) == multiset(t2)
    requires Priced(side, t1) && OneCeiling(side, t1)
    ensures Alike(Walk(side, st, t1), Walk(side, st, t2))
    decreases |t1|
  {
    if |t1| == 0 {
      assert |t2| == |multiset(t2)| == 0;
    } else {
      var x := t1[0];
      var k := FindFront(side, t1, t2);
      var rest := t2[..k] + t2[k + 1..];
      var tail := t1[1..];
      assert Alike(Walk(side, st, t2), Walk(side, Step(side, st, x), rest)) by {
        SameMembers(side, t1, t2);
        ToFront(side, st, t2, k);
      }
      assert Walk(side, st, t1) == Walk(side, Step(side, st, x), tail) by {
        assert t1 == [x] + tail;
        WalkCons(side, st, x, tail);
      }
      assert Alike(Walk(side, Step(side, st, x), tail), Walk(side, Step(side, st, x), rest)) by {
        TailsMatch(side, t1, t2, k);
        SortedAlike(side, Step(side, st, x), tail, rest);
      }
      AlikeTrans(Walk(side, st, t1), Walk(side, Step(side, st, x), rest), Walk(side, st, t2));
    }
  }

  /** Removing the same candidate from two sorted arrangements of the same
      candidates leaves two sorted arrangements of the same candidates. */
  lemma TailsMatch(side: OrderType, t1: seq<Candidate>, t2: seq<Candidate>, k: int)
    requires Sorted(side, t1) && Sorted(side, t2)
    requires multiset(t1) == multiset(t2)
    requires Priced(side, t1) && OneCeiling(side, t1)
    requires |t1| > 0 && 0 <= k < |t2| && t2[k] == t1[0]
    ensures var tail, rest := t1[1..], t2[..k] + t2[k + 1..];
            && Sorted(side, tail) && Sorted(side, rest)
            && multiset(tail) == multiset(rest)
            && Priced(side, tail) && OneCeiling(side, tail)
  {
    var tail, rest := t1[1..], t2[..k] + t2[k + 1..];
    assert Sorted(side, tail) by {
      SortedTail(side, t1);
    }
    assert Sorted(side, rest) by {
      SortedRemove(side, t2, k);
    }
    assert multiset(tail) == multiset(rest) by {
      RemoveOne(t2, k);
      RemoveFirst(t1);
    }
    assert Priced(side, tail) && OneCeiling(side, tail) by {
      forall c | c in tail ensures c in t1 {
      }
    }
  }

  /** With unique exchange names and positive buy prices, walking any
      price-sorted arrangement of the eligible orders ends like the stable
      sort: both succeed, or both fail with the same shortfall. */
  lemma SameOutcome(side: OrderType, exchanges: seq<NamedExchange>, amount: real, t: seq<Candidate>)
    requires UniqueNames(exchanges)
    requires Priced(side, Collect(side, exchanges))
    requires Sorted(side, t)
    requires multiset(t) == multiset(Collect(side, exchanges))
    ensures var r, r' := Finish(side, Walk(side, Start(amount), t)), Allocate(side, exchanges, amount);
            r.Ok? == r'.Ok? && (r.Err? ==> r == r')
  {
    var all := Collect(side, exchanges);
    var sorted := SortByPriority(side, all);
    SortByPriorityCorrect(side, all);
    CollectMembers(side, exchanges);
    forall c | c in t ensures c in all {
      assert c in multiset(all);
    }
    assert OneCeiling(side, t) by {
      forall c, d | c in t && d in t && c.exchange == d.exchange
        ensures Ceiling(side, c) == Ceiling(side, d)
      {
        assert c in all;
        var i :| 0 <= i < |exchanges| && FromExchange(side, exchanges[i], c);
        CeilingIsBalance(side, exchanges, i, t);
      }
    }
    SortedAlike(side, Start(amount), t, sorted);
    AlikeOutcome(side, Walk(side, Start(amount), t), Walk(side, Start(amount), sorted));
  }
}
