/**
  The allocation engine as a functional reference: one greedy step per
  candidate (capacity lookup, capping, emission, ledger update), the walk that
  folds it over a price-ordered candidate list, and the final
  insufficient-liquidity check. The imperative methods of `MetaExchange`
  are proved to compute exactly this.
 */
module Allocation {
  import opened Models
  import opened Eligible
  import opened Priority

  /** Per-exchange running consumption, keyed by exchange name: EUR spent for a
      Buy, BTC sold for a Sell. */
  type Ledger = map<string, real>

  /** Consumption recorded for `name`; an exchange not yet in the ledger has used nothing. */
  function Used(ledger: Ledger, name: string): real
  {
    if name in ledger then ledger[name] else 0.0
  }

  /** What the walk carries from one candidate to the next. */
  datatype WalkState = WalkState(remaining: real, ledger: Ledger, fills: seq<ExecutionOrder>)

  function Start(amount: real): WalkState
  {
    WalkState(amount, map[], [])
  }

  /** The quantity a step books against the ledger for a fill. */
  function Cost(side: OrderType, amount: real, price: real): real
  {
    if side == Buy then amount * price else amount
  }

  /** The amount the walk trades against `order` given `available` capacity:
      at most the remaining request and the order's size; for a Sell at most
      the BTC left, for a Buy shrunk to what the EUR left pays for. */
  function FillAmount(side: OrderType, remaining: real, order: Order, available: real): real
    requires available > 0.0
  {
    var want := Min(remaining, order.amount);
    if side == Sell then Min(want, available)
    else if want * order.price > available then available / order.price
    else want
  }

  /** A positive fill respects the remaining request, the order's size and the
      capacity left; it is the largest amount that does. */
  lemma FillAmountBounds(side: OrderType, remaining: real, order: Order, available: real)
    requires available > 0.0
    ensures var f := FillAmount(side, remaining, order, available);
            && (f > 0.0 ==> f <= remaining && f <= order.amount)
            && (f > 0.0 ==> Cost(side, f, order.price) <= available)
            && (side == Sell ==> f == Min(Min(remaining, order.amount), available))
            && (side == Buy && order.price > 0.0 ==> f == Min(Min(remaining, order.amount), available / order.price))
            && (side == Buy && order.price <= 0.0 ==>
                  (f > 0.0 <==> Min(remaining, order.amount) > 0.0) && (f > 0.0 ==> f == Min(remaining, order.amount)))
  {
  }

  /** Serving one candidate. */
  function Step(side: OrderType, st: WalkState, c: Candidate): WalkState
  {
    if st.remaining <= 0.0 then st
    else
      var ledger := if c.exchange in st.ledger then st.ledger else st.ledger[c.exchange := 0.0];
      var available := Ceiling(side, c) - ledger[c.exchange];
      if available <= 0.0 then st.(ledger := ledger)
      else
        var fill := FillAmount(side, st.remaining, c.order, available);
        if fill > 0.0 then
          WalkState(st.remaining - fill,
                    ledger[c.exchange := ledger[c.exchange] + Cost(side, fill, c.order.price)],
                    st.fills + [ExecutionOrder(c.exchange, fill, c.order.price)])
        else st.(ledger := ledger)
  }

  /** What one step does to the walk state. */
  lemma StepSpec(side: OrderType, st: WalkState, c: Candidate)
    // a walk that has met the request does nothing more
    ensures st.remaining <= 0.0 ==> Step(side, st, c) == st
    // an exhausted exchange is skipped
    ensures Ceiling(side, c) - Used(st.ledger, c.exchange) <= 0.0 ==>
              Step(side, st, c).remaining == st.remaining && Step(side, st, c).fills == st.fills
    // other exchanges' consumption is untouched
    ensures forall n :: n != c.exchange ==> Used(Step(side, st, c).ledger, n) == Used(st.ledger, n)
    // either nothing is emitted ...
    ensures || (Step(side, st, c).remaining == st.remaining && Step(side, st, c).fills == st.fills
                && Used(Step(side, st, c).ledger, c.exchange) == Used(st.ledger, c.exchange))
    // ... or one fill against this order, within every bound, booked exactly once
            || (&& |Step(side, st, c).fills| == |st.fills| + 1
                && Step(side, st, c).fills[..|st.fills|] == st.fills
                && var f := Step(side, st, c).fills[|st.fills|];
                && f.exchange == c.exchange
                && f.price == c.order.price
                && 0.0 < f.amount <= st.remaining
                && f.amount <= c.order.amount
                && Step(side, st, c).remaining == st.remaining - f.amount
                && Used(Step(side, st, c).ledger, c.exchange) == Used(st.ledger, c.exchange) + Cost(side, f.amount, f.price)
                && Used(Step(side, st, c).ledger, c.exchange) <= Ceiling(side, c))
  {
    var r := Step(side, st, c);
    if st.remaining > 0.0 {
      var ledger := if c.exchange in st.ledger then st.ledger else st.ledger[c.exchange := 0.0];
      var available := Ceiling(side, c) - ledger[c.exchange];
      if available > 0.0 {
        FillAmountBounds(side, st.remaining, c.order, available);
      }
    }
    if r.fills != st.fills {
      assert r.fills[..|st.fills|] == st.fills;
    }
  }

  /** Serves the candidates of `s` in order. */
  function Walk(side: OrderType, st: WalkState, s: seq<Candidate>): WalkState
  {
    if |s| == 0 then st else Step(side, Walk(side, st, s[..|s| - 1]), s[|s| - 1])
  }

  /** The terminal check: a leftover request is an error carrying the leftover;
      otherwise the fills, in emission order, are the plan. */
  function Finish(side: OrderType, st: WalkState): (r: Result<seq<ExecutionOrder>>)
    ensures r.Err? <==> st.remaining > 0.0
    ensures r.Err? ==> r.error == InsufficientLiquidity(side, st.remaining)
    ensures r.Ok? ==> r.value == st.fills
  {
    if st.remaining > 0.0 then Err(InsufficientLiquidity(side, st.remaining)) else Ok(st.fills)
  }

  /** The greedy walk over the price-sorted eligible orders: what the sort-then-scan
      strategy computes for a positive amount. */
  function Allocate(side: OrderType, exchanges: seq<NamedExchange>, amount: real): Result<seq<ExecutionOrder>>
  {
    Finish(side, Walk(side, Start(amount), SortByPriority(side, Collect(side, exchanges))))
  }

  // ---------------------------------------------------------------------------
  // Invariants of the walk

  /** Fill `f` was cut from candidate `c`: same exchange, same price, no larger. */
  predicate Serves(f: ExecutionOrder, c: Candidate)
  {
    f.exchange == c.exchange && f.price == c.order.price && f.amount <= c.order.amount
  }

  /** `idx` charges each fill to a candidate of `s` of its own: fill `k` is cut
      from `s[idx[k]]`, and since the indices strictly increase, no candidate
      backs two fills. */
  predicate Matched(fills: seq<ExecutionOrder>, s: seq<Candidate>, idx: seq<int>)
  {
    && |idx| == |fills|
    && (forall k :: 0 <= k < |idx| ==> 0 <= idx[k] < |s| && Serves(fills[k], s[idx[k]]))
    && (forall i, j :: 0 <= i < j < |idx| ==> idx[i] < idx[j])
  }

  /** Fill prices never get better along the plan. */
  predicate FillsInPriority(side: OrderType, fills: seq<ExecutionOrder>)
  {
    forall i, j :: 0 <= i < j < |fills| ==> !Better(side, fills[j].price, fills[i].price)
  }

  /** What a plan has booked against exchange `name`: EUR for a Buy, BTC for a Sell. */
  function Spent(side: OrderType, fills: seq<ExecutionOrder>, name: string): real
  {
    if |fills| == 0 then 0.0
    else
      var f := fills[|fills| - 1];
      Spent(side, fills[..|fills| - 1], name) + (if f.exchange == name then Cost(side, f.amount, f.price) else 0.0)
  }

  lemma WalkUnfold(side: OrderType, st: WalkState, s: seq<Candidate>, c: Candidate)
    ensures Walk(side, st, s + [c]) == Step(side, Walk(side, st, s), c)
  {
    assert (s + [c])[..|s|] == s;
  }

  /** Conservation: what is left of the request is the request minus what was
      filled, never negative, and every fill is positive. */
  lemma {:induction false} WalkConserves(side: OrderType, amount: real, s: seq<Candidate>)
    ensures var w := Walk(side, Start(amount), s);
            && w.remaining == amount - Total(w.fills)
            && (amount > 0.0 ==> w.remaining >= 0.0)
            && (amount <= 0.0 ==> w.fills == [])
            && forall k :: 0 <= k < |w.fills| ==> w.fills[k].amount > 0.0
  {
    if |s| > 0 {
      var p := s[..|s| - 1];
      WalkConserves(side, amount, p);
      var w0 := Walk(side, Start(amount), p);
      var w := Step(side, w0, s[|s| - 1]);
      StepSpec(side, w0, s[|s| - 1]);
      if |w.fills| == |w0.fills| + 1 {
        assert w.fills[..|w.fills| - 1] == w0.fills;
      }
    }
  }

  /** Every fill was cut from a candidate the walk was given, and from a
      different one for each fill: each order is visited once and yields at
      most one fill. */
  lemma {:induction false} WalkProvenance(side: OrderType, st: WalkState, s: seq<Candidate>)
    requires st.fills == []
    ensures forall k :: 0 <= k < |Walk(side, st, s).fills| ==>
              exists j :: 0 <= j < |s| && Serves(Walk(side, st, s).fills[k], s[j])
    ensures exists idx :: Matched(Walk(side, st, s).fills, s, idx)
  {
    WalkMatched(side, st, s);
    if |s| > 0 {
      var p := s[..|s| - 1];
      WalkProvenance(side, st, p);
      var w0 := Walk(side, st, p);
      var w := Step(side, w0, s[|s| - 1]);
      StepSpec(side, w0, s[|s| - 1]);
      assert Walk(side, st, s) == w;
      forall k | 0 <= k < |w.fills| ensures exists j :: 0 <= j < |s| && Serves(w.fills[k], s[j]) {
        if k < |w0.fills| {
          assert w.fills[k] == w0.fills[k];
          assert exists j :: 0 <= j < |p| && Serves(w0.fills[k], p[j]);
          var j :| 0 <= j < |p| && Serves(w0.fills[k], p[j]);
          assert s[j] == p[j];
        } else {
          assert Serves(w.fills[k], s[|s| - 1]);
        }
      }
    } else {
      assert Walk(side, st, s) == st;
    }
  }

  /** The matching of fills to distinct candidates, built pass by pass: a
      pass that emits a fill charges it to the candidate just visited. */
  lemma {:induction false} WalkMatched(side: OrderType, st: WalkState, s: seq<Candidate>)
    requires st.fills == []
    ensures exists idx :: Matched(Walk(side, st, s).fills, s, idx)
  {
    if |s| == 0 {
      assert Walk(side, st, s) == st;
      assert Matched(st.fills, s, []);
    } else {
      var p, c := s[..|s| - 1], s[|s| - 1];
      WalkMatched(side, st, p);
      var w0 := Walk(side, st, p);
      var idx0 :| Matched(w0.fills, p, idx0);
      var w := Step(side, w0, c);
      StepSpec(side, w0, c);
      assert Walk(side, st, s) == w;
      if |w.fills| == |w0.fills| + 1 {
        var idx := idx0 + [|s| - 1];
        forall k | 0 <= k < |idx| ensures 0 <= idx[k] < |s| && Serves(w.fills[k], s[idx[k]]) {
          if k < |idx0| {
            assert w.fills[k] == w0.fills[k];
            assert s[idx0[k]] == p[idx0[k]];
          }
        }
        assert Matched(w.fills, s, idx);
      } else {
        forall k | 0 <= k < |idx0| ensures Serves(w.fills[k], s[idx0[k]]) {
          assert s[idx0[k]] == p[idx0[k]];
        }
        assert Matched(w.fills, s, idx0);
      }
    }
  }

  /** Price priority: walking a sorted candidate list, fill prices never improve. */
  lemma {:induction false} WalkInPriority(side: OrderType, st: WalkState, s: seq<Candidate>)
    requires st.fills == []
    requires Sorted(side, s)
    ensures FillsInPriority(side, Walk(side, st, s).fills)
  {
    if |s| > 0 {
      var p := s[..|s| - 1];
      var c := s[|s| - 1];
      assert Sorted(side, p);
      WalkInPriority(side, st, p);
      WalkProvenance(side, st, p);
      var w0 := Walk(side, st, p);
      var w := Step(side, w0, c);
      StepSpec(side, w0, c);
      assert Walk(side, st, s) == w;
      if |w.fills| == |w0.fills| + 1 {
        forall i, j | 0 <= i < j < |w.fills| ensures !Better(side, w.fills[j].price, w.fills[i].price) {
          assert w.fills[i] == w0.fills[i];
          if j < |w0.fills| {
            assert w.fills[j] == w0.fills[j];
          } else {
            assert exists k :: 0 <= k < |p| && Serves(w0.fills[i], p[k]);
            var k :| 0 <= k < |p| && Serves(w0.fills[i], p[k]);
            assert p[k] == s[k];
          }
        }
      }
    }
  }

  lemma SpentAppend(side: OrderType, fills: seq<ExecutionOrder>, f: ExecutionOrder, name: string)
    ensures Spent(side, fills + [f], name)
            == Spent(side, fills, name) + (if f.exchange == name then Cost(side, f.amount, f.price) else 0.0)
  {
    assert (fills + [f])[..|fills|] == fills;
  }

  /** The ledger records exactly what the fills booked, exchange by exchange. */
  lemma {:induction false} WalkLedger(side: OrderType, amount: real, s: seq<Candidate>)
    ensures forall n :: Used(Walk(side, Start(amount), s).ledger, n) == Spent(side, Walk(side, Start(amount), s).fills, n)
  {
    if |s| > 0 {
      var p := s[..|s| - 1];
      var c := s[|s| - 1];
      WalkLedger(side, amount, p);
      var w0 := Walk(side, Start(amount), p);
      var w := Step(side, w0, c);
      StepSpec(side, w0, c);
      assert Walk(side, Start(amount), s) == w;
      if |w.fills| == |w0.fills| + 1 {
        assert w.fills == w0.fills + [w.fills[|w0.fills|]];
        forall n ensures Used(w.ledger, n) == Spent(side, w.fills, n) {
          SpentAppend(side, w0.fills, w.fills[|w0.fills|], n);
        }
      }
    } else {
      assert Walk(side, Start(amount), s) == Start(amount);
    }
  }

  /** Per-exchange capacity: if every candidate of exchange `name` carries the
      ceiling `bound`, the walk books at most `bound` against it (nothing at all
      when `bound` is not positive). */
  lemma {:induction false} WalkCapacity(side: OrderType, amount: real, s: seq<Candidate>, name: string, bound: real)
    requires forall c :: c in s && c.exchange == name ==> Ceiling(side, c) == bound
    ensures Spent(side, Walk(side, Start(amount), s).fills, name) <= Max(0.0, bound)
  {
    WalkLedger(side, amount, s);
    WalkUsedBounded(side, amount, s, name, bound);
  }

  lemma {:induction false} WalkUsedBounded(side: OrderType, amount: real, s: seq<Candidate>, name: string, bound: real)
    requires forall c :: c in s && c.exchange == name ==> Ceiling(side, c) == bound
    ensures Used(Walk(side, Start(amount), s).ledger, name) <= Max(0.0, bound)
  {
    if |s| > 0 {
      var p := s[..|s| - 1];
      assert forall c :: c in p ==> c in s;
      WalkUsedBounded(side, amount, p, name, bound);
      StepSpec(side, Walk(side, Start(amount), p), s[|s| - 1]);
    }
  }

  /** A step reads the ledger only through `Used`: ledgers that agree there
      lead to states that agree there. */
  lemma StepCongruent(side: OrderType, a: WalkState, b: WalkState, c: Candidate)
    requires a.remaining == b.remaining && a.fills == b.fills
    requires forall n :: Used(a.ledger, n) == Used(b.ledger, n)
    ensures Step(side, a, c).remaining == Step(side, b, c).remaining
    ensures Step(side, a, c).fills == Step(side, b, c).fills
    ensures forall n :: Used(Step(side, a, c).ledger, n) == Used(Step(side, b, c).ledger, n)
  {
    if a.remaining > 0.0 {
      var la := if c.exchange in a.ledger then a.ledger else a.ledger[c.exchange := 0.0];
      var lb := if c.exchange in b.ledger then b.ledger else b.ledger[c.exchange := 0.0];
      assert la[c.exchange] == Used(a.ledger, c.exchange) == Used(b.ledger, c.exchange) == lb[c.exchange];
      forall n ensures Used(Step(side, a, c).ledger, n) == Used(Step(side, b, c).ledger, n) {
        if n == c.exchange {
          assert Used(la, n) == Used(lb, n);
        } else {
          assert Used(la, n) == Used(a.ledger, n);
          assert Used(lb, n) == Used(b.ledger, n);
        }
      }
    }
  }

  /** Seeding the ledger with zero for some exchanges, as the priority-queue
      strategy does before its first dequeue, changes nothing the walk emits. */
  lemma {:induction false} WalkSeeded(side: OrderType, amount: real, seed: Ledger, s: seq<Candidate>)
    requires forall n :: n in seed ==> seed[n] == 0.0
    ensures Walk(side, WalkState(amount, seed, []), s).remaining == Walk(side, Start(amount), s).remaining
    ensures Walk(side, WalkState(amount, seed, []), s).fills == Walk(side, Start(amount), s).fills
    ensures forall n :: Used(Walk(side, WalkState(amount, seed, []), s).ledger, n)
                        == Used(Walk(side, Start(amount), s).ledger, n)
  {
    if |s| > 0 {
      var p := s[..|s| - 1];
      WalkSeeded(side, amount, seed, p);
      StepCongruent(side, Walk(side, WalkState(amount, seed, []), p), Walk(side, Start(amount), p), s[|s| - 1]);
    } else {
      assert Walk(side, WalkState(amount, seed, []), s) == WalkState(amount, seed, []);
      assert Walk(side, Start(amount), s) == Start(amount);
    }
  }

  /** Once the request is met, further candidates change nothing. */
  lemma {:induction false} WalkStopped(side: OrderType, st: WalkState, s: seq<Candidate>, t: seq<Candidate>)
    requires Walk(side, st, s).remaining <= 0.0
    ensures Walk(side, st, s + t) == Walk(side, st, s)
  {
    if |t| > 0 {
      var t0 := t[..|t| - 1];
      WalkStopped(side, st, s, t0);
      assert t == t0 + [t[|t| - 1]];
      assert s + t == (s + t0) + [t[|t| - 1]];
      WalkUnfold(side, st, s + t0, t[|t| - 1]);
      StepSpec(side, Walk(side, st, s + t0), t[|t| - 1]);
    } else {
      assert s + t == s;
    }
  }

  /** All or nothing: for a positive request the walk yields a plan exactly when
      its fills add up to the whole request; otherwise the error carries the
      part that could not be filled. */
  lemma FinishAllOrNothing(side: OrderType, amount: real, s: seq<Candidate>)
    requires amount > 0.0
    ensures var w := Walk(side, Start(amount), s);
            && (Finish(side, w).Ok? <==> Total(w.fills) == amount)
            && (Finish(side, w).Err? ==>
                  Finish(side, w).error == InsufficientLiquidity(side, amount - Total(w.fills))
                  && 0.0 < amount - Total(w.fills) <= amount)
  {
    WalkConserves(side, amount, s);
    var w := Walk(side, Start(amount), s);
    if w.fills != [] {
      TotalPositive(w.fills);
    }
  }

  /** A plan of positive fills has a positive total. */
  lemma {:induction false} TotalPositive(fills: seq<ExecutionOrder>)
    requires forall k :: 0 <= k < |fills| ==> fills[k].amount > 0.0
    ensures fills != [] ==> Total(fills) > 0.0
    ensures Total(fills) >= 0.0
  {
    if |fills| > 0 {
      TotalPositive(fills[..|fills| - 1]);
    }
  }
}
