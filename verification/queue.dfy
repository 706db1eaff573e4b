/**
  The priority queue of the large-set strategy, kept abstract: a multiset of
  candidates from which a best-priced one is removed each time (a min-heap on
  price for a Buy, a max-heap for a Sell). Which of several equally priced
  candidates comes out first is deliberately left open.
 */
module Queue {
  import opened Models
  import opened Eligible
  import opened Priority

  /** Nothing in `q` is strictly preferable to `c`. */
  predicate IsBest(side: OrderType, c: Candidate, q: multiset<Candidate>)
  {
    forall d :: d in q ==> !Better(side, d.order.price, c.order.price)
  }

  /** A non-empty queue always has an element to dequeue. */
  lemma BestExists(side: OrderType, q: multiset<Candidate>)
    requires |q| > 0
    ensures exists c :: c in q && IsBest(side, c, q)
    decreases |q|
  {
    var x :| x in q;
    var rest := q - multiset{x};
    assert q == rest + multiset{x};
    if |rest| == 0 {
      assert rest == multiset{};
      assert IsBest(side, x, q);
    } else {
      BestExists(side, rest);
      var y :| y in rest && IsBest(side, y, rest);
      assert forall d :: d in q ==> d == x || d in rest;
      if Better(side, x.order.price, y.order.price) {
        assert IsBest(side, x, q);
      } else {
        assert IsBest(side, y, q);
      }
    }
  }

  /** Some arrangement of the elements of a multiset, used only in proofs. */
  ghost function SeqOf(m: multiset<Candidate>): (r: seq<Candidate>)
    ensures multiset(r) == m
    decreases |m|
  {
    if |m| == 0 then []
    else
      var x :| x in m;
      [x] + SeqOf(m - multiset{x})
  }

  /** Everything still queued is no better than anything already dequeued. */
  predicate Precedes(side: OrderType, taken: seq<Candidate>, q: multiset<Candidate>)
  {
    forall k, d :: 0 <= k < |taken| && d in q ==> !Better(side, d.order.price, taken[k].order.price)
  }

  /** Dequeuing a best entry keeps the dequeued sequence price-sorted and ahead
      of what remains. */
  lemma DequeueBest(side: OrderType, taken: seq<Candidate>, q: multiset<Candidate>, c: Candidate)
    requires Sorted(side, taken) && Precedes(side, taken, q)
    requires c in q && IsBest(side, c, q)
    ensures Sorted(side, taken + [c])
    ensures Precedes(side, taken + [c], q - multiset{c})
    ensures multiset(taken + [c]) + (q - multiset{c}) == multiset(taken) + q
  {
    var t := taken + [c];
    forall i, j | 0 <= i < j < |t| ensures !Better(side, t[j].order.price, t[i].order.price) {
      if j < |taken| {
        assert t[i] == taken[i] && t[j] == taken[j];
      } else {
        assert t[i] == taken[i] && t[j] == c;
      }
    }
    forall k, d | 0 <= k < |t| && d in q - multiset{c} ensures !Better(side, d.order.price, t[k].order.price) {
      assert d in q;
      if k < |taken| {
        assert t[k] == taken[k];
      }
    }
  }

  /** The rest of a queue, in price order, as a proof-only sequence. */
  ghost function Remaining(side: OrderType, q: multiset<Candidate>): (r: seq<Candidate>)
    ensures Sorted(side, r) && multiset(r) == q
  {
    SortByPriorityCorrect(side, SeqOf(q));
    SortByPriority(side, SeqOf(q))
  }

  /** What was dequeued, followed by the rest of the queue in price order, is a
      price-sorted arrangement of everything that was queued. */
  lemma ArrangeRest(side: OrderType, taken: seq<Candidate>, q: multiset<Candidate>)
    requires Sorted(side, taken) && Precedes(side, taken, q)
    ensures Sorted(side, taken + Remaining(side, q))
    ensures multiset(taken + Remaining(side, q)) == multiset(taken) + q
  {
    var rest := Remaining(side, q);
    forall i, d | 0 <= i < |taken| && d in rest ensures !Better(side, d.order.price, taken[i].order.price) {
      assert d in multiset(rest);
    }
    SortedConcat(side, taken, rest);
  }
}
