/**
  Price priority: the stable LINQ sort of the collected orders, ascending by
  price for a Buy (`OrderBy`) and descending for a Sell (`OrderByDescending`),
  ties kept in encounter order.
 */
module Priority {
  import opened Models
  import opened Eligible

  /** Price `p` is strictly preferable to `q` for a request of side `side`:
      cheaper when buying, dearer when selling. */
  predicate Better(side: OrderType, p: real, q: real)
  {
    if side == Buy then p < q else p > q
  }

  /** No candidate is strictly preferable to one placed before it. */
  predicate Sorted(side: OrderType, s: seq<Candidate>)
  {
    forall i, j :: 0 <= i < j < |s| ==> !Better(side, s[j].order.price, s[i].order.price)
  }

  /** The candidates of `s` quoting exactly price `p`, in their order in `s`. */
  function AtPrice(s: seq<Candidate>, p: real): (r: seq<Candidate>)
    ensures |r| <= |s|
  {
    if |s| == 0 then []
    else
      (if s[0].order.price == p then [s[0]] else []) + AtPrice(s[1..], p)
  }

  /** `AtPrice` keeps exactly the candidates quoting `p`. */
  lemma {:induction false} AtPriceMembers(s: seq<Candidate>, p: real)
    ensures forall c :: c in AtPrice(s, p) <==> c in s && c.order.price == p
  {
    if |s| > 0 {
      AtPriceMembers(s[1..], p);
      assert forall c :: c in s <==> c == s[0] || c in s[1..];
    }
  }

  /** Inserts `c` behind every candidate at least as good, so that among equal
      prices the later-inserted candidate comes last. */
  function Insert(side: OrderType, s: seq<Candidate>, c: Candidate): seq<Candidate>
  {
    if |s| == 0 then [c]
    else if Better(side, c.order.price, s[0].order.price) then [c] + s
    else [s[0]] + Insert(side, s[1..], c)
  }

  /** Insertion adds `c` and loses nothing. */
  lemma {:induction false} InsertPermutes(side: OrderType, s: seq<Candidate>, c: Candidate)
    ensures multiset(Insert(side, s, c)) == multiset(s) + multiset{c}
  {
    if |s| > 0 && !Better(side, c.order.price, s[0].order.price) {
      InsertPermutes(side, s[1..], c);
      assert s == [s[0]] + s[1..];
    }
  }

  /** The stable price sort. */
  function SortByPriority(side: OrderType, s: seq<Candidate>): (r: seq<Candidate>)
    ensures multiset(r) == multiset(s)
  {
    if |s| == 0 then []
    else
      assert s == s[..|s| - 1] + [s[|s| - 1]];
      InsertPermutes(side, SortByPriority(side, s[..|s| - 1]), s[|s| - 1]);
      Insert(side, SortByPriority(side, s[..|s| - 1]), s[|s| - 1])
  }

  // ---------------------------------------------------------------------------
  // Properties of the sort

  /** Nothing in `s` is strictly preferable to price `q`. */
  predicate NoneBetter(side: OrderType, s: seq<Candidate>, q: real)
  {
    forall k :: 0 <= k < |s| ==> !Better(side, s[k].order.price, q)
  }

  lemma {:induction false} InsertNoneBetter(side: OrderType, s: seq<Candidate>, c: Candidate, q: real)
    requires NoneBetter(side, s, q) && !Better(side, c.order.price, q)
    ensures NoneBetter(side, Insert(side, s, c), q)
  {
    if |s| > 0 && !Better(side, c.order.price, s[0].order.price) {
      InsertNoneBetter(side, s[1..], c, q);
      var r := Insert(side, s, c);
      assert r == [s[0]] + Insert(side, s[1..], c);
      forall k | 0 <= k < |r| ensures !Better(side, r[k].order.price, q) {
        if k > 0 {
          assert r[k] == Insert(side, s[1..], c)[k - 1];
        }
      }
    } else if |s| > 0 {
      var r := Insert(side, s, c);
      assert r == [c] + s;
      forall k | 0 <= k < |r| ensures !Better(side, r[k].order.price, q) {
        if k > 0 {
          assert r[k] == s[k - 1];
        }
      }
    }
  }

  lemma {:induction false} InsertSorted(side: OrderType, s: seq<Candidate>, c: Candidate)
    requires Sorted(side, s)
    ensures Sorted(side, Insert(side, s, c))
  {
    if |s| == 0 {
    } else if Better(side, c.order.price, s[0].order.price) {
      var r := Insert(side, s, c);
      assert r == [c] + s;
      forall i, j | 0 <= i < j < |r| ensures !Better(side, r[j].order.price, r[i].order.price) {
        assert r[j] == s[j - 1];
        if i > 0 {
          assert r[i] == s[i - 1];
        } else {
          assert !Better(side, s[j - 1].order.price, s[0].order.price);
        }
      }
    } else {
      SortedTail(side, s);
      InsertSorted(side, s[1..], c);
      var t := Insert(side, s[1..], c);
      assert NoneBetter(side, s[1..], s[0].order.price) by {
        forall k | 0 <= k < |s[1..]| ensures !Better(side, s[1..][k].order.price, s[0].order.price) {
          assert s[1..][k] == s[k + 1];
        }
      }
      InsertNoneBetter(side, s[1..], c, s[0].order.price);
      var r := [s[0]] + t;
      assert Insert(side, s, c) == r;
      forall i, j | 0 <= i < j < |r| ensures !Better(side, r[j].order.price, r[i].order.price) {
        assert r[j] == t[j - 1];
        if i > 0 {
          assert r[i] == t[i - 1];
        }
      }
    }
  }

  /** In a sorted sequence headed by something worse than `c`, nothing quotes `c`'s price. */
  lemma NoneAtPriceOfBetter(side: OrderType, s: seq<Candidate>, c: Candidate)
    requires Sorted(side, s) && |s| > 0 && Better(side, c.order.price, s[0].order.price)
    ensures AtPrice(s, c.order.price) == []
  {
    AtPriceMembers(s, c.order.price);
  }

  /** Unfolds `AtPrice` over a sequence with a known head. */
  lemma AtPriceCons(x: Candidate, t: seq<Candidate>, p: real)
    ensures AtPrice([x] + t, p) == (if x.order.price == p then [x] else []) + AtPrice(t, p)
  {
    assert ([x] + t)[1..] == t;
  }

  lemma {:induction false} InsertAtPrice(side: OrderType, s: seq<Candidate>, c: Candidate, p: real)
    requires Sorted(side, s)
    ensures AtPrice(Insert(side, s, c), p) == AtPrice(s, p) + (if c.order.price == p then [c] else [])
  {
    if |s| == 0 || Better(side, c.order.price, s[0].order.price) {
      InsertAtPriceFront(side, s, c, p);
    } else {
      SortedTail(side, s);
      InsertAtPrice(side, s[1..], c, p);
      AtPriceCons(s[0], Insert(side, s[1..], c), p);
      AtPriceCons(s[0], s[1..], p);
      assert s == [s[0]] + s[1..];
    }
  }

  /** The case of `InsertAtPrice` where `c` goes to the front. */
  lemma InsertAtPriceFront(side: OrderType, s: seq<Candidate>, c: Candidate, p: real)
    requires Sorted(side, s)
    requires |s| == 0 || Better(side, c.order.price, s[0].order.price)
    ensures AtPrice(Insert(side, s, c), p) == AtPrice(s, p) + (if c.order.price == p then [c] else [])
  {
    AtPriceCons(c, s, p);
    if |s| > 0 {
      NoneAtPriceOfBetter(side, s, c);
    }
    assert Insert(side, s, c) == [c] + s;
  }

  /** The sort orders by price priority and is stable: for every price, the
      candidates quoting it keep their encounter order. Together these
      determine the result uniquely (see `SortedUnique`). */
  lemma {:induction false} SortByPriorityCorrect(side: OrderType, s: seq<Candidate>)
    ensures Sorted(side, SortByPriority(side, s))
    ensures forall p :: AtPrice(SortByPriority(side, s), p) == AtPrice(s, p)
  {
    if |s| > 0 {
      var init := s[..|s| - 1];
      var last := s[|s| - 1];
      SortByPriorityCorrect(side, init);
      InsertSorted(side, SortByPriority(side, init), last);
      forall p ensures AtPrice(SortByPriority(side, s), p) == AtPrice(s, p) {
        InsertAtPrice(side, SortByPriority(side, init), last, p);
        AtPriceAppend(init, last, p);
        assert s == init + [last];
      }
    }
  }

  lemma {:induction false} AtPriceAppend(s: seq<Candidate>, c: Candidate, p: real)
    ensures AtPrice(s + [c], p) == AtPrice(s, p) + (if c.order.price == p then [c] else [])
  {
    if |s| == 0 {
      assert AtPrice([c], p) == (if c.order.price == p then [c] else []) + AtPrice([c][1..], p);
    } else {
      var head := if s[0].order.price == p then [s[0]] else [];
      assert (s + [c])[0] == s[0] && (s + [c])[1..] == s[1..] + [c];
      assert AtPrice(s + [c], p) == head + AtPrice(s[1..] + [c], p);
      AtPriceAppend(s[1..], c, p);
      assert AtPrice(s, p) == head + AtPrice(s[1..], p);
    }
  }

  lemma AtPriceOfHead(s: seq<Candidate>)
    requires |s| > 0
    ensures AtPrice(s, s[0].order.price) != []
  {
  }

  /** A sorted sequence is determined by its per-price subsequences: the stable
      sort is the only sorted arrangement that keeps encounter order among ties. */
  lemma {:induction false} SortedUnique(side: OrderType, a: seq<Candidate>, b: seq<Candidate>)
    requires Sorted(side, a) && Sorted(side, b)
    requires forall p :: AtPrice(a, p) == AtPrice(b, p)
    ensures a == b
  {
    if |a| == 0 && |b| == 0 {
    } else if |b| == 0 {
      AtPriceOfHead(a);
    } else if |a| == 0 {
      AtPriceOfHead(b);
    } else {
      var pa, pb := a[0].order.price, b[0].order.price;
      if Better(side, pa, pb) {
        NoneAtPriceOfBetter(side, b, a[0]);
        AtPriceMembers(a, pa);
      } else if Better(side, pb, pa) {
        NoneAtPriceOfBetter(side, a, b[0]);
        AtPriceMembers(b, pb);
      } else {
        assert pa == pb;
        assert AtPrice(a, pa)[0] == a[0];
        assert AtPrice(b, pa)[0] == b[0];
        assert a[0] == b[0];
        forall p ensures AtPrice(a[1..], p) == AtPrice(b[1..], p) {
          var head := if pa == p then [a[0]] else [];
          assert AtPrice(a, p) == head + AtPrice(a[1..], p);
          assert AtPrice(b, p) == head + AtPrice(b[1..], p);
          assert (head + AtPrice(a[1..], p))[|head|..] == AtPrice(a[1..], p);
          assert (head + AtPrice(b[1..], p))[|head|..] == AtPrice(b[1..], p);
        }
        SortedUnique(side, a[1..], b[1..]);
        assert a == [a[0]] + a[1..] && b == [b[0]] + b[1..];
      }
    }
  }

  /** No two candidates of `s` quote the same price. */
  predicate DistinctPrices(s: seq<Candidate>)
  {
    forall i, j :: 0 <= i < j < |s| ==> s[i].order.price != s[j].order.price
  }

  lemma SortedTail(side: OrderType, s: seq<Candidate>)
    requires Sorted(side, s) && |s| > 0
    ensures Sorted(side, s[1..])
  {
    forall i, j | 0 <= i < j < |s[1..]|
      ensures !Better(side, s[1..][j].order.price, s[1..][i].order.price)
    {
      assert s[1..][i] == s[i + 1] && s[1..][j] == s[j + 1];
    }
  }

  /** With pairwise-distinct prices, the heads of two sorted arrangements of
      the same multiset coincide. */
  lemma SameHead(side: OrderType, a: seq<Candidate>, b: seq<Candidate>)
    requires Sorted(side, a) && Sorted(side, b)
    requires multiset(a) == multiset(b) && |a| > 0
    requires DistinctPrices(a)
    ensures |b| > 0 && a[0] == b[0]
  {
    assert a[0] in multiset(b);
    assert b[0] in multiset(a);
    var i :| 0 <= i < |b| && b[i] == a[0];
    var j :| 0 <= j < |a| && a[j] == b[0];
    assert !Better(side, b[i].order.price, b[0].order.price);
    assert !Better(side, a[j].order.price, a[0].order.price);
  }

  lemma TailMultiset(a: seq<Candidate>, b: seq<Candidate>)
    requires multiset(a) == multiset(b) && |a| > 0 && |b| > 0 && a[0] == b[0]
    ensures multiset(a[1..]) == multiset(b[1..])
  {
    assert a == [a[0]] + a[1..] && b == [b[0]] + b[1..];
    assert multiset(a[1..]) == multiset(a) - multiset{a[0]};
    assert multiset(b[1..]) == multiset(b) - multiset{a[0]};
  }

  lemma DistinctTail(a: seq<Candidate>)
    requires DistinctPrices(a) && |a| > 0
    ensures DistinctPrices(a[1..])
  {
    forall i, j | 0 <= i < j < |a[1..]| ensures a[1..][i].order.price != a[1..][j].order.price {
      assert a[1..][i] == a[i + 1] && a[1..][j] == a[j + 1];
    }
  }

  /** With pairwise-distinct prices, a sorted arrangement of a multiset of
      candidates is unique: any two agree element for element. */
  lemma {:induction false} SortedPermutationUnique(side: OrderType, a: seq<Candidate>, b: seq<Candidate>)
    requires Sorted(side, a) && Sorted(side, b)
    requires multiset(a) == multiset(b)
    requires DistinctPrices(a)
    ensures a == b
  {
    if |a| == 0 {
      assert |b| == |multiset(b)| == 0;
    } else {
      SameHead(side, a, b);
      TailMultiset(a, b);
      DistinctTail(a);
      SortedTail(side, a);
      SortedTail(side, b);
      SortedPermutationUnique(side, a[1..], b[1..]);
    }
  }

  /** Two sorted runs concatenate to a sorted sequence when nothing in the
      second is strictly preferable to anything in the first. */
  lemma SortedConcat(side: OrderType, a: seq<Candidate>, b: seq<Candidate>)
    requires Sorted(side, a) && Sorted(side, b)
    requires forall i, d :: 0 <= i < |a| && d in b ==> !Better(side, d.order.price, a[i].order.price)
    ensures Sorted(side, a + b)
  {
    var r := a + b;
    forall i, j | 0 <= i < j < |r| ensures !Better(side, r[j].order.price, r[i].order.price) {
      if j < |a| {
        assert r[i] == a[i] && r[j] == a[j];
      } else if i < |a| {
        assert r[i] == a[i] && r[j] == b[j - |a|];
        assert b[j - |a|] in b;
      } else {
        assert r[i] == b[i - |a|] && r[j] == b[j - |a|];
      }
    }
  }

  /** A sequence without two equal prices holds every candidate at most once. */
  lemma {:induction false} DistinctPricesOnce(s: seq<Candidate>, x: Candidate)
    requires DistinctPrices(s)
    ensures multiset(s)[x] <= 1
  {
    if |s| > 0 {
      var init := s[..|s| - 1];
      assert DistinctPrices(init);
      DistinctPricesOnce(init, s[|s| - 1]);
      DistinctPricesOnce(init, x);
      assert s == init + [s[|s| - 1]];
    }
  }

  /** Distinct prices are a property of the multiset, not of the arrangement. */
  lemma DistinctPricesPermutation(a: seq<Candidate>, b: seq<Candidate>)
    requires multiset(a) == multiset(b)
    requires DistinctPrices(a)
    ensures DistinctPrices(b)
  {
    forall i, j | 0 <= i < j < |b| ensures b[i].order.price != b[j].order.price {
      assert b[i] in multiset(a) && b[j] in multiset(a);
      if b[i] == b[j] {
        var x := b[i];
        assert b == b[..j] + [b[j]] + b[j + 1..];
        assert x in b[..j];
        assert multiset(b)[x] >= 2;
        DistinctPricesOnce(a, x);
      } else {
        var k :| 0 <= k < |a| && a[k] == b[i];
        var l :| 0 <= l < |a| && a[l] == b[j];
        assert k != l;
      }
    }
  }
}
