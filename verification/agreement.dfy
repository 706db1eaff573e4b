/**
  Agreement between the two strategies. The sort-then-scan strategy walks the
  stable price sort of the eligible orders; the priority-queue strategy walks
  whatever price-sorted arrangement its dequeues produce. When no two eligible
  orders share a price, there is only one such arrangement.
 */
module Agreement {
  import opened Models
  import opened Eligible
  import opened Priority
  import opened Allocation

  /** With pairwise-distinct prices, every price-sorted arrangement of the
      eligible orders is the stable sort, so both strategies walk the same list. */
  lemma OnlyArrangement(side: OrderType, exchanges: seq<NamedExchange>, t: seq<Candidate>)
    requires Sorted(side, t)
    requires multiset(t) == multiset(Collect(side, exchanges))
    requires DistinctPrices(Collect(side, exchanges))
    ensures t == SortByPriority(side, Collect(side, exchanges))
  {
    var all := Collect(side, exchanges);
    var sorted := SortByPriority(side, all);
    SortByPriorityCorrect(side, all);
    DistinctPricesPermutation(all, sorted);
    SortedPermutationUnique(side, sorted, t);
  }
}
