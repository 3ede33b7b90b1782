/** The sweep of the sorted book costs the least any taker of the unsorted quotes could pay. */
module LeastCost {
  import opened OrderBook
  import opened Sweep

  /** `cost` is the minimum over all ways of taking `units` units from the quotes. */
  ghost predicate IsLeastCost(q: seq<Level>, units: int, cost: real) {
    && (exists take :: IsFill(q, take, units) && Spend(q, take) == cost)
    && (forall take :: IsFill(q, take, units) ==> cost <= Spend(q, take))
  }

  lemma {:induction false} SpendConcat(a: seq<Level>, b: seq<Level>, x: seq<int>, y: seq<int>)
    requires |a| == |x| && |b| == |y|
    ensures Spend(a + b, x + y) == Spend(a, x) + Spend(b, y)
    ensures Sum(x + y) == Sum(x) + Sum(y)
  {
    if a == [] {
      assert a + b == b && x + y == y;
    } else {
      SpendConcat(a[1..], b, x[1..], y);
      assert (a + b)[1..] == a[1..] + b && (x + y)[1..] == x[1..] + y;
    }
  }

  /** Where the first level of one order is found in another, and what is left of both. */
  lemma FindFirst(q: seq<Level>, q': seq<Level>) returns (k: nat)
    requires q != [] && multiset(q) == multiset(q')
    ensures k < |q'| && q'[k] == q[0] && q' == q'[..k] + [q[0]] + q'[k + 1..]
    ensures multiset(q[1..]) == multiset(q'[..k] + q'[k + 1..])
  {
    var h, t := q[0], q[1..];
    assert q == [h] + t;
    assert h in multiset(q');
    k :| 0 <= k < |q'| && q'[k] == h;
    var front, back := q'[..k], q'[k + 1..];
    assert q' == front + [h] + back;
    assert multiset(q) == multiset{h} + multiset(t);
    assert multiset(q') == multiset(front) + multiset{h} + multiset(back);
    assert multiset(front + back) == multiset(front) + multiset(back);
    assert multiset(t) == multiset(q) - multiset{h};
  }

  /** A fill of one order of the quotes is, rearranged, a fill of any other order. */
  lemma {:induction false} RearrangeFill(q: seq<Level>, take: seq<int>, units: int, q': seq<Level>)
    returns (take': seq<int>)
    requires IsFill(q, take, units) && multiset(q) == multiset(q')
    ensures IsFill(q', take', units) && Spend(q', take') == Spend(q, take)
    decreases |q|
  {
    if q == [] {
      assert |q'| == |multiset(q')| == |multiset(q)| == 0;
      take' := [];
    } else {
      var h, t := q[0], q[1..];
      var k := FindFirst(q, q');
      var front, back := q'[..k], q'[k + 1..];
      FillTail(q, take, units);
      var rest := RearrangeFill(t, take[1..], units - take[0], front + back);
      take' := rest[..k] + [take[0]] + rest[k..];
      PutBack(front, back, rest, h, take[0], units - take[0]);
    }
  }

  lemma PutBack(front: seq<Level>, back: seq<Level>, rest: seq<int>, h: Level, n: int, units: int)
    requires IsFill(front + back, rest, units) && 0 <= n <= h.size
    ensures var k := |front|;
      var take := rest[..k] + [n] + rest[k..];
      && IsFill(front + [h] + back, take, units + n)
      && Spend(front + [h] + back, take) == Spend(front + back, rest) + Pay(h.price, n)
  {
    var k := |front|;
    var x, y := rest[..k], rest[k..];
    assert rest == x + y;
    SpendConcat(front, back, x, y);
    SpendConcat([h], back, [n], y);
    SpendConcat(front, [h] + back, x, [n] + y);
    assert front + [h] + back == front + ([h] + back) && x + [n] + y == x + ([n] + y);
    assert Spend([h], [n]) == Pay(h.price, n) && Sum([n]) == n;
    var take := x + [n] + y;
    forall i | 0 <= i < |take|
      ensures 0 <= take[i] <= (front + [h] + back)[i].size
    {
      if i > k {
        assert take[i] == rest[i - 1] && (front + [h] + back)[i] == (front + back)[i - 1];
      } else if i < k {
        assert take[i] == rest[i] && (front + [h] + back)[i] == (front + back)[i];
      }
    }
  }

  lemma PermutedSizes(q: seq<Level>, q': seq<Level>)
    requires multiset(q) == multiset(q') && PositiveSizes(q)
    ensures PositiveSizes(q')
  {
    forall i | 0 <= i < |q'|
      ensures q'[i].size > 0
    {
      assert q'[i] in multiset(q);
    }
  }

  lemma {:induction false} PermutedTotal(q: seq<Level>, q': seq<Level>)
    requires multiset(q) == multiset(q')
    ensures Total(q) == Total(q')
    decreases |q|
  {
    if q == [] {
      assert |q'| == |multiset(q')| == |multiset(q)| == 0;
    } else {
      var h, t := q[0], q[1..];
      var k := FindFirst(q, q');
      var front, back := q'[..k], q'[k + 1..];
      PermutedTotal(t, front + back);
      TotalConcat(front, back);
      TotalConcat([h], back);
      TotalConcat(front, [h] + back);
      assert front + [h] + back == front + ([h] + back);
    }
  }

  lemma {:induction false} TotalConcat(a: seq<Level>, b: seq<Level>)
    ensures Total(a + b) == Total(a) + Total(b)
  {
    if a == [] {
      assert a + b == b;
    } else {
      TotalConcat(a[1..], b);
      assert (a + b)[1..] == a[1..] + b;
    }
  }

  /** Greedy is optimal: the sorted sweep is the cheapest way to take the units from the quotes. */
  lemma SortedSweepIsLeast(quotes: seq<Level>, units: int)
    requires PositiveSizes(quotes) && 0 <= units <= Total(quotes)
    ensures IsLeastCost(quotes, units, Cost(Sort(quotes), units))
  {
    var book := Sort(quotes);
    SortIsStable(quotes);
    PermutedSizes(quotes, book);
    PermutedTotal(quotes, book);
    GreedyFillCosts(book, units);
    var take := RearrangeFill(book, GreedyFill(book, units), units, quotes);
    forall other | IsFill(quotes, other, units)
      ensures Cost(book, units) <= Spend(quotes, other)
    {
      var other' := RearrangeFill(quotes, other, units, book);
      NothingCheaper(book, other', units);
    }
  }

  /** The order in which the venues are merged does not change what a sweep costs. */
  lemma MergeOrderIrrelevant(quotes: seq<Level>, quotes': seq<Level>, units: int)
    requires PositiveSizes(quotes) && 0 <= units <= Total(quotes) && multiset(quotes) == multiset(quotes')
    ensures Cost(Sort(quotes), units) == Cost(Sort(quotes'), units)
  {
    PermutedSizes(quotes, quotes');
    PermutedTotal(quotes, quotes');
    SortedSweepIsLeast(quotes, units);
    SortedSweepIsLeast(quotes', units);
    var take :| IsFill(quotes, take, units) && Spend(quotes, take) == Cost(Sort(quotes), units);
    var take' := RearrangeFill(quotes, take, units, quotes');
    var least :| IsFill(quotes', least, units) && Spend(quotes', least) == Cost(Sort(quotes'), units);
    var least' := RearrangeFill(quotes', least, units, quotes);
  }
}
