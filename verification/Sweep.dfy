/** What it costs to take units from an order book front to back, and that nothing is cheaper. */
module Sweep {
  import opened OrderBook

  /** The price of `n` units at `p` each. */
  function Pay(p: real, n: int): real {
    p * (n as real)
  }

  function Total(q: seq<Level>): int {
    if q == [] then 0 else q[0].size + Total(q[1..])
  }

  /** The size of the first `i` levels. */
  function Depth(q: seq<Level>, i: nat): int
    requires i <= |q|
  {
    Total(q[..i])
  }

  /** The cost of the first `units` units of the book. */
  function Cost(q: seq<Level>, units: int): real {
    if q == [] || units <= 0 then 0.0
    else if units <= q[0].size then Pay(q[0].price, units)
    else Pay(q[0].price, q[0].size) + Cost(q[1..], units - q[0].size)
  }

  /** The price of unit number `units`, counting from 1. */
  function LastPrice(q: seq<Level>, units: int): real
    requires 0 < units <= Total(q)
  {
    if units <= q[0].size then q[0].price else LastPrice(q[1..], units - q[0].size)
  }

  /** The price of the unit after the first `units`. */
  function NextPrice(q: seq<Level>, units: int): real
    requires 0 <= units < Total(q)
  {
    if units < q[0].size then q[0].price else NextPrice(q[1..], units - q[0].size)
  }

  // ---------------------------------------------------------------- the cost curve

  lemma TailAscends(q: seq<Level>)
    requires q != [] && Ascending(q) && PositiveSizes(q)
    ensures Ascending(q[1..]) && PositiveSizes(q[1..])
  {}

  lemma {:induction false} TotalNonnegative(q: seq<Level>)
    requires PositiveSizes(q)
    ensures Total(q) >= 0 && (q != [] ==> Total(q) > 0)
  {
    if q != [] {
      TotalNonnegative(q[1..]);
    }
  }

  /** Prices along the curve: never below the first, never falling. */
  lemma {:induction false} PricesRise(q: seq<Level>, x: int, y: int)
    requires Ascending(q) && PositiveSizes(q) && 0 <= x < y <= Total(q)
    ensures q[0].price <= NextPrice(q, x) <= LastPrice(q, y)
  {
    var s := q[0].size;
    TailAscends(q);
    if x >= s {
      PricesRise(q[1..], x - s, y - s);
    } else if y > s {
      PricesRise(q[1..], 0, y - s);
    }
  }

  lemma {:induction false} LastThenNext(q: seq<Level>, x: int)
    requires Ascending(q) && PositiveSizes(q) && 0 < x < Total(q)
    ensures LastPrice(q, x) <= NextPrice(q, x)
  {
    var s := q[0].size;
    TailAscends(q);
    if x > s {
      LastThenNext(q[1..], x - s);
    } else if x == s {
      PricesRise(q[1..], 0, 1);
    }
  }

  lemma PayMore(p: real, r: real, n: int)
    requires n > 0
    ensures p <= r ==> Pay(p, n) <= Pay(r, n)
    ensures Pay(p, n) == Pay(r, n) <==> p == r
  {}

  lemma PaySum(p: real, a: int, b: int)
    ensures Pay(p, a + b) == Pay(p, a) + Pay(p, b)
  {}

  lemma CostWithinFront(q: seq<Level>, x: int, y: int)
    requires q != [] && 0 <= x <= y <= q[0].size
    ensures Cost(q, y) - Cost(q, x) == Pay(q[0].price, y - x)
  {}

  /**
    The units from `x` to `y` cost at most `p` each, for any `p` not below the dearest of them,
    and exactly `p` each only when the cheapest of them is not below `p` either.
   */
  lemma {:induction false} CostBelow(q: seq<Level>, x: int, y: int, p: real)
    requires Ascending(q) && PositiveSizes(q) && 0 <= x < y <= Total(q) && LastPrice(q, y) <= p
    ensures Cost(q, y) - Cost(q, x) <= Pay(p, y - x)
    ensures Cost(q, y) - Cost(q, x) == Pay(p, y - x) <==> p <= NextPrice(q, x)
  {
    hide Pay;
    var s, h, t := q[0].size, q[0].price, q[1..];
    TailAscends(q);
    if y <= s {
      CostWithinFront(q, x, y);
      PayMore(h, p, y - x);
    } else if s <= x {
      CostBelow(t, x - s, y - s, p);
    } else {
      PricesRise(q, x, y);
      PricesRise(t, 0, y - s);
      assert h <= t[0].price == NextPrice(t, 0);
      CostBelow(t, 0, y - s, p);
      CostWithinFront(q, x, s);
      assert Cost(q, y) - Cost(q, x) == Pay(h, s - x) + Cost(t, y - s);
      PaySum(p, s - x, y - s);
      PayMore(h, p, s - x);
    }
  }

  /** The mirror image, for any `p` not above the cheapest of the units. */
  lemma {:induction false} CostAbove(q: seq<Level>, x: int, y: int, p: real)
    requires Ascending(q) && PositiveSizes(q) && 0 <= x < y <= Total(q) && p <= NextPrice(q, x)
    ensures Cost(q, y) - Cost(q, x) >= Pay(p, y - x)
    ensures Cost(q, y) - Cost(q, x) == Pay(p, y - x) <==> LastPrice(q, y) <= p
  {
    hide Pay;
    var s, h, t := q[0].size, q[0].price, q[1..];
    TailAscends(q);
    if y <= s {
      CostWithinFront(q, x, y);
      PayMore(p, h, y - x);
    } else if s <= x {
      CostAbove(t, x - s, y - s, p);
    } else {
      PricesRise(q, x, y);
      PricesRise(t, 0, y - s);
      assert h <= t[0].price == NextPrice(t, 0);
      CostAbove(t, 0, y - s, p);
      CostWithinFront(q, x, s);
      assert Cost(q, y) - Cost(q, x) == Pay(h, s - x) + Cost(t, y - s);
      PaySum(p, s - x, y - s);
      PayMore(p, h, s - x);
    }
  }

  // ---------------------------------------------------------------- extrapolating one level's price

  /** The cost up to level `j`, then `units` less that many at level `j`'s price. */
  function Extrapolated(q: seq<Level>, j: nat, units: int): real
    requires j < |q|
  {
    Cost(q, Depth(q, j)) + Pay(q[j].price, units - Depth(q, j))
  }

  /** The price of level `j` is a price of the book at `units`: not below the unit before, nor above the one after. */
  predicate Brackets(q: seq<Level>, j: nat, units: int)
    requires j < |q| && 0 < units <= Total(q)
  {
    LastPrice(q, units) <= q[j].price && (units < Total(q) ==> q[j].price <= NextPrice(q, units))
  }

  /** Where level `j` begins on the curve. */
  lemma {:induction false} LevelBegins(q: seq<Level>, j: nat)
    requires Ascending(q) && PositiveSizes(q) && j < |q|
    ensures 0 <= Depth(q, j) && Depth(q, j) + q[j].size == Depth(q, j + 1) <= Total(q)
    ensures NextPrice(q, Depth(q, j)) == q[j].price
    ensures j > 0 ==> 0 < Depth(q, j) && LastPrice(q, Depth(q, j)) == q[j - 1].price
  {
    TailAscends(q);
    TotalNonnegative(q[1..]);
    assert q[..j + 1][1..] == q[1..][..j];
    if j > 0 {
      assert q[..j][1..] == q[1..][..j - 1];
      LevelBegins(q[1..], j - 1);
    }
  }

  /** On an ascending book extrapolation never exceeds the true cost, and meets it exactly when bracketed. */
  lemma ExtrapolationIsTangent(q: seq<Level>, j: nat, units: int)
    requires Ascending(q) && PositiveSizes(q) && j < |q| && 0 < units <= Total(q)
    ensures Extrapolated(q, j, units) <= Cost(q, units)
    ensures Extrapolated(q, j, units) == Cost(q, units) <==> Brackets(q, j, units)
  {
    var d, p := Depth(q, j), q[j].price;
    LevelBegins(q, j);
    PaySum(p, d - units, units - d);
    assert Pay(p, 0) == 0.0;
    hide Pay;
    if d < units {
      CostAbove(q, d, units, p);
      PricesRise(q, d, units);
    } else if units < d {
      CostBelow(q, units, d, p);
      PricesRise(q, units, d);
    }
    if units < Total(q) {
      LastThenNext(q, units);
    }
  }

  /** Inside level `j` extrapolation is the cost itself, in any book. */
  lemma {:induction false} CostWithinLevel(q: seq<Level>, j: nat, units: int)
    requires PositiveSizes(q) && j < |q| && Depth(q, j) <= units <= Depth(q, j + 1)
    ensures Cost(q, units) == Extrapolated(q, j, units)
  {
    assert q[..j + 1][1..] == q[1..][..j];
    if j > 0 {
      assert q[..j][1..] == q[1..][..j - 1];
      TotalNonnegative(q[1..][..j - 1]);
      CostWithinLevel(q[1..], j - 1, units - q[0].size);
    } else {
      CostWithinFront(q, 0, units);
    }
  }

  lemma {:induction false} DepthStep(q: seq<Level>, i: nat)
    requires PositiveSizes(q) && i < |q|
    ensures 0 <= Depth(q, i) && Depth(q, i + 1) == Depth(q, i) + q[i].size <= Total(q)
  {
    assert q[..i + 1][1..] == q[1..][..i];
    TotalNonnegative(q[1..]);
    if i > 0 {
      assert q[..i][1..] == q[1..][..i - 1];
      DepthStep(q[1..], i - 1);
    }
  }

  /** The numerator of the running average, after `units` units with the last of them in level `i`. */
  lemma RunningCost(q: seq<Level>, i: nat, price: real, units: int)
    requires PositiveSizes(q) && i < |q| && Depth(q, i) <= units <= Depth(q, i + 1)
    requires Pay(price, Depth(q, i)) == Cost(q, Depth(q, i))
    ensures Pay(q[i].price, units - Depth(q, i)) + Pay(price, Depth(q, i)) == Cost(q, units)
  {
    CostWithinLevel(q, i, units);
  }

  // ---------------------------------------------------------------- average prices

  /** The average price of a sweep lies between the first price and the price of its last unit. */
  lemma AverageBetween(q: seq<Level>, units: int)
    requires Ascending(q) && PositiveSizes(q) && 0 < units <= Total(q)
    ensures Pay(q[0].price, units) <= Cost(q, units) <= Pay(LastPrice(q, units), units)
  {
    hide Pay;
    PricesRise(q, 0, units);
    CostAbove(q, 0, units, q[0].price);
    CostBelow(q, 0, units, LastPrice(q, units));
  }

  /** Sweeping further never lowers the average price. */
  lemma AverageRises(q: seq<Level>, x: int, y: int)
    requires Ascending(q) && PositiveSizes(q) && 0 < x <= y <= Total(q)
    ensures Cost(q, x) / (x as real) <= Cost(q, y) / (y as real)
  {
    if x < y {
      var last := LastPrice(q, x);
      AverageBetween(q, x);
      LastThenNext(q, x);
      CostAbove(q, x, y, last);
      QuotientRises(Cost(q, x), Cost(q, y), last, x, y);
    }
  }

  lemma QuotientRises(a: real, b: real, p: real, x: int, y: int)
    requires 0 < x < y && a <= Pay(p, x) && b - a >= Pay(p, y - x)
    ensures a / (x as real) <= b / (y as real)
  {}

  // ---------------------------------------------------------------- nothing is cheaper

  function Sum(take: seq<int>): int {
    if take == [] then 0 else take[0] + Sum(take[1..])
  }

  /** What it costs to take `take[i]` units of each level `i`. */
  function Spend(q: seq<Level>, take: seq<int>): real
    requires |take| == |q|
  {
    if q == [] then 0.0 else Pay(q[0].price, take[0]) + Spend(q[1..], take[1..])
  }

  /** A way of taking `units` units within the quoted sizes. */
  ghost predicate IsFill(q: seq<Level>, take: seq<int>, units: int) {
    && |take| == |q| && Sum(take) == units
    && forall i :: 0 <= i < |q| ==> 0 <= take[i] <= q[i].size
  }

  function GreedyFill(q: seq<Level>, units: int): (take: seq<int>)
    ensures |take| == |q|
  {
    if q == [] then []
    else
      var n := if units <= q[0].size then units else q[0].size;
      [n] + GreedyFill(q[1..], units - n)
  }

  lemma {:induction false} GreedyFillCosts(q: seq<Level>, units: int)
    requires PositiveSizes(q) && 0 <= units <= Total(q)
    ensures IsFill(q, GreedyFill(q, units), units) && Spend(q, GreedyFill(q, units)) == Cost(q, units)
  {
    if q != [] {
      TotalNonnegative(q[1..]);
      var n := if units <= q[0].size then units else q[0].size;
      GreedyFillCosts(q[1..], units - n);
      assert GreedyFill(q, units)[1..] == GreedyFill(q[1..], units - n);
    }
  }

  lemma FillTail(q: seq<Level>, take: seq<int>, units: int)
    requires q != [] && IsFill(q, take, units)
    ensures IsFill(q[1..], take[1..], units - take[0])
    ensures 0 <= take[0] <= q[0].size
  {}

  lemma {:induction false} FillWithinTotal(q: seq<Level>, take: seq<int>, units: int)
    requires IsFill(q, take, units)
    ensures 0 <= units <= Total(q)
  {
    if q != [] {
      FillTail(q, take, units);
      FillWithinTotal(q[1..], take[1..], units - take[0]);
    }
  }

  /** Sweeping an ascending book from the front is a cheapest way to take that many units. */
  lemma {:induction false} NothingCheaper(q: seq<Level>, take: seq<int>, units: int)
    requires Ascending(q) && PositiveSizes(q) && IsFill(q, take, units)
    ensures Cost(q, units) <= Spend(q, take)
  {
    hide Pay;
    FillWithinTotal(q, take, units);
    if q != [] && units > 0 {
      var s, h, t, n := q[0].size, q[0].price, q[1..], take[0];
      TailAscends(q);
      FillTail(q, take, units);
      FillWithinTotal(t, take[1..], units - n);
      NothingCheaper(t, take[1..], units - n);
      PaySum(h, n, (if units <= s then units else s) - n);
      if units <= s {
        if n < units {
          CostAbove(t, 0, units - n, h);
        }
        assert Pay(h, 0) == 0.0 by { PaySum(h, 0, 0); }
      } else if n < s {
        PricesRise(t, units - s, units - n);
        CostAbove(t, units - s, units - n, h);
      } else {
        assert Pay(h, 0) == 0.0 by { PaySum(h, 0, 0); }
      }
    } else {
      SpendNothing(q, take);
    }
  }

  lemma {:induction false} SpendNothing(q: seq<Level>, take: seq<int>)
    requires IsFill(q, take, 0)
    ensures Spend(q, take) == 0.0
  {
    if q != [] {
      FillTail(q, take, 0);
      FillWithinTotal(q[1..], take[1..], 0 - take[0]);
      SpendNothing(q[1..], take[1..]);
    }
  }
}
