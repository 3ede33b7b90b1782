/** How ask tier prices compare with each other and with the quotes, as the guard of the ask loop picks levels. */
module AskTiers {
  import opened OrderBook
  import opened Sweep
  import opened Tiers

  /** The price written for an ask tier. */
  function AskPrice(q: seq<Level>, bidSize: int, tier: int): real
    requires tier > 0 && FireAt(q, bidSize, tier) < |q|
  {
    Extrapolated(q, FireAt(q, bidSize, tier), tier) / (tier as real)
  }

  // ---------------------------------------------------------------- the picked level

  lemma {:induction false} FireAtRises(q: seq<Level>, bidSize: int, x: int, y: int)
    requires x <= y
    ensures FireAt(q, bidSize, x) <= FireAt(q, bidSize, y)
  {
    if q != [] {
      FireAtRises(q[1..], bidSize, x, y);
    }
  }

  ghost predicate SameSizes(q: seq<Level>, q': seq<Level>) {
    |q| == |q'| && forall i :: 0 <= i < |q| ==> q[i].size == q'[i].size
  }

  lemma {:induction false} SizesDecideLevel(q: seq<Level>, q': seq<Level>, bidSize: int, tier: int)
    requires SameSizes(q, q')
    ensures FireAt(q, bidSize, tier) == FireAt(q', bidSize, tier)
  {
    if q != [] {
      SizesDecideLevel(q[1..], q'[1..], bidSize, tier);
    }
  }

  lemma {:induction false} SizesDecideTotal(q: seq<Level>, q': seq<Level>)
    requires SameSizes(q, q')
    ensures Total(q) == Total(q')
  {
    if q != [] {
      SizesDecideTotal(q[1..], q'[1..]);
    }
  }

  // ---------------------------------------------------------------- one level's line

  /** What the units before level `j` are cheaper by than at that level's own price. */
  function Saved(q: seq<Level>, j: nat): real
    requires j < |q|
  {
    Pay(q[j].price, Depth(q, j)) - Cost(q, Depth(q, j))
  }

  lemma SavedNonnegative(q: seq<Level>, j: nat)
    requires Ascending(q) && PositiveSizes(q) && j < |q|
    ensures Saved(q, j) >= 0.0
  {
    LevelBegins(q, j);
    var d := Depth(q, j);
    if j > 0 {
      CostBelow(q, 0, d, q[j].price);
    }
  }

  lemma LineOf(q: seq<Level>, j: nat, units: int)
    requires j < |q|
    ensures Extrapolated(q, j, units) == Pay(q[j].price, units) - Saved(q, j)
  {
    PaySum(q[j].price, units - Depth(q, j), Depth(q, j));
  }

  lemma AverageOfLine(p: real, saved: real, x: int, y: int)
    requires 0 < x <= y && saved >= 0.0
    ensures (Pay(p, x) - saved) / (x as real) <= (Pay(p, y) - saved) / (y as real) <= p
  {
    AveragePoint(p, saved, x);
    AveragePoint(p, saved, y);
    SpreadThinner(saved, x, y);
    hide Pay;
  }

  lemma AveragePoint(p: real, saved: real, n: int)
    requires n > 0
    ensures (Pay(p, n) - saved) / (n as real) == p - saved / (n as real)
  {
    PayPerUnit(p, n);
  }

  lemma SpreadThinner(saved: real, x: int, y: int)
    requires 0 < x <= y && saved >= 0.0
    ensures saved / (x as real) >= saved / (y as real) >= 0.0
  {}

  /** Behind the start of level `j`, that level's line is above the line of every level before it. */
  lemma LaterLineIsHigher(q: seq<Level>, i: nat, j: nat, units: int)
    requires Ascending(q) && PositiveSizes(q) && i < j < |q| && Depth(q, j) <= units
    ensures Extrapolated(q, i, units) <= Extrapolated(q, j, units)
  {
    hide Pay, Cost;
    var d := Depth(q, j);
    LevelBegins(q, j);
    ExtrapolationIsTangent(q, i, d);
    PaySum(q[i].price, d - Depth(q, i), units - d);
    assert (d - Depth(q, i)) + (units - d) == units - Depth(q, i);
    PayNoMore(q[i].price, q[j].price, units - d);
  }

  lemma PayNoMore(p: real, r: real, n: int)
    requires n >= 0 && p <= r
    ensures Pay(p, n) <= Pay(r, n)
  {}

  // ---------------------------------------------------------------- when prices rise

  /** The guard picks the same level for both tiers, or for the larger one a level that begins within it. */
  predicate PicksInOrder(q: seq<Level>, bidSize: int, x: int, y: int) {
    FireAt(q, bidSize, x) == FireAt(q, bidSize, y) || Depth(q, FireAt(q, bidSize, y)) <= y
  }

  lemma AskPricesRise(q: seq<Level>, bidSize: int, x: int, y: int)
    requires Ascending(q) && PositiveSizes(q) && 0 < x <= y && FireAt(q, bidSize, y) < |q|
    requires PicksInOrder(q, bidSize, x, y)
    ensures FireAt(q, bidSize, x) < |q| && AskPrice(q, bidSize, x) <= AskPrice(q, bidSize, y)
  {
    FireAtRises(q, bidSize, x, y);
    var i, j := FireAt(q, bidSize, x), FireAt(q, bidSize, y);
    LineOf(q, i, x);
    LineOf(q, i, y);
    SavedNonnegative(q, i);
    AverageOfLine(q[i].price, Saved(q, i), x, y);
    if i < j {
      LaterLineIsHigher(q, i, j, y);
      QuotientMonotone(Extrapolated(q, i, y), Extrapolated(q, j, y), y);
    }
  }

  lemma QuotientMonotone(a: real, b: real, n: int)
    requires n > 0 && a <= b
    ensures a / (n as real) <= b / (n as real)
  {}

  /** An ask tier is never dearer than the level picked for it, nor, if the book holds it, than its last unit. */
  lemma AskPriceAtMost(q: seq<Level>, bidSize: int, tier: int)
    requires Ascending(q) && PositiveSizes(q) && tier > 0 && FireAt(q, bidSize, tier) < |q|
    ensures AskPrice(q, bidSize, tier) <= q[FireAt(q, bidSize, tier)].price
    ensures tier <= Total(q) ==> AskPrice(q, bidSize, tier) <= LastPrice(q, tier)
  {
    var j := FireAt(q, bidSize, tier);
    LineOf(q, j, tier);
    SavedNonnegative(q, j);
    AverageOfLine(q[j].price, Saved(q, j), tier, tier);
    if tier <= Total(q) {
      AskTierNeverTooDear(q, bidSize, tier);
      AverageBetween(q, tier);
      TierPriceTimesSize(Extrapolated(q, j, tier), tier);
      PayOrders(AskPrice(q, bidSize, tier), LastPrice(q, tier), tier);
    }
  }

  lemma AskPriceAtLeast(q: seq<Level>, bidSize: int, tier: int)
    requires Ascending(q) && PositiveSizes(q) && tier > 0 && FireAt(q, bidSize, tier) < |q|
    requires Depth(q, FireAt(q, bidSize, tier)) <= tier
    ensures q[0].price <= AskPrice(q, bidSize, tier)
  {
    var j := FireAt(q, bidSize, tier);
    var d := Depth(q, j);
    LevelBegins(q, j);
    assert Pay(q[0].price, 0) == Cost(q, 0);
    hide Pay, Cost;
    if j > 0 {
      AverageBetween(q, d);
    }
    PayNoMore(q[0].price, q[j].price, tier - d);
    PaySum(q[0].price, d, tier - d);
    assert d + (tier - d) == tier;
    TierPriceTimesSize(Extrapolated(q, j, tier), tier);
    PayOrders(q[0].price, AskPrice(q, bidSize, tier), tier);
  }

  // ---------------------------------------------------------------- and when they need not

  /** A book a venue could quote. */
  ghost predicate Quotable(q: seq<Level>) {
    Ascending(q) && forall i :: 0 <= i < |q| ==> q[i].price > 0.0
  }

  /** The sizes of `q`, at price 1 before level `j` and 2 from there on. */
  function Stepped(q: seq<Level>, j: nat): seq<Level> {
    seq(|q|, i requires 0 <= i < |q| => Level(q[i].ex, q[i].size, if i < j then 1.0 else 2.0))
  }

  lemma SteppedBook(q: seq<Level>, j: nat)
    requires PositiveSizes(q)
    ensures SameSizes(q, Stepped(q, j)) && Quotable(Stepped(q, j)) && PositiveSizes(Stepped(q, j))
  {}

  lemma SteppedLines(q: seq<Level>, i: nat, j: nat, units: int)
    requires PositiveSizes(q) && i <= j < |q|
    ensures SameSizes(q, Stepped(q, j)) && Depth(Stepped(q, j), i) == Depth(q, i)
    ensures Extrapolated(Stepped(q, j), i, units) == if i < j then units as real else (2 * units - Depth(q, j)) as real
  {
    var s := Stepped(q, j);
    SteppedBook(q, j);
    SizesDecideTotal(q[..i], s[..i]);
    LevelBegins(s, i);
    LevelBegins(s, 0);
    if i > 0 {
      CostBelow(s, 0, Depth(s, i), 1.0);
    }
  }

  lemma AgainstOne(a: real, n: int)
    requires n > 0
    ensures a < n as real ==> a / (n as real) < 1.0
    ensures a == n as real ==> a / (n as real) == 1.0
  {}

  /**
    For given sizes, the larger of two ask tiers is never cheaper, whatever the prices, exactly
    when the guard picks levels in order.
   */
  lemma AskPricesRiseIff(q: seq<Level>, bidSize: int, x: int, y: int)
    requires PositiveSizes(q) && 0 < x <= y && FireAt(q, bidSize, y) < |q|
    ensures PicksInOrder(q, bidSize, x, y) <==> forall q': seq<Level> :: SameSizes(q, q') && Quotable(q') ==>
      FireAt(q', bidSize, x) <= FireAt(q', bidSize, y) < |q'| && AskPrice(q', bidSize, x) <= AskPrice(q', bidSize, y)
  {
    FireAtRises(q, bidSize, x, y);
    var i, j := FireAt(q, bidSize, x), FireAt(q, bidSize, y);
    if PicksInOrder(q, bidSize, x, y) {
      forall q': seq<Level> | SameSizes(q, q') && Quotable(q')
        ensures FireAt(q', bidSize, x) <= FireAt(q', bidSize, y) < |q'|
        ensures AskPrice(q', bidSize, x) <= AskPrice(q', bidSize, y)
      {
        FireAtRises(q', bidSize, x, y);
        SizesDecideLevel(q, q', bidSize, x);
        SizesDecideLevel(q, q', bidSize, y);
        SizesDecideTotal(q[..j], q'[..j]);
        AskPricesRise(q', bidSize, x, y);
      }
    } else {
      var s := Stepped(q, j);
      SteppedBook(q, j);
      SteppedLines(q, i, j, x);
      SteppedLines(q, j, j, y);
      SizesDecideLevel(q, s, bidSize, x);
      SizesDecideLevel(q, s, bidSize, y);
      hide Extrapolated;
      AgainstOne(Extrapolated(s, i, x), x);
      AgainstOne(Extrapolated(s, j, y), y);
    }
  }

  /** The same for the best quote: no ask tier is cheaper exactly when its level begins within the tier. */
  lemma AskPriceAtLeastIff(q: seq<Level>, bidSize: int, tier: int)
    requires PositiveSizes(q) && tier > 0 && FireAt(q, bidSize, tier) < |q|
    ensures Depth(q, FireAt(q, bidSize, tier)) <= tier <==> forall q': seq<Level> :: SameSizes(q, q') && Quotable(q') ==>
      FireAt(q', bidSize, tier) < |q'| && q'[0].price <= AskPrice(q', bidSize, tier)
  {
    var j := FireAt(q, bidSize, tier);
    if Depth(q, j) <= tier {
      forall q': seq<Level> | SameSizes(q, q') && Quotable(q')
        ensures FireAt(q', bidSize, tier) < |q'| && q'[0].price <= AskPrice(q', bidSize, tier)
      {
        SizesDecideLevel(q, q', bidSize, tier);
        SizesDecideTotal(q[..j], q'[..j]);
        AskPriceAtLeast(q', bidSize, tier);
      }
    } else {
      var s := Stepped(q, j);
      SteppedBook(q, j);
      SteppedLines(q, j, j, tier);
      SizesDecideLevel(q, s, bidSize, tier);
      hide Extrapolated, FireAt, SameSizes, PositiveSizes;
      assert j > 0 && s[0].price == 1.0;
      AgainstOne(Extrapolated(s, j, tier), tier);
    }
  }

  /** Without bids, a tier of 15 is offered below a tier of 10, and below zero. */
  lemma AskPricesCanFall()
    ensures var asks := [Level(0, 10, 1.0), Level(0, 10, 2.0), Level(0, 10, 3.0), Level(0, 100, 100.0)];
      var bidSize := Swept([], 15);
      && Quotable(asks) && PositiveSizes(asks)
      && FireAt(asks, bidSize, 10) == 0 && AskPrice(asks, bidSize, 10) == 1.0
      && FireAt(asks, bidSize, 15) == 3 && AskPrice(asks, bidSize, 15) == -96.0
  {
    var asks := [Level(0, 10, 1.0), Level(0, 10, 2.0), Level(0, 10, 3.0), Level(0, 100, 100.0)];
    assert FireAt(asks, 0, 15) == 1 + FireAt(asks[1..], 0, 15) == 2 + FireAt(asks[2..], 0, 15) == 3 + FireAt(asks[3..], 0, 15);
    assert asks[..3][1..] == asks[1..3] && asks[1..3][1..] == asks[2..3] && asks[2..3][1..] == [];
    assert Depth(asks, 3) == 30 && Cost(asks, 30) == 60.0;
  }
}
