/** Which tiers verticalIntergrationLevel writes, at what price, and when the price is right. */
module Tiers {
  import opened OrderBook
  import opened Sweep
  import opened LeastCost

  /**
    The size the bid loop has swept when it stops: it takes whole levels until they hold the
    largest tier `top`, or to the end of the book.
   */
  function Swept(q: seq<Level>, top: int): int {
    if q == [] || top <= 0 then 0 else q[0].size + Swept(q[1..], top - q[0].size)
  }

  /**
    The ask level at which the ask loop writes a tier.  Its guard adds the level's size to the size
    swept on the bid side, `bidSize`, where the ask side's running size is meant.
   */
  function FireAt(q: seq<Level>, bidSize: int, tier: int): (j: nat)
    ensures j <= |q|
  {
    if q == [] || tier <= bidSize + q[0].size then 0 else 1 + FireAt(q[1..], bidSize, tier)
  }

  /** The guard admits the tier at none of the first `i` levels. */
  ghost predicate NotBefore(q: seq<Level>, bidSize: int, tier: int, i: nat)
    requires i <= |q|
  {
    forall m :: 0 <= m < i ==> bidSize + q[m].size < tier
  }

  lemma {:induction false} FireAtIsFirst(q: seq<Level>, bidSize: int, tier: int, j: nat)
    requires j <= |q| && NotBefore(q, bidSize, tier, j)
    requires j < |q| ==> tier <= bidSize + q[j].size
    ensures FireAt(q, bidSize, tier) == j
  {
    if j > 0 {
      FireAtIsFirst(q[1..], bidSize, tier, j - 1);
    }
  }

  lemma {:induction false} FireAtNever(q: seq<Level>, bidSize: int, tier: int)
    ensures FireAt(q, bidSize, tier) == |q| <==> NotBefore(q, bidSize, tier, |q|)
  {
    if q != [] {
      FireAtNever(q[1..], bidSize, tier);
      assert q == [q[0]] + q[1..];
    }
  }

  lemma {:induction false} SweptBidSize(q: seq<Level>, top: int)
    requires PositiveSizes(q)
    ensures top <= Total(q) ==> Swept(q, top) >= top
    ensures 0 < top && Total(q) < top ==> Swept(q, top) == Total(q)
  {
    if q != [] && top > 0 {
      SweptBidSize(q[1..], top - q[0].size);
      TotalNonnegative(q[1..]);
    }
  }

  /** What is swept is whole levels, and as few of them as hold `top`. */
  lemma {:induction false} SweptIsFewestLevels(q: seq<Level>, top: int) returns (n: nat)
    requires PositiveSizes(q)
    ensures n <= |q| && Swept(q, top) == Depth(q, n)
    ensures (forall i :: 0 <= i < n ==> Depth(q, i) < top) && (n < |q| ==> Depth(q, n) >= top)
  {
    n := 0;
    if q != [] && top > 0 {
      var t := q[1..];
      var m := SweptIsFewestLevels(t, top - q[0].size);
      n := m + 1;
      forall i | 0 < i <= n
        ensures Depth(q, i) == q[0].size + Depth(t, i - 1)
      {
        assert q[..i][1..] == t[..i - 1];
      }
    }
  }

  // ---------------------------------------------------------------- bid tiers

  /** A tier's price, paid on every unit, is what sweeping that many units costs. */
  lemma TierPriceTimesSize(cost: real, tier: int)
    requires tier > 0
    ensures Pay(cost / (tier as real), tier) == cost
  {}

  /** A bid tier costs the least the quotes allow, whatever the order of the venues. */
  lemma BidTierIsLeastCost(quotes: seq<Level>, quotes': seq<Level>, tier: int)
    requires PositiveSizes(quotes) && 0 < tier <= Total(quotes) && multiset(quotes) == multiset(quotes')
    ensures IsLeastCost(quotes, tier, Pay(Cost(Sort(quotes), tier) / (tier as real), tier))
    ensures Cost(Sort(quotes'), tier) / (tier as real) == Cost(Sort(quotes), tier) / (tier as real)
  {
    SortedSweepIsLeast(quotes, tier);
    MergeOrderIrrelevant(quotes, quotes', tier);
    TierPriceTimesSize(Cost(Sort(quotes), tier), tier);
  }

  /** Tier prices do not fall from one tier to the next, and stay within the prices swept. */
  lemma TierPricesRise(q: seq<Level>, x: int, y: int)
    requires Ascending(q) && PositiveSizes(q) && 0 < x <= y <= Total(q)
    ensures q[0].price <= Cost(q, x) / (x as real) <= Cost(q, y) / (y as real) <= LastPrice(q, y)
  {
    AverageRises(q, x, y);
    AverageBetween(q, x);
    AverageBetween(q, y);
    TierPriceTimesSize(Cost(q, x), x);
    TierPriceTimesSize(Cost(q, y), y);
    PayOrders(q[0].price, Cost(q, x) / (x as real), x);
    PayOrders(Cost(q, y) / (y as real), LastPrice(q, y), y);
  }

  lemma PayPerUnit(p: real, n: int)
    requires n > 0
    ensures Pay(p, n) / (n as real) == p
  {}

  lemma PayOrders(p: real, r: real, n: int)
    requires n > 0 && Pay(p, n) <= Pay(r, n)
    ensures p <= r
  {}

  // ---------------------------------------------------------------- ask tiers

  /** What the ask side should do: write a tier exactly when the book holds it, at the cost of its sweep. */
  ghost predicate AskTierRight(q: seq<Level>, bidSize: int, tier: int) {
    var j := FireAt(q, bidSize, tier);
    if tier <= Total(q) then j < |q| && Extrapolated(q, j, tier) == Cost(q, tier) else j == |q|
  }

  /** The same, read off the guard: the level it picks prices the tier's last unit. */
  ghost predicate AskGuardFits(q: seq<Level>, bidSize: int, tier: int)
    requires tier > 0
  {
    if tier <= Total(q) then
      var j := FireAt(q, bidSize, tier);
      j < |q| && Brackets(q, j, tier)
    else
      NotBefore(q, bidSize, tier, |q|)
  }

  /** The ask tier is right exactly when the guard, on bid sizes, happens to pick a fitting level. */
  lemma AskTierRightIffGuardFits(q: seq<Level>, bidSize: int, tier: int)
    requires Ascending(q) && PositiveSizes(q) && tier > 0
    ensures AskTierRight(q, bidSize, tier) <==> AskGuardFits(q, bidSize, tier)
  {
    var j := FireAt(q, bidSize, tier);
    if tier <= Total(q) {
      if j < |q| {
        ExtrapolationIsTangent(q, j, tier);
      }
    } else {
      FireAtNever(q, bidSize, tier);
    }
  }

  /**
    So an ask tier the book can fill costs the least the quotes allow exactly when the level its
    guard picks brackets it.
   */
  lemma AskTierIsLeastCostIff(quotes: seq<Level>, bidSize: int, tier: int)
    requires PositiveSizes(quotes) && 0 < tier <= Total(quotes)
    requires FireAt(Sort(quotes), bidSize, tier) < |quotes|
    ensures Total(Sort(quotes)) == Total(quotes)
    ensures var q := Sort(quotes);
      var j := FireAt(q, bidSize, tier);
      var price := Extrapolated(q, j, tier) / (tier as real);
      IsLeastCost(quotes, tier, Pay(price, tier)) <==> Brackets(q, j, tier)
  {
    var q := Sort(quotes);
    var j := FireAt(q, bidSize, tier);
    SortIsStable(quotes);
    PermutedSizes(quotes, q);
    PermutedTotal(quotes, q);
    ExtrapolationIsTangent(q, j, tier);
    SortedSweepIsLeast(quotes, tier);
    TierPriceTimesSize(Extrapolated(q, j, tier), tier);
    var take :| IsFill(quotes, take, tier) && Spend(quotes, take) == Cost(q, tier);
  }

  /** A wrong ask tier that the book could fill is always too cheap. */
  lemma AskTierNeverTooDear(q: seq<Level>, bidSize: int, tier: int)
    requires Ascending(q) && PositiveSizes(q) && 0 < tier <= Total(q)
    requires FireAt(q, bidSize, tier) < |q|
    ensures Extrapolated(q, FireAt(q, bidSize, tier), tier) <= Cost(q, tier)
  {
    ExtrapolationIsTangent(q, FireAt(q, bidSize, tier), tier);
  }

  /**
    When the bids hold the largest tier, every ask tier is written at the best ask price, whatever
    its size; it is right exactly when the asks hold it at that one price.
   */
  lemma DeepBidsFlattenAsks(bids: seq<Level>, asks: seq<Level>, tier: int, top: int)
    requires PositiveSizes(bids) && top <= Total(bids) && 0 < tier <= top
    requires Ascending(asks) && PositiveSizes(asks) && asks != []
    ensures var bidSize := Swept(bids, top);
      && FireAt(asks, bidSize, tier) == 0
      && Extrapolated(asks, 0, tier) / (tier as real) == asks[0].price
      && (AskTierRight(asks, bidSize, tier) <==>
          tier <= Total(asks) && LastPrice(asks, tier) == asks[0].price)
  {
    SweptBidSize(bids, top);
    var bidSize := Swept(bids, top);
    AskTierRightIffGuardFits(asks, bidSize, tier);
    assert asks[..0] == [] && Depth(asks, 0) == 0 && Cost(asks, 0) == 0.0;
    assert Extrapolated(asks, 0, tier) == Pay(asks[0].price, tier);
    PayPerUnit(asks[0].price, tier);
    hide Pay, Extrapolated, Cost;
    if tier <= Total(asks) {
      PricesRise(asks, 0, tier);
      if tier < Total(asks) {
        LastThenNext(asks, tier);
      }
    }
  }

  /** A book that shows it: ten units at 1 and ninety at 2 are offered as a hundred at 1. */
  lemma AskTierCanBeWrong()
    ensures var asks := [Level(0, 10, 1.0), Level(0, 90, 2.0)];
      var bidSize := Swept([Level(0, 100, 1.0)], 100);
      && Ascending(asks) && PositiveSizes(asks) && 100 == Total(asks)
      && Extrapolated(asks, FireAt(asks, bidSize, 100), 100) == 100.0
      && Cost(asks, 100) == 190.0
  {}
}
