/**
  engine/book/Stream.h: venue books merged into one composite book per side, sorted by price in
  place, and swept into size tiers.
 */
module Streams {
  import opened OrderBook
  import opened Sweep
  import opened Tiers
  import opened AskTiers
  import opened LeastCost

  const COMPOSITE_DEPTH := 100
  const BOOK_DEPTH := 20
  const NO_EXCHANGE := 0

  /** One venue's book; the sequences are the filled parts of its level arrays. */
  datatype Snapshot = Snapshot(bid: seq<Level>, ask: seq<Level>)

  function AllBids(venues: seq<Snapshot>): seq<Level> {
    if venues == [] then [] else AllBids(venues[..|venues| - 1]) + venues[|venues| - 1].bid
  }

  function AllAsks(venues: seq<Snapshot>): seq<Level> {
    if venues == [] then [] else AllAsks(venues[..|venues| - 1]) + venues[|venues| - 1].ask
  }

  lemma Placed(cells: seq<Level>, sorted: seq<Level>, key: Level, at: nat)
    requires at <= |sorted| && |cells| == |sorted| + 1 && cells[at] == key
    requires forall k :: 0 <= k < at ==> cells[k] == sorted[k]
    requires forall k :: at < k < |cells| ==> cells[k] == sorted[k - 1]
    ensures cells == sorted[..at] + [key] + sorted[at..]
  {}

  /** One round of the sort: the element at `i` moves down to its place among those before it. */
  method InsertKey(arr: array<Level>, i: nat)
    requires i < arr.Length
    modifies arr
    ensures arr[..i + 1] == Insert(old(arr[..i]), old(arr[i]))
    ensures arr[i + 1..] == old(arr[i + 1..])
  {
    ghost var sorted := arr[..i];
    var key := arr[i];
    var j := i - 1;
    hide Insert;
    while j >= 0 && arr[j].price > key.price
      invariant -1 <= j < i
      invariant forall k :: 0 <= k <= j ==> arr[k] == sorted[k]
      invariant forall k :: j + 1 < k <= i ==> arr[k] == sorted[k - 1]
      invariant forall k :: j < k < i ==> sorted[k].price > key.price
      invariant forall k :: i < k < arr.Length ==> arr[k] == old(arr[k])
    {
      arr[j + 1] := arr[j];
      j := j - 1;
    }
    arr[j + 1] := key;
    assert arr[i + 1..] == old(arr[i + 1..]) by {
      assert forall k :: i < k < arr.Length ==> arr[k] == old(arr[k]);
    }
    InsertAt(sorted, key, j + 1);
    Placed(arr[..i + 1], sorted, key, j + 1);
  }

  /** common/Utils.h: sorts the first `len` elements in place. */
  method InsertionSort(arr: array<Level>, len: nat)
    requires len <= arr.Length
    modifies arr
    ensures arr[..len] == Sort(old(arr[..len]))
    ensures arr[len..] == old(arr[len..])
  {
    ghost var input := arr[..];
    var i := 1;
    SortOne(input);
    while i < len
      invariant len <= 1 <= i || 1 <= i <= len
      invariant i <= len ==> arr[..i] == Sort(input[..i])
      invariant forall k :: i <= k < arr.Length ==> arr[k] == input[k]
      invariant len <= 1 ==> arr[..] == input
    {
      SortStep(input, i);
      InsertKey(arr, i);
      i := i + 1;
    }
    assert len == 0 ==> arr[..len] == [];
  }

  lemma SortOne(q: seq<Level>)
    ensures q != [] ==> Sort(q[..1]) == q[..1]
  {}

  lemma SortStep(q: seq<Level>, i: nat)
    requires i < |q|
    ensures Sort(q[..i + 1]) == Insert(Sort(q[..i]), q[i])
  {
    assert q[..i + 1][..i] == q[..i];
  }

  /** The average of `n` units at `p` and `m` units at `r`. */
  function Average(p: real, n: int, r: real, m: int): (a: real)
    requires m + n > 0
    ensures Pay(a, m + n) == Pay(p, n) + Pay(r, m)
    ensures a == (Pay(p, n) + Pay(r, m)) / ((m + n) as real)
  {
    ((p * (n as real)) + (r * (m as real))) / ((m + n) as real)
  }

  lemma BeforeSweep(q: seq<Level>, price: real)
    requires PositiveSizes(q)
    ensures Depth(q, 0) == 0 <= Total(q) && Pay(price, 0) == Cost(q, 0) && q[0..] == q
  {}

  /** The price the ask loop computes at level `i` is the extrapolated one. */
  lemma AskPriced(q: seq<Level>, i: nat, price: real, tier: int)
    requires i < |q| && tier > 0 && Pay(price, Depth(q, i)) == Cost(q, Depth(q, i))
    ensures Average(q[i].price, tier - Depth(q, i), price, Depth(q, i)) == Extrapolated(q, i, tier) / (tier as real)
  {}

  class Stream {
    const maxPrice: real      // the price of an empty Level
    const levels: seq<int>    // the configured tiers, sorted
    var bid: array<Level>     // composite book
    var ask: array<Level>
    var bidCount: nat
    var askCount: nat
    var tierBid: array<Level> // order book by tier
    var tierAsk: array<Level>

    ghost predicate Valid()
      reads this
    {
      && bid.Length == ask.Length == COMPOSITE_DEPTH && tierBid.Length == tierAsk.Length == BOOK_DEPTH
      && bid != ask && tierBid != tierAsk && bid != tierBid && bid != tierAsk && ask != tierBid && ask != tierAsk
      && bidCount <= COMPOSITE_DEPTH && askCount <= COMPOSITE_DEPTH
      && |levels| <= BOOK_DEPTH
      && (forall k :: 0 <= k < |levels| ==> levels[k] > 0)
      && (forall k, m :: 0 <= k < m < |levels| ==> levels[k] <= levels[m])
    }

    constructor (levels: seq<int>, maxPrice: real)
      requires |levels| <= BOOK_DEPTH && (forall k :: 0 <= k < |levels| ==> levels[k] > 0)
      requires forall k, m :: 0 <= k < m < |levels| ==> levels[k] <= levels[m]
      ensures Valid() && bidCount == askCount == 0 && this.levels == levels
      ensures fresh(bid) && fresh(ask) && fresh(tierBid) && fresh(tierAsk)
    {
      this.levels, this.maxPrice := levels, maxPrice;
      bid := new Level[COMPOSITE_DEPTH](_ => Level(NO_EXCHANGE, 0, maxPrice));
      ask := new Level[COMPOSITE_DEPTH](_ => Level(NO_EXCHANGE, 0, maxPrice));
      tierBid := new Level[BOOK_DEPTH](_ => Level(NO_EXCHANGE, 0, maxPrice));
      tierAsk := new Level[BOOK_DEPTH](_ => Level(NO_EXCHANGE, 0, maxPrice));
      bidCount, askCount := 0, 0;
    }

    function Top(): int {
      if levels == [] then 0 else levels[|levels| - 1]
    }

    /** Tier `k` as it should be when the book `q` holds it. */
    function Tier(q: seq<Level>, k: nat): Level
      requires k < |levels| && levels[k] > 0
    {
      Level(NO_EXCHANGE, levels[k], Cost(q, levels[k]) / (levels[k] as real))
    }

    /** Tier `k` as the ask loop writes it at ask level `j`. */
    function AskTier(q: seq<Level>, j: nat, k: nat): Level
      requires k < |levels| && levels[k] > 0 && j < |q|
    {
      Level(NO_EXCHANGE, levels[k], Extrapolated(q, j, levels[k]) / (levels[k] as real))
    }

    /** The tiers as written: of the configured size, and what the least that many units could cost. */
    lemma TierIsLeastCost(quotes: seq<Level>, k: nat)
      requires PositiveSizes(quotes) && k < |levels| && 0 < levels[k] <= Total(quotes)
      ensures var tier := Tier(Sort(quotes), k);
        && tier.size == levels[k] && IsLeastCost(quotes, levels[k], Pay(tier.price, levels[k]))
        && Sort(quotes) != [] && Sort(quotes)[0].price <= tier.price
    {
      var q := Sort(quotes);
      SortIsStable(quotes);
      PermutedSizes(quotes, q);
      PermutedTotal(quotes, q);
      BidTierIsLeastCost(quotes, quotes, levels[k]);
      TierPricesRise(q, levels[k], levels[k]);
    }

    lemma TiersAreLeastCost(quotes: seq<Level>)
      requires PositiveSizes(quotes) && forall k :: 0 <= k < |levels| ==> levels[k] > 0
      ensures Total(Sort(quotes)) == Total(quotes)
      ensures forall k :: 0 <= k < |levels| && levels[k] <= Total(quotes) ==>
        IsLeastCost(quotes, levels[k], Pay(Tier(Sort(quotes), k).price, levels[k]))
    {
      SortIsStable(quotes);
      PermutedTotal(quotes, Sort(quotes));
      forall k | 0 <= k < |levels| && levels[k] <= Total(quotes)
        ensures IsLeastCost(quotes, levels[k], Pay(Tier(Sort(quotes), k).price, levels[k]))
      {
        TierIsLeastCost(quotes, k);
      }
    }

    /** The same for an ask tier that the book can fill, exactly when the level its guard picks brackets it. */
    lemma AskTierWrittenIff(quotes: seq<Level>, bidSize: int, k: nat)
      requires PositiveSizes(quotes) && k < |levels| && 0 < levels[k]
      requires FireAt(Sort(quotes), bidSize, levels[k]) < |quotes|
      ensures var q, j := Sort(quotes), FireAt(Sort(quotes), bidSize, levels[k]);
        var tier := AskTier(q, j, k);
        && tier.size == levels[k] && tier.price == AskPrice(q, bidSize, levels[k]) <= q[j].price
        && Total(q) == Total(quotes)
        && (levels[k] <= Total(quotes) ==>
             (IsLeastCost(quotes, levels[k], Pay(tier.price, levels[k])) <==> Brackets(q, j, levels[k])))
    {
      var q := Sort(quotes);
      SortIsStable(quotes);
      PermutedSizes(quotes, q);
      PermutedTotal(quotes, q);
      AskPriceAtMost(q, bidSize, levels[k]);
      if levels[k] <= Total(quotes) {
        AskTierIsLeastCostIff(quotes, bidSize, levels[k]);
      }
    }

    /** The inner bid loop at level `i` of the book: the tiers from `first` on that level `i` completes. */
    method WriteBidTiers(i: nat, running: Level, first: nat) returns (lcount: nat)
      requires Valid() && i < bidCount && PositiveSizes(bid[..bidCount]) && first <= |levels|
      requires var q := bid[..bidCount];
        running.size == Depth(q, i) && Pay(running.price, running.size) == Cost(q, running.size)
      requires forall k :: first <= k < |levels| ==> levels[k] > running.size
      modifies tierBid
      ensures first <= lcount <= |levels|
      ensures forall k :: 0 <= k < BOOK_DEPTH ==>
        tierBid[k] == if first <= k < lcount then Tier(bid[..bidCount], k) else old(tierBid[k])
      ensures forall k :: first <= k < |levels| ==> (levels[k] <= running.size + bid[i].size <==> k < lcount)
    {
      ghost var q := bid[..bidCount];
      DepthStep(q, i);
      hide Pay, Cost, Depth, Average;
      var l := bid[i];
      lcount := first;
      while lcount < |levels| && levels[lcount] <= running.size + l.size
        invariant first <= lcount <= |levels|
        invariant forall k :: 0 <= k < BOOK_DEPTH ==>
          tierBid[k] == if first <= k < lcount then Tier(q, k) else old(tierBid[k])
        invariant forall k :: first <= k < lcount ==> levels[k] <= running.size + l.size
      {
        var vsize := levels[lcount] - running.size;
        RunningCost(q, i, running.price, levels[lcount]);
        var price := Average(l.price, vsize, running.price, running.size);
        assert price == Cost(q, levels[lcount]) / (levels[lcount] as real);
        tierBid[lcount] := Level(NO_EXCHANGE, levels[lcount], price);
        lcount := lcount + 1;
      }
    }

    /** The bid loop of verticalIntergrationLevel; returns its running level. */
    method SweepBids() returns (running: Level)
      requires Valid() && PositiveSizes(bid[..bidCount])
      modifies tierBid
      ensures running.size == Swept(bid[..bidCount], Top())
      ensures forall k :: 0 <= k < |levels| ==>
        tierBid[k] == if levels[k] <= Total(bid[..bidCount]) then Tier(bid[..bidCount], k) else old(tierBid[k])
      ensures forall k :: |levels| <= k < BOOK_DEPTH ==> tierBid[k] == old(tierBid[k])
    {
      ghost var q := bid[..bidCount];
      running := Level(NO_EXCHANGE, 0, maxPrice);
      var lcount := 0;
      var i := 0;
      BeforeSweep(q, running.price);
      while i < bidCount
        invariant 0 <= i <= bidCount && 0 <= lcount <= |levels|
        invariant 0 <= running.size == Depth(q, i) <= Total(q)
        invariant Pay(running.price, running.size) == Cost(q, running.size)
        invariant Swept(q, Top()) == running.size + Swept(q[i..], Top() - running.size)
        invariant forall k :: 0 <= k < |levels| ==> (levels[k] <= running.size <==> k < lcount)
        invariant forall k :: 0 <= k < BOOK_DEPTH ==>
          tierBid[k] == if k < lcount then Tier(q, k) else old(tierBid[k])
      {
        hide Pay, Cost, Depth, Average, Total;
        if lcount >= |levels| {
          break;
        }
        var l := bid[i];
        DepthStep(q, i);
        lcount := WriteBidTiers(i, running, lcount);
        RunningCost(q, i, running.price, running.size + l.size);
        var price := Average(l.price, l.size, running.price, running.size);
        running := Level(NO_EXCHANGE, running.size + l.size, price);
        assert q[i..][0] == q[i] && q[i..][1..] == q[i + 1..];
        i := i + 1;
      }
      assert i == bidCount ==> q[..i] == q;
    }

    /** The inner ask loop at level `i`; its guard uses the bid loop's running level. */
    method WriteAskTiers(i: nat, running: Level, own: Level, first: nat) returns (lcount: nat)
      requires Valid() && i < askCount && PositiveSizes(ask[..askCount]) && first <= |levels|
      requires var q := ask[..askCount]; own.size == Depth(q, i) && Pay(own.price, own.size) == Cost(q, own.size)
      requires forall k :: first <= k < |levels| ==> NotBefore(ask[..askCount], running.size, levels[k], i)
      modifies tierAsk
      ensures first <= lcount <= |levels|
      ensures forall k :: 0 <= k < BOOK_DEPTH ==>
        tierAsk[k] == if first <= k < lcount then AskTier(ask[..askCount], i, k) else old(tierAsk[k])
      ensures forall k :: first <= k < lcount ==> FireAt(ask[..askCount], running.size, levels[k]) == i
      ensures forall k :: lcount <= k < |levels| ==> NotBefore(ask[..askCount], running.size, levels[k], i + 1)
    {
      ghost var q := ask[..askCount];
      hide Pay, Cost, Depth, FireAt, Extrapolated, Average;
      var l := ask[i];
      lcount := first;
      while lcount < |levels| && levels[lcount] <= running.size + l.size
        invariant first <= lcount <= |levels|
        invariant forall k :: 0 <= k < BOOK_DEPTH ==>
          tierAsk[k] == if first <= k < lcount then AskTier(q, i, k) else old(tierAsk[k])
        invariant forall k :: first <= k < lcount ==> FireAt(q, running.size, levels[k]) == i
      {
        var vsize := levels[lcount] - own.size;
        FireAtIsFirst(q, running.size, levels[lcount], i);
        AskPriced(q, i, own.price, levels[lcount]);
        var price := Average(l.price, vsize, own.price, own.size);
        tierAsk[lcount] := Level(NO_EXCHANGE, levels[lcount], price);
        lcount := lcount + 1;
      }
    }

    /** The ask loop, given the bid loop's running level. */
    method SweepAsks(running: Level)
      requires Valid() && PositiveSizes(ask[..askCount])
      modifies tierAsk
      ensures var q := ask[..askCount];
        forall k :: 0 <= k < |levels| ==>
          var j := FireAt(q, running.size, levels[k]);
          tierAsk[k] == if j < |q| then AskTier(q, j, k) else old(tierAsk[k])
      ensures forall k :: |levels| <= k < BOOK_DEPTH ==> tierAsk[k] == old(tierAsk[k])
    {
      ghost var q := ask[..askCount];
      var own := Level(NO_EXCHANGE, 0, maxPrice);
      var lcount := 0;
      var i := 0;
      BeforeSweep(q, own.price);
      while i < askCount
        invariant 0 <= i <= askCount && 0 <= lcount <= |levels|
        invariant own.size == Depth(q, i) && Pay(own.price, own.size) == Cost(q, own.size)
        invariant forall k :: 0 <= k < lcount ==>
          var j := FireAt(q, running.size, levels[k]); j < i && tierAsk[k] == AskTier(q, j, k)
        invariant forall k :: lcount <= k < |levels| ==> NotBefore(q, running.size, levels[k], i)
        invariant forall k :: lcount <= k < BOOK_DEPTH ==> tierAsk[k] == old(tierAsk[k])
      {
        hide Pay, Cost, Depth, FireAt, Extrapolated, Average, NotBefore;
        if lcount >= |levels| {
          break;
        }
        var l := ask[i];
        DepthStep(q, i);
        lcount := WriteAskTiers(i, running, own, lcount);
        RunningCost(q, i, own.price, own.size + l.size);
        var price := Average(l.price, l.size, own.price, own.size);
        own := Level(NO_EXCHANGE, own.size + l.size, price);
        i := i + 1;
      }
      NeverFired(q, running.size, lcount, i);
    }

    /** The tiers not written when the ask loop ends are those its guard never admits. */
    lemma NeverFired(q: seq<Level>, bidSize: int, lcount: nat, i: nat)
      requires i <= |q| && lcount <= |levels| && (lcount == |levels| || i == |q|)
      requires forall k :: lcount <= k < |levels| ==> NotBefore(q, bidSize, levels[k], i)
      ensures forall k :: lcount <= k < |levels| ==> FireAt(q, bidSize, levels[k]) == |q|
    {
      forall k | lcount <= k < |levels|
        ensures FireAt(q, bidSize, levels[k]) == |q|
      {
        FireAtIsFirst(q, bidSize, levels[k], |q|);
      }
    }

    /** Every tier of the order book from the composite book, as the code computes them. */
    method VerticalIntegrationLevel()
      requires Valid() && PositiveSizes(bid[..bidCount]) && PositiveSizes(ask[..askCount])
      modifies tierBid, tierAsk
      ensures forall k :: 0 <= k < |levels| ==>
        tierBid[k] == if levels[k] <= Total(bid[..bidCount]) then Tier(bid[..bidCount], k) else old(tierBid[k])
      ensures var q, bidSize := ask[..askCount], Swept(bid[..bidCount], Top());
        forall k :: 0 <= k < |levels| ==>
          var j := FireAt(q, bidSize, levels[k]);
          tierAsk[k] == if j < |q| then AskTier(q, j, k) else old(tierAsk[k])
      ensures forall k :: |levels| <= k < BOOK_DEPTH ==>
        tierBid[k] == old(tierBid[k]) && tierAsk[k] == old(tierAsk[k])
    {
      var running := SweepBids();
      SweepAsks(running);
    }

    /**
      Both sides of every venue, in venue order, copied to the front of the composite arrays and
      sorted; then the tiers.  The counts are added to and never cleared, so whatever they counted
      before is sorted in with the new quotes.
     */
    method MergeOrderBook(venues: seq<Snapshot>)
      requires Valid()
      requires |AllBids(venues)| + bidCount <= COMPOSITE_DEPTH && |AllAsks(venues)| + askCount <= COMPOSITE_DEPTH
      requires PositiveSizes(Merged(AllBids(venues), bid[..], bidCount))
      requires PositiveSizes(Merged(AllAsks(venues), ask[..], askCount))
      modifies this`bidCount, this`askCount, bid, ask, tierBid, tierAsk
      ensures Valid()
      ensures bid[..bidCount] == Sort(old(Merged(AllBids(venues), bid[..], bidCount)))
      ensures ask[..askCount] == Sort(old(Merged(AllAsks(venues), ask[..], askCount)))
      ensures var quotes := old(Merged(AllBids(venues), bid[..], bidCount));
        forall k :: 0 <= k < |levels| && levels[k] <= Total(quotes) ==>
          && tierBid[k] == Tier(bid[..bidCount], k) && tierBid[k].size == levels[k]
          && IsLeastCost(quotes, levels[k], Pay(tierBid[k].price, levels[k]))
      ensures forall k :: 0 <= k < |levels| && levels[k] > Total(old(Merged(AllBids(venues), bid[..], bidCount))) ==>
        tierBid[k] == old(tierBid[k])
      ensures var q, bidSize := ask[..askCount], Swept(bid[..bidCount], Top());
        forall k :: 0 <= k < |levels| ==>
          var j := FireAt(q, bidSize, levels[k]);
          tierAsk[k] == if j < |q| then AskTier(q, j, k) else old(tierAsk[k])
    {
      hide Sort, IsLeastCost, Pay, Total, Cost, PositiveSizes, Merged, AllBids, AllAsks, Swept, FireAt, Ascending, SameAtAllPrices;
      CopyVenues(venues);
      ghost var bids, asks := bid[..bidCount], ask[..askCount];
      InsertionSort(bid, bidCount);
      InsertionSort(ask, askCount);
      SortIsStable(bids);
      SortIsStable(asks);
      PermutedSizes(bids, bid[..bidCount]);
      PermutedSizes(asks, ask[..askCount]);
      TiersAreLeastCost(bids);
      VerticalIntegrationLevel();
    }

    /** The copying loop over the venues. */
    method CopyVenues(venues: seq<Snapshot>)
      requires Valid()
      requires |AllBids(venues)| + bidCount <= COMPOSITE_DEPTH && |AllAsks(venues)| + askCount <= COMPOSITE_DEPTH
      modifies this`bidCount, this`askCount, bid, ask
      ensures bidCount == old(bidCount) + |AllBids(venues)| && askCount == old(askCount) + |AllAsks(venues)|
      ensures bid[..bidCount] == Merged(AllBids(venues), old(bid[..]), old(bidCount))
      ensures ask[..askCount] == Merged(AllAsks(venues), old(ask[..]), old(askCount))
    {
      var bidCounter, askCounter := 0, 0;
      var v := 0;
      ghost var bids, asks: seq<Level> := [], [];
      ghost var bid0, ask0 := bid[..], ask[..];
      NoVenues(venues);
      hide AllBids, AllAsks, Merged;
      while v < |venues|
        invariant 0 <= v <= |venues|
        invariant bids == AllBids(venues[..v]) && asks == AllAsks(venues[..v])
        invariant bidCounter == |bids| <= |AllBids(venues)| && askCounter == |asks| <= |AllAsks(venues)|
        invariant bidCount == old(bidCount) + bidCounter && askCount == old(askCount) + askCounter
        invariant bid[..] == bids + bid0[bidCounter..] && ask[..] == asks + ask0[askCounter..]
      {
        NextVenue(venues, v);
        Spliced(bid[..], bids, bid0, venues[v].bid);
        Spliced(ask[..], asks, ask0, venues[v].ask);
        bidCounter := CopySide(bid, venues[v].bid, bidCounter);
        bidCount := bidCount + |venues[v].bid|;
        askCounter := CopySide(ask, venues[v].ask, askCounter);
        askCount := askCount + |venues[v].ask|;
        bids, asks := bids + venues[v].bid, asks + venues[v].ask;
        v := v + 1;
      }
      assert venues[..v] == venues;
      FrontMerged(bid[..], bids, bid0, bidCount - bidCounter);
      FrontMerged(ask[..], asks, ask0, askCount - askCounter);
      assert bid[..bidCount] == bid[..][..bidCount] && ask[..askCount] == ask[..][..askCount];
    }
  }

  /** Copying `src` behind the quotes copied so far extends them. */
  lemma Spliced(cells: seq<Level>, done: seq<Level>, cells0: seq<Level>, src: seq<Level>)
    requires |done| + |src| <= |cells0| == |cells| && cells == done + cells0[|done|..]
    ensures cells[..|done|] + src + cells[|done| + |src|..] == (done + src) + cells0[|done + src|..]
  {}

  lemma FrontMerged(cells: seq<Level>, quotes: seq<Level>, cells0: seq<Level>, stale: nat)
    requires |quotes| + stale <= |cells0| && cells == quotes + cells0[|quotes|..]
    ensures cells[..|quotes| + stale] == Merged(quotes, cells0, stale)
  {}

  /** A side of the merged venues is its venues' sides, in venue order and each as quoted. */
  lemma {:induction false} VenueOrder(a: seq<Snapshot>, b: seq<Snapshot>)
    ensures AllBids(a + b) == AllBids(a) + AllBids(b) && AllAsks(a + b) == AllAsks(a) + AllAsks(b)
    decreases |b|
  {
    if b == [] {
      assert a + b == a;
    } else {
      var front, last := b[..|b| - 1], b[|b| - 1];
      VenueOrder(a, front);
      LastVenue(a + b);
      LastVenue(b);
      assert (a + b)[..|a + b| - 1] == a + front;
      hide AllBids, AllAsks;
      assert AllBids(a) + AllBids(front) + last.bid == AllBids(a) + (AllBids(front) + last.bid);
      assert AllAsks(a) + AllAsks(front) + last.ask == AllAsks(a) + (AllAsks(front) + last.ask);
    }
  }

  lemma LastVenue(venues: seq<Snapshot>)
    requires venues != []
    ensures AllBids(venues) == AllBids(venues[..|venues| - 1]) + venues[|venues| - 1].bid
    ensures AllAsks(venues) == AllAsks(venues[..|venues| - 1]) + venues[|venues| - 1].ask
  {}

  lemma OneVenue(v: Snapshot)
    ensures AllBids([v]) == v.bid && AllAsks([v]) == v.ask
  {
    NoVenues([v]);
  }

  lemma NoVenues(venues: seq<Snapshot>)
    ensures AllBids(venues[..0]) == [] && AllAsks(venues[..0]) == []
  {}

  lemma NextVenue(venues: seq<Snapshot>, v: nat)
    requires v < |venues|
    ensures AllBids(venues[..v + 1]) == AllBids(venues[..v]) + venues[v].bid
    ensures AllAsks(venues[..v + 1]) == AllAsks(venues[..v]) + venues[v].ask
    ensures |AllBids(venues[..v + 1])| <= |AllBids(venues)| && |AllAsks(venues[..v + 1])| <= |AllAsks(venues)|
  {
    assert venues[..v + 1][..v] == venues[..v];
    VenuesSoFar(venues, v + 1);
  }

  /** The copied quotes, then the `stale` levels the count still covers behind them. */
  function Merged(quotes: seq<Level>, cells: seq<Level>, stale: nat): seq<Level>
    requires |quotes| + stale <= |cells|
  {
    quotes + cells[|quotes|..|quotes| + stale]
  }

  /** One venue's side, element by element, to `counter` and on. */
  method CopySide(dst: array<Level>, src: seq<Level>, counter: nat) returns (next: nat)
    requires counter + |src| <= dst.Length
    modifies dst
    ensures next == counter + |src|
    ensures dst[..] == old(dst[..counter]) + src + old(dst[counter + |src|..])
  {
    next := counter;
    var i := 0;
    while i < |src|
      invariant 0 <= i <= |src| && next == counter + i
      invariant forall k :: counter <= k < next ==> dst[k] == src[k - counter]
      invariant forall k :: 0 <= k < counter || next <= k < dst.Length ==> dst[k] == old(dst[k])
    {
      dst[next] := src[i];
      next := next + 1;
      i := i + 1;
    }
  }

  /** The quotes of the first venues fit where those of all of them do. */
  lemma {:induction false} VenuesSoFar(venues: seq<Snapshot>, v: nat)
    requires v <= |venues|
    ensures |AllBids(venues[..v])| <= |AllBids(venues)| && |AllAsks(venues[..v])| <= |AllAsks(venues)|
    decreases |venues|
  {
    if v < |venues| {
      var front := venues[..|venues| - 1];
      VenuesSoFar(front, v);
      assert front[..v] == venues[..v];
    } else {
      assert venues[..v] == venues;
    }
  }

  /**
    From a cleared count the composite book is the stable sort of all venue quotes: ascending, a
    permutation of them, and at equal prices in venue-then-depth order.
   */
  lemma FreshMergeIsStableSort(quotes: seq<Level>, cells: seq<Level>)
    requires |quotes| <= |cells|
    ensures var book := Sort(Merged(quotes, cells, 0));
      Ascending(book) && multiset(book) == multiset(quotes) && SameAtAllPrices(book, quotes)
  {
    assert Merged(quotes, cells, 0) == quotes;
    SortIsStable(quotes);
  }

  /** It holds the venue quotes and nothing else exactly when the count was cleared. */
  lemma MergeIsExactIffCleared(quotes: seq<Level>, cells: seq<Level>, stale: nat)
    requires |quotes| + stale <= |cells|
    ensures multiset(Sort(Merged(quotes, cells, stale))) == multiset(quotes) <==> stale == 0
  {
    var merged := Merged(quotes, cells, stale);
    SortIsStable(merged);
    assert |multiset(merged)| == |merged| && |multiset(quotes)| == |quotes|;
    if stale == 0 {
      assert merged == quotes;
    }
  }
}
