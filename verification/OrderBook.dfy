/**
  Price levels, the sort of common/Utils.h on values, and what it costs to sweep an order book:
  the specification of engine/book/Stream.h.  Prices are reals, so averages are exact.
 */
module OrderBook {
  datatype Level = Level(ex: int, size: int, price: real)

  ghost predicate Ascending(q: seq<Level>) {
    forall i, j :: 0 <= i < j < |q| ==> q[i].price <= q[j].price
  }

  predicate PositiveSizes(q: seq<Level>) {
    forall i :: 0 <= i < |q| ==> q[i].size > 0
  }

  // ---------------------------------------------------------------- insertion sort

  /** `key` put behind every level that is not dearer, searching from the back. */
  function Insert(q: seq<Level>, key: Level): (r: seq<Level>)
    ensures |r| == |q| + 1
  {
    var last := |q| - 1;
    if q == [] || !(q[last].price > key.price) then q + [key]
    else Insert(q[..last], key) + [q[last]]
  }

  function Sort(q: seq<Level>): (r: seq<Level>)
    ensures |r| == |q|
  {
    if q == [] then [] else Insert(Sort(q[..|q| - 1]), q[|q| - 1])
  }

  /** The levels quoted at one price, in book order. */
  function AtPrice(q: seq<Level>, price: real): seq<Level> {
    if q == [] then []
    else AtPrice(q[..|q| - 1], price) + (if q[|q| - 1].price == price then [q[|q| - 1]] else [])
  }

  ghost predicate SameAtAllPrices(a: seq<Level>, b: seq<Level>) {
    forall price :: AtPrice(a, price) == AtPrice(b, price)
  }

  /** Where Insert stops. */
  lemma {:induction false} InsertAt(q: seq<Level>, key: Level, at: nat)
    requires at <= |q|
    requires forall k :: at <= k < |q| ==> q[k].price > key.price
    requires at > 0 ==> q[at - 1].price <= key.price
    ensures Insert(q, key) == q[..at] + [key] + q[at..]
    decreases |q|
  {
    if at < |q| {
      var last := |q| - 1;
      InsertAt(q[..last], key, at);
      assert q[..last][..at] == q[..at];
      assert q[..last][at..] + [q[last]] == q[at..];
    }
  }

  /** The place Insert finds in an ascending book. */
  lemma {:induction false} InsertPlace(q: seq<Level>, key: Level) returns (at: nat)
    requires Ascending(q)
    ensures at <= |q| && Insert(q, key) == q[..at] + [key] + q[at..]
    ensures forall k :: 0 <= k < at ==> q[k].price <= key.price
    ensures forall k :: at <= k < |q| ==> key.price < q[k].price
  {
    at := |q|;
    while at > 0 && q[at - 1].price > key.price
      invariant 0 <= at <= |q|
      invariant forall k :: at <= k < |q| ==> key.price < q[k].price
    {
      at := at - 1;
    }
    InsertAt(q, key, at);
  }

  lemma InsertAscends(q: seq<Level>, key: Level)
    requires Ascending(q)
    ensures Ascending(Insert(q, key))
  {
    var at := InsertPlace(q, key);
    var r := Insert(q, key);
    forall i, j | 0 <= i < j < |r|
      ensures r[i].price <= r[j].price
    {
      assert r[i] == if i < at then q[i] else if i == at then key else q[i - 1];
      assert r[j] == if j < at then q[j] else if j == at then key else q[j - 1];
    }
  }

  lemma {:induction false} InsertPermutes(q: seq<Level>, key: Level)
    ensures multiset(Insert(q, key)) == multiset(q) + multiset{key}
  {
    var last := |q| - 1;
    if q != [] && q[last].price > key.price {
      InsertPermutes(q[..last], key);
      assert q == q[..last] + [q[last]];
    }
  }

  lemma {:induction false} AtPriceConcat(a: seq<Level>, b: seq<Level>, price: real)
    ensures AtPrice(a + b, price) == AtPrice(a, price) + AtPrice(b, price)
    decreases |b|
  {
    if b == [] {
      assert a + b == a;
    } else {
      var last := |b| - 1;
      AtPriceConcat(a, b[..last], price);
      assert (a + b)[..|a + b| - 1] == a + b[..last];
    }
  }

  lemma {:induction false} NothingAtPrice(q: seq<Level>, price: real)
    requires forall k :: 0 <= k < |q| ==> q[k].price != price
    ensures AtPrice(q, price) == []
  {
    if q != [] {
      NothingAtPrice(q[..|q| - 1], price);
    }
  }

  lemma {:induction false} InsertKeepsOrder(q: seq<Level>, key: Level, price: real)
    ensures AtPrice(Insert(q, key), price) == AtPrice(q + [key], price)
  {
    var last := |q| - 1;
    if q != [] && q[last].price > key.price {
      InsertKeepsOrder(q[..last], key, price);
      AtPriceConcat(Insert(q[..last], key), [q[last]], price);
      assert q == q[..last] + [q[last]];
      AtPriceConcat(q[..last], [key], price);
      AtPriceConcat(q[..last], [q[last]], price);
      AtPriceConcat(q, [key], price);
    }
  }

  /** Sorting gives an ascending permutation that keeps the order of equal prices. */
  lemma {:induction false} SortIsStable(q: seq<Level>)
    ensures Ascending(Sort(q)) && multiset(Sort(q)) == multiset(q)
    ensures SameAtAllPrices(Sort(q), q)
  {
    if q != [] {
      var front, key := q[..|q| - 1], q[|q| - 1];
      SortIsStable(front);
      InsertAscends(Sort(front), key);
      InsertPermutes(Sort(front), key);
      assert q == front + [key];
      forall price
        ensures AtPrice(Sort(q), price) == AtPrice(q, price)
      {
        InsertKeepsOrder(Sort(front), key, price);
        AtPriceConcat(Sort(front), [key], price);
        AtPriceConcat(front, [key], price);
      }
    }
  }

  /** Nothing else is: an ascending book with the same levels at every price is that sort. */
  lemma {:induction false} StableSortIsUnique(a: seq<Level>, b: seq<Level>)
    requires Ascending(a) && Ascending(b)
    requires SameAtAllPrices(a, b)
    ensures a == b
    decreases |a|
  {
    if a == [] {
      EmptyAtAllPrices(b);
    } else if b == [] {
      EmptyAtAllPrices(a);
    } else {
      var la, lb := a[|a| - 1], b[|b| - 1];
      DearestIsLast(a, b);
      DearestIsLast(b, a);
      var fa, fb := a[..|a| - 1], b[..|b| - 1];
      assert AtPrice(a, la.price) == AtPrice(b, la.price);
      assert AtPrice(fa, la.price) + [la] == AtPrice(fb, la.price) + [lb];
      AppendInjective(AtPrice(fa, la.price), la, AtPrice(fb, la.price), lb);
      forall price: real
        ensures AtPrice(fa, price) == AtPrice(fb, price)
      {
        assert AtPrice(a, price) == AtPrice(b, price);
        if price != la.price {
          assert AtPrice(a, price) == AtPrice(fa, price) && AtPrice(b, price) == AtPrice(fb, price);
        }
      }
      StableSortIsUnique(a[..|a| - 1], b[..|b| - 1]);
    }
  }

  lemma AppendInjective(a: seq<Level>, x: Level, b: seq<Level>, y: Level)
    requires a + [x] == b + [y]
    ensures a == b && x == y
  {
    assert a == (a + [x])[..|a|] && b == (b + [y])[..|b|];
    assert x == (a + [x])[|a|];
  }

  lemma EmptyAtAllPrices(q: seq<Level>)
    ensures q != [] ==> AtPrice(q, q[|q| - 1].price) != []
  {}

  lemma {:induction false} AtPriceNonempty(q: seq<Level>, price: real)
    requires AtPrice(q, price) != []
    ensures exists k :: 0 <= k < |q| && q[k].price == price
  {
    if forall k :: 0 <= k < |q| ==> q[k].price != price {
      NothingAtPrice(q, price);
    }
  }

  lemma DearestIsLast(a: seq<Level>, b: seq<Level>)
    requires Ascending(a) && Ascending(b) && a != [] && b != []
    requires SameAtAllPrices(a, b)
    ensures a[|a| - 1].price <= b[|b| - 1].price
  {
    var price := a[|a| - 1].price;
    assert AtPrice(a, price) == AtPrice(b, price);
    AtPriceNonempty(b, price);
    var k :| 0 <= k < |b| && b[k].price == price;
  }
}
