/** What filling a set or map in any order makes of it, when its comparator is an order. */
module TextContainers {
  import opened TextFormat
  import opened TextGrammar
  import opened TextRoundTrip

  ghost predicate Equivalent(less: Order, a: Value, b: Value) {
    !less(a, b) && !less(b, a)
  }

  /** What the standard library asks of a comparator. */
  ghost predicate StrictWeak(less: Order) {
    && (forall a, b :: less(a, b) ==> !less(b, a))
    && (forall a, b, c :: less(a, b) && less(b, c) ==> less(a, c))
    && (forall a, b, c :: Equivalent(less, a, b) && Equivalent(less, b, c) ==> Equivalent(less, a, c))
  }

  lemma RisingAhead(less: Order, head: Value, tail: seq<Value>)
    requires Rising(less, tail) && forall u :: u in tail ==> less(head, u)
    ensures Rising(less, [head] + tail)
  {
    var all := [head] + tail;
    forall i, j | 0 <= i < j < |all|
      ensures less(all[i], all[j])
    {
      assert all[j] == tail[j - 1] && all[j] in tail;
      assert i > 0 ==> all[i] == tail[i - 1];
    }
  }

  /** An element goes where the order puts it, unless an equivalent one is there. */
  lemma {:induction false} InsertMeans(less: Order, items: seq<Value>, v: Value)
    requires StrictWeak(less) && Rising(less, items)
    ensures Rising(less, Insert(less, items, v))
    ensures forall u :: u in Insert(less, items, v) <==>
      u in items || (u == v && forall w :: w in items ==> !Equivalent(less, w, v))
  {
    if items != [] {
      var head, tail := items[0], items[1..];
      assert forall u :: u in items <==> u == head || u in tail;
      if less(head, v) {
        InsertMeans(less, tail, v);
        RisingAhead(less, head, Insert(less, tail, v));
        assert forall u :: u in Insert(less, items, v) <==> u == head || u in Insert(less, tail, v);
      } else if less(v, head) {
        RisingAhead(less, v, items);
        assert forall u :: u in Insert(less, items, v) <==> u == v || u in items;
      } else {
        assert Equivalent(less, head, v);
      }
    }
  }

  /** A set filled in any order holds, in its own order, the first of all equivalent elements. */
  lemma {:induction false} FilledSet(less: Order, items: seq<Value>, more: seq<Value>)
    requires StrictWeak(less) && Rising(less, items)
    ensures Rising(less, KeepAll(less, true, items, more))
    ensures forall u :: u in KeepAll(less, true, items, more) <==> u in items || FirstOfKind(less, items, more, u)
    decreases |more|
  {
    if more != [] {
      InsertMeans(less, items, more[0]);
      var items', tail := Insert(less, items, more[0]), more[1..];
      FilledSet(less, items', tail);
      forall u
        ensures u in items' || FirstOfKind(less, items', tail, u) <==> u in items || FirstOfKind(less, items, more, u)
      {
        FirstBehind(less, items, items', more, u);
      }
    }
  }

  /** `u` is among `more`, with nothing equivalent in `items` or before it. */
  ghost predicate FirstOfKind(less: Order, items: seq<Value>, more: seq<Value>, u: Value) {
    && (forall w :: w in items ==> !Equivalent(less, w, u))
    && exists i :: 0 <= i < |more| && more[i] == u && forall j :: 0 <= j < i ==> !Equivalent(less, more[j], u)
  }

  lemma FirstBehind(less: Order, items: seq<Value>, items': seq<Value>, more: seq<Value>, u: Value)
    requires StrictWeak(less) && more != []
    requires forall w :: w in items' <==> w in items || (w == more[0] && forall x :: x in items ==> !Equivalent(less, x, more[0]))
    ensures u in items' || FirstOfKind(less, items', more[1..], u) <==> u in items || FirstOfKind(less, items, more, u)
  {
    var head, tail := more[0], more[1..];
    if FirstOfKind(less, items', tail, u) {
      var i :| 0 <= i < |tail| && tail[i] == u && forall j :: 0 <= j < i ==> !Equivalent(less, tail[j], u);
      assert more[i + 1] == u;
      assert !Equivalent(less, head, u);
      forall j | 0 <= j < i + 1
        ensures !Equivalent(less, more[j], u)
      {
        assert j > 0 ==> more[j] == tail[j - 1];
      }
    }
    if FirstOfKind(less, items, more, u) {
      var i :| 0 <= i < |more| && more[i] == u && forall j :: 0 <= j < i ==> !Equivalent(less, more[j], u);
      if i > 0 {
        assert tail[i - 1] == u;
        assert forall j :: 0 <= j < i - 1 ==> tail[j] == more[j + 1];
      }
    }
    assert Equivalent(less, head, head);
  }

  // ---------------------------------------------------------------- maps

  function KeysOf(entries: seq<Entry>): (keys: seq<Value>)
    ensures |keys| == |entries|
  {
    seq(|entries|, i requires 0 <= i < |entries| => entries[i].key)
  }

  lemma KeysBehind(entries: seq<Entry>)
    requires entries != []
    ensures KeysOf(entries)[0] == entries[0].key && KeysOf(entries)[1..] == KeysOf(entries[1..])
  {}

  /** The keys of a map are those of the set of keys; the entry assigned last gives a key its value. */
  lemma {:induction false} AssignMeans(less: Order, entries: seq<Entry>, e: Entry)
    requires StrictWeak(less) && RisingKeys(less, entries)
    ensures KeysOf(Assign(less, entries, e)) == Insert(less, KeysOf(entries), e.key)
    ensures forall u :: u in Assign(less, entries, e) ==>
      if Equivalent(less, u.key, e.key) then u.value == e.value else u in entries
  {
    if entries != [] {
      var head, tail, r := entries[0], entries[1..], Assign(less, entries, e);
      KeysBehind(entries);
      KeysBehind(r);
      if less(head.key, e.key) {
        AssignMeans(less, tail, e);
        assert r == [head] + Assign(less, tail, e);
        assert forall u :: u in r <==> u == head || u in Assign(less, tail, e);
      } else if less(e.key, head.key) {
        assert r == [e] + entries;
        assert forall u :: u in r <==> u == e || u in entries;
      } else {
        assert r == [Entry(head.key, e.value)] + tail;
        forall u | u in tail
          ensures !Equivalent(less, u.key, e.key)
        {
          assert less(head.key, u.key) && Equivalent(less, e.key, head.key);
          assert Equivalent(less, u.key, e.key) ==> Equivalent(less, u.key, head.key);
        }
      }
    }
  }

  ghost predicate LastOfKind(less: Order, more: seq<Entry>, key: Value, value: Value) {
    exists i: nat :: i < |more| && more[i].value == value && Equivalent(less, more[i].key, key) && NoneOfKind(less, more[i + 1..], key)
  }

  ghost predicate NoneOfKind(less: Order, more: seq<Entry>, key: Value) {
    forall j :: 0 <= j < |more| ==> !Equivalent(less, more[j].key, key)
  }

  lemma LastBehind(less: Order, more: seq<Entry>, key: Value, value: Value)
    requires more != []
    ensures NoneOfKind(less, more, key) <==> !Equivalent(less, more[0].key, key) && NoneOfKind(less, more[1..], key)
    ensures LastOfKind(less, more[1..], key, value) ==> LastOfKind(less, more, key, value)
    ensures NoneOfKind(less, more[1..], key) && Equivalent(less, more[0].key, key) ==> LastOfKind(less, more, key, more[0].value)
  {
    hide Equivalent;
    var tail := more[1..];
    assert more == [more[0]] + tail && more[0 + 1..] == tail;
    if i: nat :| i < |tail| && tail[i].value == value && Equivalent(less, tail[i].key, key) && NoneOfKind(less, tail[i + 1..], key) {
      assert more[i + 1] == tail[i] && more[i + 1 + 1..] == tail[i + 1..];
    }
  }

  /** A map filled in any order: the keys of a set so filled, each with the last value assigned to its kind. */
  lemma {:induction false} FilledMap(less: Order, entries: seq<Entry>, more: seq<Entry>)
    requires StrictWeak(less) && RisingKeys(less, entries)
    ensures var r := AssignAll(less, entries, more);
      && RisingKeys(less, r) && KeysOf(r) == KeepAll(less, true, KeysOf(entries), KeysOf(more))
      && forall u :: u in r ==> LastOfKind(less, more, u.key, u.value) || (NoneOfKind(less, more, u.key) && u in entries)
    decreases |more|
  {
    KeysRise(less, entries);
    if more != [] {
      var e, tail := more[0], more[1..];
      var entries' := Assign(less, entries, e);
      AssignMeans(less, entries, e);
      InsertMeans(less, KeysOf(entries), e.key);
      KeysRise(less, entries');
      KeysBehind(more);
      FilledMap(less, entries', tail);
      forall u | u in AssignAll(less, entries, more)
        ensures LastOfKind(less, more, u.key, u.value) || (NoneOfKind(less, more, u.key) && u in entries)
      {
        LastBehind(less, more, u.key, u.value);
        assert Equivalent(less, u.key, e.key) <==> Equivalent(less, e.key, u.key);
      }
    }
  }

  lemma KeysRise(less: Order, entries: seq<Entry>)
    ensures RisingKeys(less, entries) <==> Rising(less, KeysOf(entries))
  {
    var keys := KeysOf(entries);
    if Rising(less, keys) {
      forall i, j | 0 <= i < j < |entries|
        ensures less(entries[i].key, entries[j].key)
      {
        assert less(keys[i], keys[j]);
      }
    }
  }
}
