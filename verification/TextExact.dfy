/** Which values the text format loses: every condition of the round trip is needed. */
module TextExact {
  import opened TextFormat
  import opened TextGrammar
  import opened TextRoundTrip

  // ---------------------------------------------------------------- whatever is read has clean strings

  lemma {:induction false} DefaultIsFree(ty: Type, delim: char)
    ensures FreeLine(ty, Default(ty), delim)
    decreases ty
  {
    if ty.PairType? {
      DefaultIsFree(ty.first, ',');
      DefaultIsFree(ty.second, '>');
    }
  }

  lemma {:induction false} InsertAddsOne(less: Order, items: seq<Value>, v: Value)
    ensures forall u :: u in Insert(less, items, v) ==> u == v || u in items
  {
    if items != [] {
      InsertAddsOne(less, items[1..], v);
    }
  }

  lemma {:induction false} AssignAddsOne(less: Order, entries: seq<Entry>, e: Entry)
    ensures forall u :: u in Assign(less, entries, e) ==>
      (exists k :: (k == e || k in entries) && u.key == k.key) && (u.value == e.value || u in entries)
  {
    if entries != [] && less(entries[0].key, e.key) {
      AssignAddsOne(less, entries[1..], e);
      forall u | u in Assign(less, entries, e)
        ensures (exists k :: (k == e || k in entries) && u.key == k.key) && (u.value == e.value || u in entries)
      {
        if u != entries[0] {
          assert u in Assign(less, entries[1..], e);
          var k :| (k == e || k in entries[1..]) && u.key == k.key;
          assert k == e || k in entries;
        }
      }
    } else if entries != [] {
      forall u | u in Assign(less, entries, e)
        ensures (exists k :: (k == e || k in entries) && u.key == k.key) && (u.value == e.value || u in entries)
      {
        if u.key == entries[0].key {
          assert entries[0] in entries;
        }
      }
    }
  }

  lemma {:induction false} PartIsFree(less: Order, ty: Type, text: string, delim: char)
    ensures var r := ReadPart(less, ty, text, delim); r.Got? ==> FreeLine(ty, r.value, delim)
    decreases ty, 1, |text|
  {
    DefaultIsFree(ty, delim);
    if !ty.StringType? {
      ReadsCleanStrings(less, ty, text);
    }
  }

  lemma {:induction false} MappedIsFree(less: Order, ty: Type, text: string)
    ensures var r := ReadMapped(less, ty, text); r.Got? ==> FreeItem(ty, r.value.0)
    decreases ty, 1, |text|
  {
    if !ty.StringType? {
      ReadsCleanStrings(less, ty, text);
    }
  }

  lemma {:induction false} KeyIsFree(less: Order, ty: Type, text: string)
    ensures var r := ReadKey(less, ty, text); r.Got? ==> FreeLine(ty, r.value, '=')
    decreases ty, 1, |text|
  {
    if !ty.StringType? {
      ReadsCleanStrings(less, ty, text);
    }
  }

  lemma {:induction false} ItemsAreFree(less: Order, ty: Type, text: string, isSet: bool, items: seq<Value>)
    requires forall u :: u in items ==> FreeItem(ty, u)
    ensures var r := ReadItems(less, ty, text, isSet, items); r.Got? ==> forall u :: u in r.value ==> FreeItem(ty, u)
    decreases ty, 2, |text|
  {
    ReadItemsStep(less, ty, text, isSet, items);
    MappedIsFree(less, ty, text);
    var r := ReadMapped(less, ty, text);
    if r.Got? {
      InsertAddsOne(less, items, r.value.0);
      if !r.value.1 {
        ItemsAreFree(less, ty, r.rest, isSet, Keep(less, isSet, items, r.value.0));
      }
    }
  }

  lemma {:induction false} EntriesAreFree(less: Order, keyType: Type, valueType: Type, text: string, entries: seq<Entry>)
    requires forall e :: e in entries ==> FreeLine(keyType, e.key, '=') && FreeItem(valueType, e.value)
    ensures var r := ReadEntries(less, keyType, valueType, text, entries);
      r.Got? ==> forall e :: e in r.value ==> FreeLine(keyType, e.key, '=') && FreeItem(valueType, e.value)
    decreases MapType(keyType, valueType), 0, |text|
  {
    KeyIsFree(less, keyType, text);
    var k := ReadKey(less, keyType, text);
    if k.Got? {
      MappedIsFree(less, valueType, k.rest);
      var m := ReadMapped(less, valueType, k.rest);
      if m.Got? {
        var e := Entry(k.value, m.value.0);
        AssignAddsOne(less, entries, e);
        var entries' := Assign(less, entries, e);
        forall u | u in entries'
          ensures FreeLine(keyType, u.key, '=') && FreeItem(valueType, u.value)
        {
          var known :| (known == e || known in entries) && u.key == known.key;
        }
        if !m.value.1 {
          EntriesAreFree(less, keyType, valueType, m.rest, entries');
        }
      }
    }
  }

  /** So a value with any other string does not come back, whatever it is nested in. */
  lemma {:induction false} ReadsCleanStrings(less: Order, ty: Type, text: string)
    requires !ty.StringType?
    ensures var r := ReadValue(less, ty, text); r.Got? ==> CleanStrings(ty, r.value)
    decreases ty, 0, |text| + 1
  {
    var c := ReadChar(text);
    if c.Got? {
      match ty
      case PairType(x, y) =>
        PartIsFree(less, x, c.rest, ',');
        var a := ReadPart(less, x, c.rest, ',');
        if a.Got? {
          PartIsFree(less, y, a.rest, '>');
        }
      case VectorType(elem) => ItemsAreFree(less, elem, c.rest, false, []);
      case SetType(elem) => ItemsAreFree(less, elem, c.rest, true, []);
      case MapType(key, value) => EntriesAreFree(less, key, value, c.rest, []);
      case _ =>
    }
  }

  // ---------------------------------------------------------------- what is read holds no lone empty string

  lemma {:induction false} KeepAllFrom(less: Order, isSet: bool, items: seq<Value>, more: seq<Value>)
    ensures forall u :: u in KeepAll(less, isSet, items, more) ==> u in items || u in more
    decreases |more|
  {
    if more != [] {
      InsertAddsOne(less, items, more[0]);
      KeepAllFrom(less, isSet, Keep(less, isSet, items, more[0]), more[1..]);
    }
  }

  ghost predicate NoLoneEntry(e: Entry) {
    NoLoneEmpty(e.key) && NoLoneEmpty(e.value)
  }

  lemma {:induction false} AssignAllNoLone(less: Order, entries: seq<Entry>, more: seq<Entry>)
    requires (forall e :: e in entries ==> NoLoneEntry(e)) && (forall e :: e in more ==> NoLoneEntry(e))
    ensures forall e :: e in AssignAll(less, entries, more) ==> NoLoneEntry(e)
    decreases |more|
  {
    if more != [] {
      AssignAddsOne(less, entries, more[0]);
      var entries' := Assign(less, entries, more[0]);
      assert more[0] in more && NoLoneEntry(more[0]);
      forall u | u in entries'
        ensures NoLoneEntry(u)
      {
        var known :| (known == more[0] || known in entries) && u.key == known.key;
      }
      AssignAllNoLone(less, entries', more[1..]);
    }
  }

  lemma {:induction false} AllNoLone(less: Order, ty: Type, items: seq<Value>)
    requires forall u :: u in items ==> FreeItem(ty, u) && Proper(less, u)
    ensures forall u :: u in AllAsRead(less, items) ==> NoLoneEmpty(u) && (u.StringV? <==> ty.StringType?)
    ensures ty.StringType? ==> AllAsRead(less, items) == items
    ensures AllAsRead(less, items) == [StringV("")] ==> items == [StringV("")]
    decreases ty, 3, |items|
  {
    if items != [] {
      var head, tail := items[0], items[1..];
      assert items == [head] + tail && head in items;
      if !ty.StringType? {
        AsReadNoLone(less, ty, head);
      }
      AllNoLone(less, ty, tail);
      assert AllAsRead(less, items) == [AsRead(less, head)] + AllAsRead(less, tail);
    }
  }

  lemma {:induction false} EntriesNoLone(less: Order, keyType: Type, valueType: Type, entries: seq<Entry>)
    requires forall e :: e in entries ==>
      FreeLine(keyType, e.key, '=') && FreeItem(valueType, e.value) && Proper(less, e.key) && Proper(less, e.value)
    ensures forall e :: e in EntriesAsRead(less, entries) ==> NoLoneEntry(e)
    decreases MapType(keyType, valueType), 0, |entries|
  {
    if entries != [] {
      var e := entries[0];
      assert e in entries;
      if !keyType.StringType? {
        AsReadNoLone(less, keyType, e.key);
      }
      if !valueType.StringType? {
        AsReadNoLone(less, valueType, e.value);
      }
      EntriesNoLone(less, keyType, valueType, entries[1..]);
      assert NoLoneEntry(EntryAsRead(less, e));
      assert EntriesAsRead(less, entries) == [EntryAsRead(less, e)] + EntriesAsRead(less, entries[1..]);
    }
  }

  /** What the reader makes of a value holds no vector or set of just one empty string. */
  lemma {:induction false} AsReadNoLone(less: Order, ty: Type, v: Value)
    requires CleanStrings(ty, v) && Proper(less, v)
    ensures NoLoneEmpty(AsRead(less, v)) && !AsRead(less, v).StringV?
    decreases ty, 2
  {
    match ty
    case PairType(x, y) =>
      if !x.StringType? {
        AsReadNoLone(less, x, v.a);
      }
      if !y.StringType? {
        AsReadNoLone(less, y, v.b);
      }
    case VectorType(elem) => AllNoLone(less, elem, v.items);
    case SetType(elem) => SetNoLone(less, elem, v);
    case MapType(key, value) =>
      EntriesNoLone(less, key, value, v.entries);
      AssignAllNoLone(less, [], EntriesAsRead(less, v.entries));
      var entries := AssignAll(less, [], EntriesAsRead(less, v.entries));
      assert forall e :: e in entries ==> NoLoneEntry(e);
    case _ =>
  }

  lemma {:induction false} SetNoLone(less: Order, elem: Type, v: Value)
    requires CleanStrings(SetType(elem), v) && Proper(less, v)
    ensures NoLoneEmpty(AsRead(less, v))
    decreases SetType(elem), 1
  {
    AllNoLone(less, elem, v.items);
    var filled := KeepAll(less, true, [], AllAsRead(less, v.items));
    KeepAllFrom(less, true, [], AllAsRead(less, v.items));
    if elem.StringType? {
      assert [] + v.items == v.items;
      RefillSet(less, [], v.items);
    } else if filled != [] {
      assert filled[0] in filled;
    }
  }

  // ---------------------------------------------------------------- bracket keys

  /** A map whose first key begins with ']' reads as empty, and the rest of its text is left unread. */
  lemma BracketKeyIsLost(less: Order, valueType: Type, entries: seq<Entry>, rest: string)
    requires entries != [] && entries[0].key.StringV? && Peeks(entries[0].key.s, ']')
    ensures var r := ReadValue(less, MapType(StringType, valueType), Print(MapV(entries)) + rest);
      r.Got? && r.value == MapV([]) && |r.rest| > |rest|
  {
    EntriesText(entries, rest);
    var body := PrintEntries(entries) + "]" + rest;
    assert Print(MapV(entries)) + rest == ['['] + body;
    CharFirst('[', body);
    assert body[0] == ']' && body == [']'] + body[1..];
    CharFirst(']', body[1..]);
  }

  /**
    Everywhere inside, sets and maps are in their comparator's order; and a map inside a set or
    another map has no first key that begins with ']'.
   */
  ghost predicate InOrder(less: Order, v: Value)
    decreases v
  {
    match v
    case PairV(a, b) => InOrder(less, a) && InOrder(less, b)
    case VectorV(items) => forall u :: u in items ==> InOrder(less, u)
    case SetV(items) => Rising(less, items) && forall u :: u in items ==> Proper(less, u)
    case MapV(entries) =>
      RisingKeys(less, entries) && forall e :: e in entries ==> Proper(less, e.key) && Proper(less, e.value)
    case _ => true
  }

  lemma {:induction false} PartMisread(less: Order, ty: Type, v: Value, delim: char, rest: string)
    requires FreeLine(ty, v, delim) && InOrder(less, v) && !Proper(less, v) && delim in {',', '>'}
    ensures var r := ReadPart(less, ty, Print(v) + [delim] + rest, delim); r.Got? ==> r.value != v
    decreases ty, 2
  {
    FirstChar(ty, v);
    assert Print(v) + [delim] + rest == Print(v) + ([delim] + rest);
    BracketKeyMisread(less, ty, v, [delim] + rest);
  }

  lemma {:induction false} PairMisread(less: Order, ty: Type, v: Value, rest: string)
    requires ty.PairType? && CleanStrings(ty, v) && InOrder(less, v) && !Proper(less, v)
    ensures var r := ReadValue(less, ty, Print(v) + rest); r.Got? ==> r.value != v
    decreases ty, 0
  {
    var tail := Print(v.b) + ['>'] + rest;
    var body := Print(v.a) + [','] + tail;
    PairText(v, rest);
    CharFirst('<', body);
    if Proper(less, v.a) {
      PartReads(less, ty.first, v.a, ',', tail);
      PartMisread(less, ty.second, v.b, '>', rest);
    } else {
      PartMisread(less, ty.first, v.a, ',', tail);
    }
    hide Print, ReadPart, ReadChar, FreeLine, Proper, InOrder;
  }

  /** A vector's reader keeps what it has. */
  lemma {:induction false} ItemsKept(less: Order, ty: Type, text: string, items: seq<Value>)
    ensures var r := ReadItems(less, ty, text, false, items); r.Got? ==> items <= r.value
    decreases |text|
  {
    ReadItemsStep(less, ty, text, false, items);
    var r := ReadMapped(less, ty, text);
    if r.Got? && !r.value.1 {
      ItemsKept(less, ty, r.rest, items + [r.value.0]);
    }
  }

  /** Once an element is read as another one, the vector is another one. */
  lemma OtherElement(less: Order, ty: Type, text: string, items: seq<Value>, done: seq<Value>)
    requires items != []
    requires var r := ReadMapped(less, ty, text); r.Got? ==> r.value.0 != items[0]
    ensures var r := ReadItems(less, ty, text, false, done); r.Got? ==> r.value != done + items
  {
    ReadItemsStep(less, ty, text, false, done);
    var r := ReadMapped(less, ty, text);
    if r.Got? {
      var done' := done + [r.value.0];
      if !r.value.1 {
        ItemsKept(less, ty, r.rest, done');
      }
      assert done'[|done|] != (done + items)[|done|];
    }
  }

  /** An element read as itself leaves the other elements to be read. */
  lemma SameElement(less: Order, ty: Type, text: string, items: seq<Value>, done: seq<Value>, rest: string)
    requires |items| > 1 && ReadMapped(less, ty, text) == Got((items[0], false), rest)
    ensures ReadItems(less, ty, text, false, done) == ReadItems(less, ty, rest, false, done + [items[0]])
    ensures done + [items[0]] + items[1..] == done + items
  {
    ReadItemsStep(less, ty, text, false, done);
  }

  lemma {:induction false} ItemMisread(less: Order, ty: Type, v: Value, text: string)
    requires !ty.StringType? && CleanStrings(ty, v) && InOrder(less, v) && !Proper(less, v)
    ensures var r := ReadMapped(less, ty, Print(v) + text); r.Got? ==> r.value.0 != v
    decreases ty, 2
  {
    BracketKeyMisread(less, ty, v, text);
  }

  lemma {:induction false} ItemsMisread(less: Order, ty: Type, items: seq<Value>, done: seq<Value>, rest: string)
    requires !ty.StringType? && forall u :: u in items ==> CleanStrings(ty, u) && InOrder(less, u)
    requires exists u :: u in items && !Proper(less, u)
    ensures var r := ReadItems(less, ty, PrintItems(items) + "]" + rest, false, done); r.Got? ==> r.value != done + items
    decreases ty, 3, |items|
  {
    var text, v, tail := PrintItems(items) + "]" + rest, items[0], items[1..];
    var c := if tail == [] then ']' else ',';
    var more := if tail == [] then rest else PrintItems(tail) + "]" + rest;
    assert v in items && items == [v] + tail;
    ItemsText(items, rest);
    assert text == Print(v) + ([c] + more);
    assert FreeItem(ty, v);
    hide Print, PrintItems, ReadItems, ReadMapped, CleanStrings, Proper, InOrder, FreeItem, AsRead;
    if !Proper(less, v) {
      ItemMisread(less, ty, v, [c] + more);
      OtherElement(less, ty, text, items, done);
    } else {
      ItemReads(less, ty, v, c, more);
      if AsRead(less, v) != v {
        OtherElement(less, ty, text, items, done);
      } else {
        SameElement(less, ty, text, items, done, more);
        ItemsMisread(less, ty, tail, done + [v], rest);
      }
    }
  }

  lemma {:induction false} VectorMisread(less: Order, ty: Type, v: Value, rest: string)
    requires ty.VectorType? && CleanStrings(ty, v) && InOrder(less, v) && !Proper(less, v)
    ensures var r := ReadValue(less, ty, Print(v) + rest); r.Got? ==> r.value != v
    decreases ty, 0
  {
    var body := PrintItems(v.items) + "]" + rest;
    assert Print(v) + rest == ['['] + body;
    CharFirst('[', body);
    assert v.items[0] in v.items;
    ItemsNotEmptyText(ty.elem, v.items, rest);
    ItemsMisread(less, ty.elem, v.items, [], rest);
    assert [] + v.items == v.items;
    hide Print, PrintItems, ReadItems, ReadChar;
  }

  lemma StringByLine(ty: Type, v: Value)
    requires FreeLine(ty, v, '=') && v.StringV?
    ensures ty.StringType?
  {}

  /** Along pairs and vectors a bracket key is never made up for by what is misread behind it. */
  lemma {:induction false} BracketKeyMisread(less: Order, ty: Type, v: Value, rest: string)
    requires CleanStrings(ty, v) && InOrder(less, v) && !Proper(less, v)
    ensures var r := ReadValue(less, ty, Print(v) + rest); r.Got? ==> r.value != v
    decreases ty, 1
  {
    match ty
    case PairType(_, _) => PairMisread(less, ty, v, rest);
    case VectorType(_) => VectorMisread(less, ty, v, rest);
    case MapType(_, valueType) =>
      assert !FirstKeyOk(v.entries) && v.entries[0] in v.entries;
      StringByLine(ty.key, v.entries[0].key);
      BracketKeyIsLost(less, valueType, v.entries, rest);
    case _ =>
  }

  // ---------------------------------------------------------------- exactness

  /**
    Of all values in order, the reader recovers exactly those with clean strings, no lone empty
    string and no map whose first key begins with a bracket.
   */
  lemma RoundTripIff(less: Order, ty: Type, v: Value, rest: string)
    requires !ty.StringType? && InOrder(less, v)
    requires ty.IntType? ==> !(rest != "" && IsDigit(rest[0]))
    ensures ReadValue(less, ty, Print(v) + rest) == Got(v, rest) <==>
            CleanStrings(ty, v) && NoLoneEmpty(v) && Proper(less, v)
  {
    ReadsCleanStrings(less, ty, Print(v) + rest);
    if CleanStrings(ty, v) && !Proper(less, v) {
      BracketKeyMisread(less, ty, v, rest);
    } else if CleanStrings(ty, v) {
      PrintReads(less, ty, v, rest);
      AsReadNoLone(less, ty, v);
      if NoLoneEmpty(v) {
        ReadUnchanged(less, v);
      }
    }
  }
}
