/**
  Reading back what was printed, for values of any nesting: what the reader makes of it, and for
  which values that is the value itself.
 */
module TextRoundTrip {
  import opened TextFormat
  import opened TextGrammar

  // ---------------------------------------------------------------- conditions on values

  ghost predicate Rising(less: Order, items: seq<Value>) {
    forall i, j :: 0 <= i < j < |items| ==> less(items[i], items[j])
  }

  ghost predicate RisingKeys(less: Order, entries: seq<Entry>) {
    forall i, j :: 0 <= i < j < |entries| ==> less(entries[i].key, entries[j].key)
  }

  ghost predicate PlainText(s: string) {
    forall c :: c in s ==> Plain(c)
  }

  /** A string read by getline is free of its delimiter. */
  ghost predicate FreeLine(ty: Type, v: Value, delim: char)
    decreases ty, 1
  {
    if ty.StringType? then v.StringV? && delim !in v.s else CleanStrings(ty, v)
  }

  /** A string read by extractString is free of ',', ']' and white space. */
  ghost predicate FreeItem(ty: Type, v: Value)
    decreases ty, 1
  {
    if ty.StringType? then v.StringV? && PlainText(v.s) else CleanStrings(ty, v)
  }

  /** Of the given type, every string free of the characters that end it where it stands. */
  ghost predicate CleanStrings(ty: Type, v: Value)
    decreases ty, 0
  {
    match ty
    case IntType => v.IntV?
    case StringType => false
    case PairType(x, y) => v.PairV? && FreeLine(x, v.a, ',') && FreeLine(y, v.b, '>')
    case VectorType(elem) => v.VectorV? && forall u :: u in v.items ==> FreeItem(elem, u)
    case SetType(elem) => v.SetV? && forall u :: u in v.items ==> FreeItem(elem, u)
    case MapType(key, value) =>
      v.MapV? && forall e :: e in v.entries ==> FreeLine(key, e.key, '=') && FreeItem(value, e.value)
  }

  /** A map's first key, when a string, does not begin with ']'. */
  predicate FirstKeyOk(entries: seq<Entry>) {
    entries != [] && entries[0].key.StringV? ==> !Peeks(entries[0].key.s, ']')
  }

  /** Everywhere inside: sets and maps in their comparator's order, and first keys as above. */
  ghost predicate Proper(less: Order, v: Value)
    decreases v
  {
    match v
    case PairV(a, b) => Proper(less, a) && Proper(less, b)
    case VectorV(items) => forall u :: u in items ==> Proper(less, u)
    case SetV(items) => Rising(less, items) && forall u :: u in items ==> Proper(less, u)
    case MapV(entries) =>
      && RisingKeys(less, entries) && FirstKeyOk(entries)
      && forall e :: e in entries ==> Proper(less, e.key) && Proper(less, e.value)
    case _ => true
  }

  /** Nowhere inside: a vector or set of just one empty string, which prints as an empty one. */
  ghost predicate NoLoneEmpty(v: Value)
    decreases v
  {
    match v
    case PairV(a, b) => NoLoneEmpty(a) && NoLoneEmpty(b)
    case VectorV(items) => items != [StringV("")] && forall u :: u in items ==> NoLoneEmpty(u)
    case SetV(items) => items != [StringV("")] && forall u :: u in items ==> NoLoneEmpty(u)
    case MapV(entries) => forall e :: e in entries ==> NoLoneEmpty(e.key) && NoLoneEmpty(e.value)
    case _ => true
  }

  // ---------------------------------------------------------------- what the reader makes of a value

  /** The value read from a print: each container refilled, a lone empty string lost. */
  function AsRead(less: Order, v: Value): Value
    decreases v
  {
    match v
    case PairV(a, b) => PairV(AsRead(less, a), AsRead(less, b))
    case VectorV(items) => VectorV(if items == [StringV("")] then [] else AllAsRead(less, items))
    case SetV(items) => SetV(if items == [StringV("")] then [] else KeepAll(less, true, [], AllAsRead(less, items)))
    case MapV(entries) => MapV(AssignAll(less, [], EntriesAsRead(less, entries)))
    case _ => v
  }

  function AllAsRead(less: Order, items: seq<Value>): (r: seq<Value>)
    ensures |r| == |items|
    decreases items
  {
    if items == [] then [] else [AsRead(less, items[0])] + AllAsRead(less, items[1..])
  }

  function EntryAsRead(less: Order, e: Entry): Entry
    decreases e
  {
    Entry(AsRead(less, e.key), AsRead(less, e.value))
  }

  function EntriesAsRead(less: Order, entries: seq<Entry>): (r: seq<Entry>)
    ensures |r| == |entries|
    decreases entries
  {
    if entries == [] then [] else [EntryAsRead(less, entries[0])] + EntriesAsRead(less, entries[1..])
  }

  // ---------------------------------------------------------------- characters

  lemma CharFirst(c: char, rest: string)
    requires !IsSpace(c)
    ensures ReadChar([c] + rest) == Got(c, rest)
  {}

  // ---------------------------------------------------------------- numbers

  lemma {:induction false} NumberLast(s: string, c: char, n: int)
    ensures Number(s + [c], n) == 10 * Number(s, n) + (c as int - '0' as int)
  {
    if s == "" {
      assert s + [c] == [c];
    } else {
      assert (s + [c])[1..] == s[1..] + [c];
      NumberLast(s[1..], c, 10 * n + (s[0] as int - '0' as int));
    }
  }

  /** A number's digits, without leading zeros. */
  lemma {:induction false} DigitsMean(n: nat)
    ensures AllDigits(Digits(n)) && Number(Digits(n), 0) == n
    ensures Digits(n)[0] == '0' <==> n == 0
  {
    if n >= 10 {
      DigitsMean(n / 10);
      NumberLast(Digits(n / 10), Digit(n % 10), 0);
    }
  }

  /** What a printed value other than a string starts with. */
  lemma FirstChar(ty: Type, v: Value)
    requires CleanStrings(ty, v)
    ensures Print(v) != "" && (IsDigit(Print(v)[0]) || Print(v)[0] in {'-', '<', '['})
  {
    if v.IntV? {
      var m: nat := if v.n < 0 then 0 - v.n else v.n;
      DigitsMean(m);
      assert Digits(m)[0] in Digits(m);
    }
  }

  // ---------------------------------------------------------------- parts

  /** What is behind an element: the end and the text after it, or a comma and `more` elements. */
  lemma BehindElement(front: string, more: string, last: bool, rest: string)
    ensures last ==> front + "" + "]" + rest == front + ([']'] + rest)
    ensures !last ==> front + ("," + more) + "]" + rest == front + ([','] + (more + "]" + rest))
  {}

  lemma ItemsText(items: seq<Value>, rest: string)
    requires items != []
    ensures PrintItems(items) + "]" + rest ==
      Print(items[0]) + (if |items| == 1 then [']'] + rest else [','] + (PrintItems(items[1..]) + "]" + rest))
  {
    var front, last, more := Print(items[0]), |items| == 1, PrintItems(items[1..]);
    assert PrintItems(items) == front + (if last then "" else "," + more);
    hide Print, PrintItems;
    BehindElement(front, more, last, rest);
  }

  lemma EntriesText(entries: seq<Entry>, rest: string)
    requires entries != []
    ensures PrintEntries(entries) + "]" + rest ==
      Print(entries[0].key) + "=" + (Print(entries[0].value) +
      (if |entries| == 1 then [']'] + rest else [','] + (PrintEntries(entries[1..]) + "]" + rest)))
  {
    var key, value := Print(entries[0].key), Print(entries[0].value);
    var last, more := |entries| == 1, PrintEntries(entries[1..]);
    var tail := if last then [']'] + rest else [','] + (more + "]" + rest);
    assert PrintEntries(entries) == key + "=" + value + (if last then "" else "," + more);
    hide Print, PrintEntries, PrintEntry;
    BehindElement(key + "=" + value, more, last, rest);
    BehindKey(key, value, tail);
  }

  lemma BehindKey(key: string, value: string, tail: string)
    ensures key + "=" + value + tail == key + "=" + (value + tail)
  {}

  /** The bracketed text of a container is not mistaken for an empty one. */
  lemma ItemsNotEmptyText(ty: Type, items: seq<Value>, rest: string)
    requires items != [] && items != [StringV("")] && FreeItem(ty, items[0])
    ensures !Peeks(PrintItems(items) + "]" + rest, ']')
  {
    ItemsText(items, rest);
    var v := items[0];
    if ty.StringType? {
      if v.s != "" {
        assert v.s[0] in v.s;
      } else {
        assert |items| > 1;
      }
    } else {
      FirstChar(ty, v);
    }
  }

  lemma EntriesNotEmptyText(ty: Type, entries: seq<Entry>, rest: string)
    requires entries != [] && FreeLine(ty, entries[0].key, '=') && FirstKeyOk(entries)
    ensures !Peeks(PrintEntries(entries) + "]" + rest, ']')
  {
    EntriesText(entries, rest);
    if !ty.StringType? {
      FirstChar(ty, entries[0].key);
    }
  }

  /** The text of a pair, from its bracket on. */
  lemma PairText(v: Value, rest: string)
    requires v.PairV?
    ensures Print(v) + rest == ['<'] + (Print(v.a) + [','] + (Print(v.b) + ['>'] + rest))
  {}

  // ---------------------------------------------------------------- the printed form

  /** How operator<< writes a value: no blanks, no plus sign, '<' and '[' as brackets. */
  function Canon(v: Value): Form
    decreases v
  {
    match v
    case IntV(n) => NumberF("", if n < 0 then "-" else "", Digits(if n < 0 then 0 - n else n))
    case StringV(s) => TextF(s)
    case PairV(a, b) => PairF("", '<', Part(Canon(a), "", ','), Part(Canon(b), "", '>'))
    case VectorV(items) => ListF("", '[', if items == [StringV("")] then [] else CanonParts(items))
    case SetV(items) => ListF("", '[', if items == [StringV("")] then [] else CanonParts(items))
    case MapV(entries) => MapF("", '[', CanonEntries(entries))
  }

  function End(last: bool): char {
    if last then ']' else ','
  }

  function CanonParts(items: seq<Value>): (parts: seq<Part>)
    ensures |parts| == |items|
    ensures forall i :: 0 <= i < |items| ==> parts[i].gap == "" && parts[i].end == End(i == |items| - 1)
    decreases items
  {
    if items == [] then [] else [Part(Canon(items[0]), "", End(|items| == 1))] + CanonParts(items[1..])
  }

  function CanonEntry(e: Entry, last: bool): Item
    decreases e
  {
    Item(Part(Canon(e.key), "", '='), Part(Canon(e.value), "", End(last)))
  }

  function CanonEntries(entries: seq<Entry>): (bindings: seq<Item>)
    ensures |bindings| == |entries|
    decreases entries
  {
    if entries == [] then [] else [CanonEntry(entries[0], |entries| == 1)] + CanonEntries(entries[1..])
  }

  // ---------------------------------------------------------------- it is what is printed

  lemma PartOf(f: Form, end: char)
    ensures PartText(Part(f, "", end)) == Written(f) + [end]
  {}

  lemma PartsStep(items: seq<Value>)
    requires items != []
    ensures CanonParts(items) == [Part(Canon(items[0]), "", End(|items| == 1))] + CanonParts(items[1..])
    ensures PartsText(CanonParts(items)) == Written(Canon(items[0])) + [End(|items| == 1)] + PartsText(CanonParts(items[1..]))
  {
    PartOf(Canon(items[0]), End(|items| == 1));
    assert CanonParts(items)[1..] == CanonParts(items[1..]);
    hide PartText;
  }

  /** An element and what follows it, as printed and as written. */
  lemma Separated(front: string, more: string)
    ensures front + ([','] + (more + "]")) == front + ("," + more) + "]"
    ensures front + [','] + (more + "]") == front + ("," + more) + "]"
    ensures front + [']'] + "" == front + "" + "]"
  {}

  lemma {:induction false} PartsWritten(items: seq<Value>)
    requires items != []
    ensures PartsText(CanonParts(items)) == PrintItems(items) + "]"
    decreases items, 0
  {
    var tail := items[1..];
    PartsStep(items);
    CanonWritten(items[0]);
    var front, more := Print(items[0]), PrintItems(tail);
    Separated(front, more);
    if tail != [] {
      PartsWritten(tail);
    }
    hide Written, Print, Canon, CanonParts;
  }

  lemma EntriesStep(entries: seq<Entry>)
    requires entries != []
    ensures CanonEntries(entries) == [CanonEntry(entries[0], |entries| == 1)] + CanonEntries(entries[1..])
    ensures BindingsText(CanonEntries(entries)) ==
            BindingText(CanonEntry(entries[0], |entries| == 1)) + BindingsText(CanonEntries(entries[1..]))
  {
    assert CanonEntries(entries)[1..] == CanonEntries(entries[1..]);
    hide BindingText;
  }

  lemma {:induction false} EntriesWritten(entries: seq<Entry>)
    requires entries != []
    ensures BindingsText(CanonEntries(entries)) == PrintEntries(entries) + "]"
    decreases entries, 0
  {
    var e, tail := entries[0], entries[1..];
    EntriesStep(entries);
    EntryWritten(e, tail == []);
    var front, more := PrintEntry(e), PrintEntries(tail);
    Separated(front, more);
    if tail != [] {
      EntriesWritten(tail);
    }
    hide BindingText, PrintEntry, CanonEntry, CanonEntries;
  }

  lemma {:induction false} EntryWritten(e: Entry, last: bool)
    ensures BindingText(CanonEntry(e, last)) == PrintEntry(e) + [End(last)]
    decreases e
  {
    CanonWritten(e.key);
    CanonWritten(e.value);
    PartOf(Canon(e.key), '=');
    PartOf(Canon(e.value), End(last));
  }

  lemma {:induction false} CanonWritten(v: Value)
    ensures Written(Canon(v)) == Print(v)
    decreases v
  {
    match v
    case PairV(a, b) =>
      CanonWritten(a);
      CanonWritten(b);
      PairWritten(a, b);
    case VectorV(items) => ItemsWritten(v, items);
    case SetV(items) => ItemsWritten(v, items);
    case MapV(entries) =>
      if entries != [] {
        EntriesWritten(entries);
      }
      MapWritten(entries);
    case _ =>
  }

  lemma PairWritten(a: Value, b: Value)
    requires Written(Canon(a)) == Print(a) && Written(Canon(b)) == Print(b)
    ensures Written(Canon(PairV(a, b))) == Print(PairV(a, b))
  {
    PartOf(Canon(a), ',');
    PartOf(Canon(b), '>');
    var x, y := Print(a), Print(b);
    assert "" + ['<'] + (x + [','] + (y + ['>'])) == "<" + x + "," + y + ">";
  }

  lemma MapWritten(entries: seq<Entry>)
    requires entries != [] ==> BindingsText(CanonEntries(entries)) == PrintEntries(entries) + "]"
    ensures Written(Canon(MapV(entries))) == Print(MapV(entries))
  {
    assert CanonEntries([]) == [] && PrintEntries([]) == "";
    hide CanonEntries, BindingsText, PrintEntries;
    var text := PrintEntries(entries);
    assert "" + ['['] + (text + "]") == "[" + text + "]";
  }

  lemma {:induction false} ItemsWritten(v: Value, items: seq<Value>)
    requires v == VectorV(items) || v == SetV(items)
    ensures Written(Canon(v)) == Print(v)
    decreases items, 1
  {
    hide Written, Print, Canon, PartsText, PrintItems, CanonParts;
    if items == [] || items == [StringV("")] {
      EmptyPrint(v, items);
    } else {
      PartsWritten(items);
      BracketsWritten(v, items);
    }
  }

  lemma EmptyPrint(v: Value, items: seq<Value>)
    requires v == VectorV(items) || v == SetV(items)
    requires items == [] || items == [StringV("")]
    ensures Print(v) == "[]" && Written(Canon(v)) == "[]"
  {
    assert items != [] ==> PrintItems(items) == "" + "";
    assert "[" + "" + "]" == "[]";
    assert "" + ['['] + "]" == "[]";
  }

  lemma BracketsWritten(v: Value, items: seq<Value>)
    requires (v == VectorV(items) || v == SetV(items)) && items != [] && items != [StringV("")]
    requires PartsText(CanonParts(items)) == PrintItems(items) + "]"
    ensures Written(Canon(v)) == Print(v)
  {
    hide PartsText, PrintItems, CanonParts;
    assert Written(Canon(v)) == "" + ['['] + PartsText(CanonParts(items));
  }

  /** A pair and a map as they print. */
  lemma PairPrintsAs(x: string)
    ensures Print(PairV(IntV(-3), VectorV([IntV(1), StringV(x)]))) == "<-3,[1," + x + "]>"
  {
    assert Digits(3) == "3" && Digits(1) == "1" && PrintInt(-3) == "-3";
    var items := [IntV(1), StringV(x)];
    assert PrintItems(items[1..]) == x + "";
    assert PrintItems(items) == "1" + ("," + x);
    assert Print(VectorV(items)) == "[" + ("1" + ("," + x)) + "]";
  }

  lemma MapPrintsAs(x: string, y: string)
    ensures Print(MapV([Entry(StringV(x), SetV([])), Entry(StringV(y), SetV([]))])) == "[" + x + "=[]," + y + "=[]]"
  {
    var e, e' := Entry(StringV(x), SetV([])), Entry(StringV(y), SetV([]));
    assert Print(SetV([])) == "[" + "" + "]" == "[]";
    assert [e, e'][1..] == [e'] && PrintEntries([e']) == PrintEntry(e') + "";
    assert PrintEntries([e, e']) == PrintEntry(e) + ("," + PrintEntry(e'));
  }

  // ---------------------------------------------------------------- it is in the grammar

  lemma {:induction false} CanonIsPairPart(ty: Type, v: Value, delim: char, less: Order)
    requires FreeLine(ty, v, delim) && Proper(less, v) && delim in {',', '>'}
    ensures PairPart(ty, Part(Canon(v), "", delim), delim)
    decreases ty, 2
  {
    if !ty.StringType? {
      CanonFits(less, ty, v);
      CanonWritten(v);
      FirstChar(ty, v);
    }
  }

  lemma {:induction false} CanonIsKeyPart(ty: Type, v: Value, less: Order)
    requires FreeLine(ty, v, '=') && Proper(less, v)
    ensures KeyPart(ty, Part(Canon(v), "", '='), '=')
    decreases ty, 2
  {
    if !ty.StringType? {
      CanonFits(less, ty, v);
    }
  }

  lemma {:induction false} CanonIsListPart(ty: Type, v: Value, end: char, less: Order)
    requires FreeItem(ty, v) && Proper(less, v) && end in {',', ']'}
    ensures ListPart(ty, Part(Canon(v), "", end))
    decreases ty, 2
  {
    if !ty.StringType? {
      CanonFits(less, ty, v);
    }
  }

  lemma {:induction false} CanonPartsFit(less: Order, ty: Type, items: seq<Value>)
    requires forall u :: u in items ==> FreeItem(ty, u) && Proper(less, u)
    ensures Parts(ty, CanonParts(items))
    decreases ty, 3, |items|
  {
    if items != [] {
      var tail := items[1..];
      CanonIsListPart(ty, items[0], End(tail == []), less);
      CanonPartsFit(less, ty, tail);
      hide ListPart, FreeItem, Proper, Canon, Parts, CanonParts;
      PartsStep(items);
      PartsCons(ty, Part(Canon(items[0]), "", End(tail == [])), CanonParts(tail));
    }
  }

  lemma {:induction false} CanonEntriesFit(less: Order, keyType: Type, valueType: Type, entries: seq<Entry>)
    requires forall e :: e in entries ==>
      FreeLine(keyType, e.key, '=') && FreeItem(valueType, e.value) && Proper(less, e.key) && Proper(less, e.value)
    ensures Entries(keyType, valueType, CanonEntries(entries))
    decreases MapType(keyType, valueType), 0, |entries|
  {
    if entries != [] {
      var e, tail := entries[0], entries[1..];
      CanonIsKeyPart(keyType, e.key, less);
      CanonIsListPart(valueType, e.value, End(tail == []), less);
      CanonEntriesFit(less, keyType, valueType, tail);
      hide KeyPart, ListPart, FreeLine, FreeItem, Proper, Canon, Entries, CanonEntries;
      EntriesStep(entries);
      EntriesCons(keyType, valueType, CanonEntry(e, tail == []), CanonEntries(tail));
    }
  }

  lemma {:induction false} CanonListFits(less: Order, ty: Type, elem: Type, v: Value, items: seq<Value>)
    requires CleanStrings(ty, v) && Proper(less, v)
    requires (ty == VectorType(elem) && v == VectorV(items)) || (ty == SetType(elem) && v == SetV(items))
    ensures Fits(ty, Canon(v))
    decreases ty, 0
  {
    if items != [] && items != [StringV("")] {
      CanonPartsFit(less, elem, items);
      PartsWritten(items);
      assert items[0] in items;
      ItemsNotEmptyText(elem, items, "");
      assert PrintItems(items) + "]" + "" == PrintItems(items) + "]";
    }
    hide PrintItems, PartsText, CanonParts, Parts;
  }

  lemma {:induction false} CanonMapFits(less: Order, ty: Type, v: Value)
    requires ty.MapType? && CleanStrings(ty, v) && Proper(less, v)
    ensures Fits(ty, Canon(v))
    decreases ty, 0
  {
    if v.entries != [] {
      MapEntriesFit(less, ty, v);
      EntriesWritten(v.entries);
      assert v.entries[0] in v.entries;
      EntriesNotEmptyText(ty.key, v.entries, "");
      assert PrintEntries(v.entries) + "]" + "" == PrintEntries(v.entries) + "]";
    }
    hide PrintEntries, BindingsText, CanonEntries, Entries;
  }

  lemma {:induction false} MapEntriesFit(less: Order, ty: Type, v: Value)
    requires ty.MapType? && CleanStrings(ty, v) && Proper(less, v) && v.entries != []
    ensures Entries(ty.key, ty.value, CanonEntries(v.entries))
    decreases MapType(ty.key, ty.value), 0, |v.entries| + 1
  {
    CanonEntriesFit(less, ty.key, ty.value, v.entries);
  }

  lemma {:induction false} CanonFits(less: Order, ty: Type, v: Value)
    requires CleanStrings(ty, v) && Proper(less, v)
    ensures Fits(ty, Canon(v))
    decreases ty, 1
  {
    match ty
    case IntType => DigitsMean(if v.n < 0 then 0 - v.n else v.n);
    case PairType(x, y) =>
      CanonIsPairPart(x, v.a, ',', less);
      CanonIsPairPart(y, v.b, '>', less);
    case VectorType(elem) => CanonListFits(less, ty, elem, v, v.items);
    case SetType(elem) => CanonListFits(less, ty, elem, v, v.items);
    case MapType(_, _) => CanonMapFits(less, ty, v);
  }

  // ---------------------------------------------------------------- and means what AsRead says

  lemma {:induction false} PlainSqueezed(s: string)
    requires PlainText(s)
    ensures Squeeze(s) == s
  {
    if s != "" {
      assert s[0] in s && s == [s[0]] + s[1..];
      PlainSqueezed(s[1..]);
    }
  }

  lemma {:induction false} CanonElement(less: Order, ty: Type, v: Value)
    requires FreeItem(ty, v)
    ensures Element(less, ty, Canon(v)) == AsRead(less, v)
    decreases ty, 2
  {
    if ty.StringType? {
      PlainSqueezed(v.s);
    } else {
      CanonMeans(less, ty, v);
    }
  }

  lemma {:induction false} CanonElements(less: Order, ty: Type, items: seq<Value>)
    requires forall u :: u in items ==> FreeItem(ty, u)
    ensures Elements(less, ty, CanonParts(items)) == AllAsRead(less, items)
    decreases ty, 3, |items|
  {
    if items != [] {
      CanonElement(less, ty, items[0]);
      CanonElements(less, ty, items[1..]);
      hide Element, AsRead, Canon, FreeItem;
      assert CanonParts(items)[1..] == CanonParts(items[1..]);
    }
  }

  lemma {:induction false} CanonLine(less: Order, ty: Type, v: Value, delim: char)
    requires FreeLine(ty, v, delim)
    ensures Meaning(less, ty, Canon(v)) == AsRead(less, v)
    decreases ty, 2
  {
    if !ty.StringType? {
      CanonMeans(less, ty, v);
    }
  }

  lemma {:induction false} CanonBindings(less: Order, keyType: Type, valueType: Type, entries: seq<Entry>)
    requires forall e :: e in entries ==> FreeLine(keyType, e.key, '=') && FreeItem(valueType, e.value)
    ensures Bindings(less, keyType, valueType, CanonEntries(entries)) == EntriesAsRead(less, entries)
    decreases MapType(keyType, valueType), 0, |entries|
  {
    if entries != [] {
      var e, tail := entries[0], entries[1..];
      CanonLine(less, keyType, e.key, '=');
      CanonElement(less, valueType, e.value);
      CanonBindings(less, keyType, valueType, tail);
      assert Binding(less, keyType, valueType, CanonEntry(e, tail == [])) == EntryAsRead(less, e);
      hide Binding, CanonEntry, EntryAsRead, FreeLine, FreeItem;
      assert CanonEntries(entries)[1..] == CanonEntries(tail);
    }
  }

  lemma {:induction false} CanonMeans(less: Order, ty: Type, v: Value)
    requires CleanStrings(ty, v)
    ensures Meaning(less, ty, Canon(v)) == AsRead(less, v)
    decreases ty, 1
  {
    match ty
    case IntType => DigitsMean(if v.n < 0 then 0 - v.n else v.n);
    case PairType(x, y) =>
      CanonLine(less, x, v.a, ',');
      CanonLine(less, y, v.b, '>');
    case VectorType(elem) => CanonElements(less, elem, v.items);
    case SetType(elem) => CanonElements(less, elem, v.items);
    case MapType(_, _) => CanonMapMeans(less, ty, v);
  }

  lemma {:induction false} CanonMapMeans(less: Order, ty: Type, v: Value)
    requires ty.MapType? && CleanStrings(ty, v)
    ensures Meaning(less, ty, Canon(v)) == AsRead(less, v)
    decreases MapType(ty.key, ty.value), 0, |v.entries| + 1
  {
    CanonBindings(less, ty.key, ty.value, v.entries);
  }

  /**
    From the print of any value with clean strings, followed by any text, the reader makes the value
    AsRead says and leaves that text.  A bare int must not be followed by a further digit.
   */
  lemma PrintReads(less: Order, ty: Type, v: Value, rest: string)
    requires CleanStrings(ty, v) && Proper(less, v)
    requires ty.IntType? ==> !(rest != "" && IsDigit(rest[0]))
    ensures ReadValue(less, ty, Print(v) + rest) == Got(AsRead(less, v), rest)
  {
    hide CleanStrings, Proper, ReadValue, Written, Print, Canon, Meaning, AsRead;
    CanonFits(less, ty, v);
    CanonWritten(v);
    CanonMeans(less, ty, v);
    FormReads(less, ty, Canon(v), rest);
  }

  /** The same for a printed part of a pair, and for a printed element. */
  lemma PartReads(less: Order, ty: Type, v: Value, delim: char, rest: string)
    requires FreeLine(ty, v, delim) && Proper(less, v) && delim in {',', '>'}
    ensures ReadPart(less, ty, Print(v) + [delim] + rest, delim) == Got(AsRead(less, v), rest)
  {
    var text := Print(v) + [delim] + rest;
    if ty.StringType? {
      if v.s == "" {
        assert text == [delim] + rest;
        CharFirst(delim, rest);
      } else {
        assert text[0] == v.s[0] && v.s[0] in v.s;
        LineReads(v.s, delim, rest);
      }
    } else {
      FirstChar(ty, v);
      assert text == Print(v) + ([delim] + rest);
      PrintReads(less, ty, v, [delim] + rest);
      CharFirst(delim, rest);
    }
  }

  lemma ItemReads(less: Order, ty: Type, v: Value, c: char, rest: string)
    requires FreeItem(ty, v) && Proper(less, v) && c in {',', ']'}
    ensures ReadMapped(less, ty, Print(v) + ([c] + rest)) == Got((AsRead(less, v), c == ']'), rest)
  {
    if ty.StringType? {
      assert Print(v) + ([c] + rest) == v.s + [c] + rest;
      ExtractReads(v.s, c, rest);
      PlainSqueezed(v.s);
    } else {
      PrintReads(less, ty, v, [c] + rest);
      CharFirst(c, rest);
    }
  }

  // ---------------------------------------------------------------- when that is the value itself

  lemma {:induction false} InsertLast(less: Order, items: seq<Value>, v: Value)
    requires forall i :: 0 <= i < |items| ==> less(items[i], v)
    ensures Insert(less, items, v) == items + [v]
  {
    if items != [] {
      InsertLast(less, items[1..], v);
    }
  }

  lemma {:induction false} AssignLast(less: Order, entries: seq<Entry>, e: Entry)
    requires forall i :: 0 <= i < |entries| ==> less(entries[i].key, e.key)
    ensures Assign(less, entries, e) == entries + [e]
  {
    if entries != [] {
      AssignLast(less, entries[1..], e);
    }
  }

  /** Filling a set in its own order rebuilds it. */
  lemma {:induction false} RefillSet(less: Order, items: seq<Value>, more: seq<Value>)
    requires Rising(less, items + more)
    ensures KeepAll(less, true, items, more) == items + more
    decreases |more|
  {
    if more != [] {
      forall i | 0 <= i < |items|
        ensures less(items[i], more[0])
      {
        assert (items + more)[i] == items[i] && (items + more)[|items|] == more[0];
      }
      InsertLast(less, items, more[0]);
      assert items + [more[0]] + more[1..] == items + more;
      RefillSet(less, items + [more[0]], more[1..]);
    }
  }

  lemma {:induction false} RefillMap(less: Order, entries: seq<Entry>, more: seq<Entry>)
    requires RisingKeys(less, entries + more)
    ensures AssignAll(less, entries, more) == entries + more
    decreases |more|
  {
    if more != [] {
      forall i | 0 <= i < |entries|
        ensures less(entries[i].key, more[0].key)
      {
        assert (entries + more)[i] == entries[i] && (entries + more)[|entries|] == more[0];
      }
      AssignLast(less, entries, more[0]);
      assert entries + [more[0]] + more[1..] == entries + more;
      RefillMap(less, entries + [more[0]], more[1..]);
    }
  }

  lemma {:induction false} AllUnchanged(less: Order, items: seq<Value>)
    requires forall u :: u in items ==> Proper(less, u) && NoLoneEmpty(u)
    ensures AllAsRead(less, items) == items
    decreases items
  {
    if items != [] {
      ReadUnchanged(less, items[0]);
      AllUnchanged(less, items[1..]);
    }
  }

  lemma {:induction false} EntryUnchanged(less: Order, e: Entry)
    requires Proper(less, e.key) && NoLoneEmpty(e.key) && Proper(less, e.value) && NoLoneEmpty(e.value)
    ensures EntryAsRead(less, e) == e
    decreases e
  {
    ReadUnchanged(less, e.key);
    ReadUnchanged(less, e.value);
  }

  lemma {:induction false} EntriesUnchanged(less: Order, entries: seq<Entry>)
    requires forall e :: e in entries ==>
      Proper(less, e.key) && NoLoneEmpty(e.key) && Proper(less, e.value) && NoLoneEmpty(e.value)
    ensures EntriesAsRead(less, entries) == entries
    decreases entries
  {
    if entries != [] {
      EntryUnchanged(less, entries[0]);
      EntriesUnchanged(less, entries[1..]);
    }
  }

  /** A proper value without a lone empty string is read as itself. */
  lemma {:induction false} ReadUnchanged(less: Order, v: Value)
    requires Proper(less, v) && NoLoneEmpty(v)
    ensures AsRead(less, v) == v
    decreases v
  {
    match v
    case PairV(a, b) =>
      ReadUnchanged(less, a);
      ReadUnchanged(less, b);
    case VectorV(items) => AllUnchanged(less, items);
    case SetV(items) =>
      AllUnchanged(less, items);
      assert [] + items == items;
      RefillSet(less, [], items);
    case MapV(entries) =>
      EntriesUnchanged(less, entries);
      assert [] + entries == entries;
      RefillMap(less, [], entries);
    case _ =>
  }

  /** Text round trip: the reader recovers every such value and leaves the text behind it. */
  lemma ValueReads(less: Order, ty: Type, v: Value, rest: string)
    requires CleanStrings(ty, v) && Proper(less, v) && NoLoneEmpty(v)
    requires ty.IntType? ==> !(rest != "" && IsDigit(rest[0]))
    ensures ReadValue(less, ty, Print(v) + rest) == Got(v, rest)
  {
    PrintReads(less, ty, v, rest);
    ReadUnchanged(less, v);
  }
}
