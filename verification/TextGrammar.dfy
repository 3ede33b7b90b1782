/**
  The texts operator>> of common/Operators.h reads, as a grammar: blanks before every number and
  bracket and behind every value, signs and leading zeros, empty pair parts, and any character where
  the source reads one without looking at it.
 */
module TextGrammar {
  import opened TextFormat

  /** How a value is written.  `EmptyF` is an empty part of a pair. */
  datatype Form =
    | NumberF(blanks: string, sign: string, digits: string)
    | TextF(text: string)
    | EmptyF
    | PairF(blanks: string, open: char, first: Part, second: Part)
    | ListF(blanks: string, open: char, parts: seq<Part>)
    | MapF(blanks: string, open: char, entries: seq<Item>)

  /** A value, the blanks behind it, and the character that ends it. */
  datatype Part = Part(form: Form, gap: string, end: char)

  datatype Item = Item(key: Part, value: Part)

  // ---------------------------------------------------------------- what is written

  function Written(f: Form): string
    decreases f
  {
    match f
    case NumberF(blanks, sign, digits) => blanks + sign + digits
    case TextF(text) => text
    case EmptyF => ""
    case PairF(blanks, open, p, q) => blanks + [open] + (PartText(p) + PartText(q))
    case ListF(blanks, open, parts) => blanks + [open] + (if parts == [] then "]" else PartsText(parts))
    case MapF(blanks, open, entries) => blanks + [open] + (if entries == [] then "]" else BindingsText(entries))
  }

  function PartText(p: Part): (text: string)
    ensures text != ""
    decreases p
  {
    Written(p.form) + p.gap + [p.end]
  }

  function PartsText(parts: seq<Part>): string
    decreases parts
  {
    if parts == [] then "" else PartText(parts[0]) + PartsText(parts[1..])
  }

  function BindingText(e: Item): (text: string)
    ensures text != ""
    decreases e
  {
    PartText(e.key) + PartText(e.value)
  }

  function BindingsText(entries: seq<Item>): string
    decreases entries
  {
    if entries == [] then "" else BindingText(entries[0]) + BindingsText(entries[1..])
  }

  // ---------------------------------------------------------------- what it means

  /** The number a string of digits stands for, read behind the number `n`. */
  function Number(digits: string, n: int): int {
    if digits == "" then n else Number(digits[1..], 10 * n + (digits[0] as int - '0' as int))
  }

  /** A string without its blanks. */
  function Squeeze(text: string): string {
    if text == "" then "" else (if IsSpace(text[0]) then "" else [text[0]]) + Squeeze(text[1..])
  }

  function KeepAll(less: Order, isSet: bool, items: seq<Value>, more: seq<Value>): seq<Value>
    decreases |more|
  {
    if more == [] then items else KeepAll(less, isSet, Keep(less, isSet, items, more[0]), more[1..])
  }

  function AssignAll(less: Order, entries: seq<Entry>, more: seq<Entry>): seq<Entry>
    decreases |more|
  {
    if more == [] then entries else AssignAll(less, Assign(less, entries, more[0]), more[1..])
  }

  function Meaning(less: Order, ty: Type, f: Form): Value
    decreases f, 0
  {
    match f
    case NumberF(_, sign, digits) => IntV(if sign == "-" then 0 - Number(digits, 0) else Number(digits, 0))
    case TextF(text) => StringV(text)
    case EmptyF => Default(ty)
    case PairF(_, _, p, q) =>
      if ty.PairType? then PairV(Meaning(less, ty.first, p.form), Meaning(less, ty.second, q.form)) else Default(ty)
    case ListF(_, _, parts) =>
      if ty.VectorType? then VectorV(Elements(less, ty.elem, parts))
      else if ty.SetType? then SetV(KeepAll(less, true, [], Elements(less, ty.elem, parts)))
      else Default(ty)
    case MapF(_, _, entries) =>
      if ty.MapType? then MapV(AssignAll(less, [], Bindings(less, ty.key, ty.value, entries))) else Default(ty)
  }

  /** In a vector or set and as a map's value, a string is read without its blanks. */
  function Element(less: Order, ty: Type, f: Form): Value
    decreases f, 1
  {
    if f.TextF? then StringV(Squeeze(f.text)) else Meaning(less, ty, f)
  }

  function Elements(less: Order, ty: Type, parts: seq<Part>): (values: seq<Value>)
    ensures |values| == |parts|
    decreases parts
  {
    if parts == [] then [] else [Element(less, ty, parts[0].form)] + Elements(less, ty, parts[1..])
  }

  function Binding(less: Order, keyType: Type, valueType: Type, e: Item): Entry
    decreases e
  {
    Entry(Meaning(less, keyType, e.key.form), Element(less, valueType, e.value.form))
  }

  function Bindings(less: Order, keyType: Type, valueType: Type, entries: seq<Item>): (values: seq<Entry>)
    ensures |values| == |entries|
    decreases entries
  {
    if entries == [] then []
    else [Binding(less, keyType, valueType, entries[0])] + Bindings(less, keyType, valueType, entries[1..])
  }

  // ---------------------------------------------------------------- the grammar

  predicate Blank(s: string) {
    forall c :: c in s ==> IsSpace(c)
  }

  predicate AllDigits(s: string) {
    forall c :: c in s ==> IsDigit(c)
  }

  /** A number is not followed by a further digit. */
  predicate Follows(ty: Type, rest: string) {
    ty.IntType? ==> !(rest != "" && IsDigit(rest[0]))
  }

  /** A value that is no string, the blanks behind it, and any character. */
  ghost predicate ValuePart(ty: Type, p: Part)
    decreases ty, 2
  {
    Fits(ty, p.form) && Blank(p.gap) && !IsSpace(p.end) && Follows(ty, p.gap + [p.end])
  }

  /** A part of a pair: empty, or not beginning with its delimiter. */
  ghost predicate PairPart(ty: Type, p: Part, delim: char)
    decreases ty, 4
  {
    if p.form.EmptyF? then p.gap == "" && p.end == delim
    else KeyPart(ty, p, delim) && !Peeks(Written(p.form), delim)
  }

  /** A string up to the delimiter, or a value. */
  ghost predicate KeyPart(ty: Type, p: Part, delim: char)
    decreases ty, 3
  {
    if ty.StringType? then p.form.TextF? && delim !in p.form.text && p.gap == "" && p.end == delim else ValuePart(ty, p)
  }

  /** A string free of both delimiters, or a value. */
  ghost predicate ListPart(ty: Type, p: Part)
    decreases ty, 3
  {
    if ty.StringType? then
      p.form.TextF? && ',' !in p.form.text && ']' !in p.form.text && p.gap == "" && p.end in {',', ']'}
    else ValuePart(ty, p)
  }

  /** Of the type, an int, pair or container.  Only the last part of a container ends in ']'. */
  ghost predicate Fits(ty: Type, f: Form)
    decreases ty, 1
  {
    match ty
    case IntType =>
      f.NumberF? && Blank(f.blanks) && f.sign in {"", "+", "-"} && f.digits != "" && AllDigits(f.digits)
    case StringType => false
    case PairType(x, y) =>
      f.PairF? && Blank(f.blanks) && !IsSpace(f.open) && PairPart(x, f.first, ',') && PairPart(y, f.second, '>')
    case VectorType(elem) => f.ListF? && Blank(f.blanks) && !IsSpace(f.open) && !Peeks(PartsText(f.parts), ']') && Parts(elem, f.parts)
    case SetType(elem) => f.ListF? && Blank(f.blanks) && !IsSpace(f.open) && !Peeks(PartsText(f.parts), ']') && Parts(elem, f.parts)
    case MapType(key, value) =>
      && f.MapF? && Blank(f.blanks) && !IsSpace(f.open)
      && !Peeks(BindingsText(f.entries), ']') && Entries(key, value, f.entries)
  }

  /** The parts of a vector or set, the last of which and no other ends in ']'. */
  ghost predicate Parts(elem: Type, parts: seq<Part>)
    decreases elem, 4
  {
    forall i :: 0 <= i < |parts| ==> ListPart(elem, parts[i]) && (parts[i].end == ']' <==> i == |parts| - 1)
  }

  /** The same for the values of a map's entries. */
  ghost predicate Entries(key: Type, value: Type, entries: seq<Item>)
    decreases MapType(key, value), 0, 0
  {
    forall i :: 0 <= i < |entries| ==>
      && KeyPart(key, entries[i].key, '=') && ListPart(value, entries[i].value)
      && (entries[i].value.end == ']' <==> i == |entries| - 1)
  }

  lemma PartsCons(elem: Type, p: Part, more: seq<Part>)
    requires ListPart(elem, p) && Parts(elem, more) && (p.end == ']' <==> more == [])
    ensures Parts(elem, [p] + more)
  {
    hide ListPart;
    var all := [p] + more;
    forall i | 0 <= i < |all|
      ensures ListPart(elem, all[i]) && (all[i].end == ']' <==> i == |all| - 1)
    {
      assert i > 0 ==> all[i] == more[i - 1];
    }
  }

  lemma EntriesCons(keyType: Type, valueType: Type, e: Item, more: seq<Item>)
    requires KeyPart(keyType, e.key, '=') && ListPart(valueType, e.value) && Entries(keyType, valueType, more)
    requires e.value.end == ']' <==> more == []
    ensures Entries(keyType, valueType, [e] + more)
  {
    hide KeyPart, ListPart;
    var all := [e] + more;
    forall i | 0 <= i < |all|
      ensures KeyPart(keyType, all[i].key, '=') && ListPart(valueType, all[i].value)
      ensures all[i].value.end == ']' <==> i == |all| - 1
    {
      assert i > 0 ==> all[i] == more[i - 1];
    }
  }

  // ---------------------------------------------------------------- characters

  lemma {:induction false} SkipsBlanks(blanks: string, text: string)
    requires Blank(blanks)
    ensures SkipSpace(blanks + text) == SkipSpace(text)
  {
    if blanks == "" {
      assert blanks + text == text;
    } else {
      assert blanks[0] in blanks && (blanks + text)[1..] == blanks[1..] + text;
      SkipsBlanks(blanks[1..], text);
    }
  }

  lemma CharReads(blanks: string, c: char, rest: string)
    requires Blank(blanks) && !IsSpace(c)
    ensures ReadChar(blanks + [c] + rest) == Got(c, rest)
  {
    SkipsBlanks(blanks, [c] + rest);
    assert blanks + [c] + rest == blanks + ([c] + rest);
  }

  lemma {:induction false} LineReads(s: string, delim: char, rest: string)
    requires delim !in s
    ensures ReadLine(s + [delim] + rest, delim) == Got(s, rest)
  {
    var text := s + [delim] + rest;
    if s == "" {
      assert text[1..] == rest;
    } else {
      assert text[1..] == s[1..] + [delim] + rest;
      assert s[0] in s && s == [s[0]] + s[1..];
      LineReads(s[1..], delim, rest);
    }
  }

  lemma SameExtract(a: string, b: string)
    requires SkipSpace(a) == SkipSpace(b)
    ensures ExtractString(a) == ExtractString(b)
  {
    assert ReadChar(a) == ReadChar(b);
  }

  lemma {:induction false} ExtractReads(s: string, c: char, rest: string)
    requires ',' !in s && ']' !in s && c in {',', ']'}
    ensures ExtractString(s + [c] + rest) == Got((Squeeze(s), c == ']'), rest)
  {
    var text := s + [c] + rest;
    if s == "" {
      assert text == "" + [c] + rest;
      CharReads("", c, rest);
    } else {
      var more := s[1..] + [c] + rest;
      assert s[0] in s && text == [s[0]] + more;
      ExtractReads(s[1..], c, rest);
      if IsSpace(s[0]) {
        SkipsBlanks([s[0]], more);
        SameExtract(text, more);
        assert Squeeze(s) == Squeeze(s[1..]);
      } else {
        CharReads("", s[0], more);
        assert text == "" + [s[0]] + more;
      }
    }
  }

  // ---------------------------------------------------------------- numbers

  lemma {:induction false} DigitsRead(s: string, rest: string, n: nat)
    requires AllDigits(s) && !(rest != "" && IsDigit(rest[0]))
    ensures ReadDigits(s + rest, n) == (Number(s, n), rest)
  {
    if s == "" {
      assert s + rest == rest;
    } else {
      assert (s + rest)[1..] == s[1..] + rest;
      DigitsRead(s[1..], rest, 10 * n + DigitValue(s[0]));
    }
  }

  lemma NumberReads(blanks: string, sign: string, digits: string, rest: string)
    requires Blank(blanks) && sign in {"", "+", "-"} && digits != "" && AllDigits(digits) && Follows(IntType, rest)
    ensures ReadInt(blanks + sign + digits + rest) ==
            Got(if sign == "-" then 0 - Number(digits, 0) else Number(digits, 0), rest)
  {
    var u := digits + rest;
    var t := sign + u;
    assert digits[0] in digits && u[0] == digits[0];
    SkipsBlanks(blanks, t);
    assert blanks + sign + digits + rest == blanks + t;
    assert SkipSpace(t) == t;
    assert (if sign == "" then t else t[1..]) == u;
    DigitsRead(digits, rest, 0);
    assert ReadDigits(u, 0) == ReadDigits(u[1..], DigitValue(u[0]));
  }

  // ---------------------------------------------------------------- parts

  lemma PartSplits(p: Part, rest: string)
    ensures PartText(p) + rest == Written(p.form) + (p.gap + [p.end] + rest)
    ensures p.gap == "" ==> PartText(p) + rest == Written(p.form) + [p.end] + rest
  {}

  lemma {:induction false} ValuePartReads(less: Order, ty: Type, p: Part, rest: string)
    requires ValuePart(ty, p)
    ensures ReadValue(less, ty, PartText(p) + rest) == Got(Meaning(less, ty, p.form), p.gap + [p.end] + rest)
    ensures ReadChar(p.gap + [p.end] + rest) == Got(p.end, rest)
    decreases ty, 2
  {
    PartSplits(p, rest);
    assert p.gap != "" ==> (p.gap + [p.end] + rest)[0] == (p.gap + [p.end])[0];
    FormReads(less, ty, p.form, p.gap + [p.end] + rest);
    CharReads(p.gap, p.end, rest);
  }

  lemma {:induction false} PairPartReads(less: Order, ty: Type, p: Part, delim: char, rest: string)
    requires PairPart(ty, p, delim) && delim in {',', '>'}
    ensures ReadPart(less, ty, PartText(p) + rest, delim) == Got(Meaning(less, ty, p.form), rest)
    decreases ty, 3
  {
    var text := PartText(p) + rest;
    PartSplits(p, rest);
    if p.form.EmptyF? {
      assert text == "" + [delim] + rest;
      CharReads("", delim, rest);
    } else if ty.StringType? {
      LineReads(p.form.text, delim, rest);
      if p.form.text == "" {
        assert text == "" + [delim] + rest;
        CharReads("", delim, rest);
      } else {
        assert text[0] == p.form.text[0];
      }
    } else {
      assert KeyPart(ty, p, delim) && ValuePart(ty, p);
      NotText(ty, p.form);
      assert text[0] == Written(p.form)[0];
      ValuePartReads(less, ty, p, rest);
    }
  }

  lemma {:induction false} KeyReads(less: Order, ty: Type, p: Part, rest: string)
    requires KeyPart(ty, p, '=')
    ensures ReadKey(less, ty, PartText(p) + rest) == Got(Meaning(less, ty, p.form), rest)
    decreases ty, 3
  {
    PartSplits(p, rest);
    if ty.StringType? {
      LineReads(p.form.text, '=', rest);
    } else {
      ValuePartReads(less, ty, p, rest);
    }
  }

  /** An element of a list, or a map's value. */
  lemma {:induction false} ElementReads(less: Order, ty: Type, p: Part, rest: string)
    requires ListPart(ty, p)
    ensures ReadMapped(less, ty, PartText(p) + rest) == Got((Element(less, ty, p.form), p.end == ']'), rest)
    decreases ty, 3
  {
    PartSplits(p, rest);
    if ty.StringType? {
      ExtractReads(p.form.text, p.end, rest);
    } else {
      ValuePartReads(less, ty, p, rest);
      NotText(ty, p.form);
    }
  }

  lemma NotText(ty: Type, f: Form)
    requires Fits(ty, f)
    ensures !f.TextF? && !f.EmptyF? && Written(f) != ""
  {}

  // ---------------------------------------------------------------- containers

  /** The element loop reads an element as the map loop reads a value. */
  lemma ReadItemsStep(less: Order, ty: Type, text: string, isSet: bool, items: seq<Value>)
    ensures var r := ReadMapped(less, ty, text);
      ReadItems(less, ty, text, isSet, items) ==
        if r.Bad? then Bad
        else if r.value.1 then Got(Keep(less, isSet, items, r.value.0), r.rest)
        else ReadItems(less, ty, r.rest, isSet, Keep(less, isSet, items, r.value.0))
  {}

  lemma {:induction false} PartStep(less: Order, ty: Type, p: Part, isSet: bool, done: seq<Value>, rest: string)
    requires ListPart(ty, p)
    ensures var done' := Keep(less, isSet, done, Element(less, ty, p.form));
      ReadItems(less, ty, PartText(p) + rest, isSet, done) ==
        if p.end == ']' then Got(done', rest) else ReadItems(less, ty, rest, isSet, done')
    decreases ty, 4
  {
    ElementReads(less, ty, p, rest);
    hide ListPart, Element, Keep, ReadMapped;
    ReadItemsStep(less, ty, PartText(p) + rest, isSet, done);
  }

  lemma PartsBehind(less: Order, ty: Type, parts: seq<Part>, rest: string)
    requires parts != []
    ensures PartsText(parts) + rest == PartText(parts[0]) + (PartsText(parts[1..]) + rest)
    ensures |parts| == 1 ==> PartsText(parts[1..]) + rest == rest
    ensures var values := Elements(less, ty, parts);
      values[0] == Element(less, ty, parts[0].form) && values[1..] == Elements(less, ty, parts[1..])
  {}

  lemma PartsTail(ty: Type, parts: seq<Part>)
    requires parts != [] && Parts(ty, parts)
    ensures ListPart(ty, parts[0]) && (parts[0].end == ']' <==> |parts| == 1) && Parts(ty, parts[1..])
  {
    hide ListPart;
  }

  lemma {:induction false} PartsRead(less: Order, ty: Type, parts: seq<Part>, isSet: bool, done: seq<Value>, rest: string)
    requires parts != [] && Parts(ty, parts)
    ensures ReadItems(less, ty, PartsText(parts) + rest, isSet, done) ==
            Got(KeepAll(less, isSet, done, Elements(less, ty, parts)), rest)
    decreases ty, 5, |parts|
  {
    var p, tail := parts[0], parts[1..];
    var done' := Keep(less, isSet, done, Element(less, ty, p.form));
    hide Parts, ListPart, ReadItems, PartText, PartsText, Element, Elements, Keep;
    PartsTail(ty, parts);
    PartStep(less, ty, p, isSet, done, PartsText(tail) + rest);
    PartsBehind(less, ty, parts, rest);
    if tail != [] {
      PartsRead(less, ty, tail, isSet, done', rest);
    } else {
      assert KeepAll(less, isSet, done', []) == done';
    }
  }

  lemma {:induction false} VectorItems(less: Order, items: seq<Value>, more: seq<Value>)
    ensures KeepAll(less, false, items, more) == items + more
    decreases |more|
  {
    if more != [] {
      VectorItems(less, items + [more[0]], more[1..]);
      assert items + [more[0]] + more[1..] == items + more;
    }
  }

  /** One round of the map loop, over its key and value. */
  lemma {:induction false} EntryReads(less: Order, keyType: Type, valueType: Type, e: Item, rest: string, done: seq<Entry>)
    requires KeyPart(keyType, e.key, '=') && ListPart(valueType, e.value)
    ensures var done' := Assign(less, done, Binding(less, keyType, valueType, e));
      ReadEntries(less, keyType, valueType, BindingText(e) + rest, done) ==
        if e.value.end == ']' then Got(done', rest) else ReadEntries(less, keyType, valueType, rest, done')
    decreases MapType(keyType, valueType), 0, 0
  {
    var tail := PartText(e.value) + rest;
    assert BindingText(e) + rest == PartText(e.key) + tail;
    hide KeyPart, ListPart, ReadKey, ReadMapped, PartText, Assign, Element, Meaning;
    KeyReads(less, keyType, e.key, tail);
    ElementReads(less, valueType, e.value, rest);
  }

  lemma EntriesBehind(less: Order, keyType: Type, valueType: Type, entries: seq<Item>, rest: string)
    requires entries != []
    ensures BindingsText(entries) + rest == BindingText(entries[0]) + (BindingsText(entries[1..]) + rest)
    ensures |entries| == 1 ==> BindingsText(entries[1..]) + rest == rest
    ensures var values := Bindings(less, keyType, valueType, entries);
      values[0] == Binding(less, keyType, valueType, entries[0]) &&
      values[1..] == Bindings(less, keyType, valueType, entries[1..])
  {}

  lemma EntriesTail(keyType: Type, valueType: Type, entries: seq<Item>)
    requires entries != [] && Entries(keyType, valueType, entries)
    ensures KeyPart(keyType, entries[0].key, '=') && ListPart(valueType, entries[0].value)
    ensures (entries[0].value.end == ']' <==> |entries| == 1) && Entries(keyType, valueType, entries[1..])
  {
    hide KeyPart, ListPart;
  }

  lemma {:induction false} EntriesRead(less: Order, keyType: Type, valueType: Type, entries: seq<Item>, done: seq<Entry>, rest: string)
    requires entries != [] && Entries(keyType, valueType, entries)
    ensures ReadEntries(less, keyType, valueType, BindingsText(entries) + rest, done) ==
            Got(AssignAll(less, done, Bindings(less, keyType, valueType, entries)), rest)
    decreases MapType(keyType, valueType), 0, |entries|
  {
    var e, tail := entries[0], entries[1..];
    var done' := Assign(less, done, Binding(less, keyType, valueType, e));
    hide Entries, KeyPart, ListPart, ReadEntries, BindingText, BindingsText, Binding, Bindings, Assign;
    EntriesTail(keyType, valueType, entries);
    EntryReads(less, keyType, valueType, e, BindingsText(tail) + rest, done);
    EntriesBehind(less, keyType, valueType, entries, rest);
    if tail != [] {
      EntriesRead(less, keyType, valueType, tail, done', rest);
    } else {
      assert AssignAll(less, done', []) == done';
    }
  }

  // ---------------------------------------------------------------- whole values

  lemma Opened(blanks: string, open: char, body: string, rest: string)
    requires Blank(blanks) && !IsSpace(open)
    ensures ReadChar(blanks + [open] + body + rest) == Got(open, body + rest)
  {
    CharReads(blanks, open, body + rest);
    assert blanks + [open] + body + rest == blanks + [open] + (body + rest);
  }

  lemma {:induction false} PairReads(less: Order, ty: Type, f: Form, rest: string)
    requires ty.PairType? && Fits(ty, f)
    ensures ReadValue(less, ty, Written(f) + rest) == Got(Meaning(less, ty, f), rest)
    decreases ty, 0
  {
    var tail := PartText(f.second) + rest;
    var body := PartText(f.first) + PartText(f.second);
    Opened(f.blanks, f.open, body, rest);
    assert body + rest == PartText(f.first) + tail;
    PairPartReads(less, ty.first, f.first, ',', tail);
    PairPartReads(less, ty.second, f.second, '>', rest);
    hide PartText, ReadPart, ReadChar, PairPart;
  }

  lemma {:induction false} ListReads(less: Order, ty: Type, elem: Type, f: Form, rest: string)
    requires (ty == VectorType(elem) || ty == SetType(elem)) && Fits(ty, f)
    ensures ReadValue(less, ty, Written(f) + rest) == Got(Meaning(less, ty, f), rest)
    decreases ty, 0
  {
    var body := if f.parts == [] then "]" else PartsText(f.parts);
    Opened(f.blanks, f.open, body, rest);
    assert Written(f) == f.blanks + [f.open] + body;
    if f.parts == [] {
      CharReads("", ']', rest);
      assert "]" + rest == "" + [']'] + rest;
    } else {
      PartsNonempty(f.parts, rest);
      PartsRead(less, elem, f.parts, ty.SetType?, [], rest);
      VectorItems(less, [], Elements(less, elem, f.parts));
      assert [] + Elements(less, elem, f.parts) == Elements(less, elem, f.parts);
    }
    hide PartsText, ReadItems, ReadChar, Parts, Written, Elements, KeepAll;
  }

  lemma PartsNonempty(parts: seq<Part>, rest: string)
    requires parts != []
    ensures PartsText(parts) != "" && (Peeks(PartsText(parts) + rest, ']') <==> Peeks(PartsText(parts), ']'))
  {}

  lemma {:induction false} MapReads(less: Order, ty: Type, f: Form, rest: string)
    requires ty.MapType? && Fits(ty, f)
    ensures ReadValue(less, ty, Written(f) + rest) == Got(Meaning(less, ty, f), rest)
    decreases ty, 0
  {
    var body := if f.entries == [] then "]" else BindingsText(f.entries);
    Opened(f.blanks, f.open, body, rest);
    assert Written(f) == f.blanks + [f.open] + body;
    if f.entries == [] {
      CharReads("", ']', rest);
      assert "]" + rest == "" + [']'] + rest;
    } else {
      EntriesNonempty(f.entries, rest);
      MapEntriesRead(less, ty, f, rest);
    }
    hide BindingsText, ReadEntries, ReadChar, Entries, Written, Bindings, AssignAll;
  }

  lemma EntriesNonempty(entries: seq<Item>, rest: string)
    requires entries != []
    ensures BindingsText(entries) != "" && (Peeks(BindingsText(entries) + rest, ']') <==> Peeks(BindingsText(entries), ']'))
  {}

  lemma {:induction false} MapEntriesRead(less: Order, ty: Type, f: Form, rest: string)
    requires ty.MapType? && Fits(ty, f) && f.entries != []
    ensures ReadEntries(less, ty.key, ty.value, BindingsText(f.entries) + rest, []) ==
            Got(AssignAll(less, [], Bindings(less, ty.key, ty.value, f.entries)), rest)
    decreases MapType(ty.key, ty.value), 0, |f.entries| + 1
  {
    EntriesRead(less, ty.key, ty.value, f.entries, [], rest);
  }

  /**
    The reader makes of every text of the grammar, with any text behind it, what it means.  An int
    must not be followed by a further digit.
   */
  lemma {:induction false} FormReads(less: Order, ty: Type, f: Form, rest: string)
    requires Fits(ty, f) && Follows(ty, rest)
    ensures ReadValue(less, ty, Written(f) + rest) == Got(Meaning(less, ty, f), rest)
    decreases ty, 1
  {
    match ty
    case IntType => NumberReads(f.blanks, f.sign, f.digits, rest);
    case PairType(_, _) => PairReads(less, ty, f, rest);
    case VectorType(elem) => ListReads(less, ty, elem, f, rest);
    case SetType(elem) => ListReads(less, ty, elem, f, rest);
    case MapType(_, _) => MapReads(less, ty, f, rest);
  }
}
