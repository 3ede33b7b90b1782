/** The reader of common/Operators.h accepts the texts of its grammar and no others. */
module TextParse {
  import opened TextFormat
  import opened TextGrammar

  // ---------------------------------------------------------------- characters

  lemma {:induction false} BlanksOf(text: string) returns (blanks: string)
    ensures Blank(blanks) && text == blanks + SkipSpace(text)
  {
    blanks := "";
    if text != "" && IsSpace(text[0]) {
      var more := BlanksOf(text[1..]);
      blanks := [text[0]] + more;
      assert text == [text[0]] + text[1..];
    }
  }

  lemma CharOf(text: string) returns (blanks: string)
    requires ReadChar(text).Got?
    ensures Blank(blanks) && text == blanks + [ReadChar(text).value] + ReadChar(text).rest
  {
    hide Blank, SkipSpace, IsSpace;
    blanks := BlanksOf(text);
    var t := SkipSpace(text);
    assert t == [t[0]] + t[1..];
    assert blanks + t == blanks + [t[0]] + t[1..];
  }

  lemma {:induction false} LineOf(text: string, delim: char)
    requires ReadLine(text, delim).Got?
    ensures var r := ReadLine(text, delim);
      && delim !in r.value
      && (text == r.value + [delim] + r.rest || (r.rest == "" && text == r.value != ""))
  {
    if text[0] != delim && |text| > 1 {
      LineOf(text[1..], delim);
      assert text == [text[0]] + text[1..];
    } else {
      assert text == [text[0]] + text[1..];
    }
  }

  lemma {:induction false} LineEnds(s: string, delim: char)
    requires s != "" && delim !in s
    ensures ReadLine(s, delim) == Got(s, "")
  {
    assert s[0] in s && s == [s[0]] + s[1..];
    if |s| > 1 {
      LineEnds(s[1..], delim);
    }
  }

  lemma {:induction false} BlanksSqueezed(blanks: string, s: string)
    requires Blank(blanks)
    ensures Squeeze(blanks + s) == Squeeze(s)
  {
    if blanks == "" {
      assert blanks + s == s;
    } else {
      assert blanks[0] in blanks && (blanks + s)[1..] == blanks[1..] + s;
      BlanksSqueezed(blanks[1..], s);
      assert Squeeze(blanks + s) == Squeeze(blanks[1..] + s);
    }
  }

  lemma {:induction false} ExtractOf(text: string) returns (s: string, c: char)
    requires ExtractString(text).Got?
    ensures ',' !in s && ']' !in s && c in {',', ']'}
    ensures text == s + [c] + ExtractString(text).rest
    ensures ExtractString(text).value == (Squeeze(s), c == ']')
    decreases |text|
  {
    var blanks := CharOf(text);
    var r := ReadChar(text);
    if r.value == ',' || r.value == ']' {
      s, c := blanks, r.value;
      BlanksSqueezed(blanks, "");
      assert blanks + "" == blanks;
    } else {
      var more, end := ExtractOf(r.rest);
      s, c := blanks + ([r.value] + more), end;
      BlanksSqueezed(blanks, [r.value] + more);
      assert ([r.value] + more)[1..] == more;
      assert text == blanks + [r.value] + r.rest;
    }
  }

  // ---------------------------------------------------------------- numbers

  lemma DigitAhead(c: char, more: string, n: int)
    requires IsDigit(c) && AllDigits(more)
    ensures AllDigits([c] + more) && Number([c] + more, n) == Number(more, 10 * n + (c as int - '0' as int))
  {
    assert ([c] + more)[1..] == more;
  }

  lemma {:induction false} DigitsOf(text: string, n: nat) returns (digits: string)
    ensures AllDigits(digits) && text == digits + ReadDigits(text, n).1
    ensures Number(digits, n) == ReadDigits(text, n).0 && Follows(IntType, ReadDigits(text, n).1)
    decreases |text|
  {
    digits := "";
    if text != "" && IsDigit(text[0]) {
      var c, tail := text[0], text[1..];
      var more := DigitsOf(tail, 10 * n + DigitValue(c));
      digits := [c] + more;
      DigitAhead(c, more, n);
      hide Number, AllDigits;
      assert text == [c] + tail;
    }
  }

  lemma DigitsFrom(u: string) returns (digits: string)
    requires u != "" && IsDigit(u[0])
    ensures var (n, rest) := ReadDigits(u[1..], DigitValue(u[0]));
      digits != "" && AllDigits(digits) && u == digits + rest && Number(digits, 0) == n && Follows(IntType, rest)
  {
    var more := DigitsOf(u[1..], DigitValue(u[0]));
    digits := [u[0]] + more;
    DigitAhead(u[0], more, 0);
    hide Number, AllDigits, ReadDigits;
    assert u == [u[0]] + u[1..];
  }

  /** What ReadInt does once the blanks are skipped. */
  lemma SignRead(t: string, sign: string, u: string)
    requires SkipSpace(t) == t && ReadInt(t).Got? && t == sign + u
    requires sign == if t[0] == '-' || t[0] == '+' then [t[0]] else ""
    ensures u != "" && IsDigit(u[0])
    ensures var (n, rest) := ReadDigits(u[1..], DigitValue(u[0])); ReadInt(t) == Got(if sign == "-" then 0 - n else n, rest)
  {
    hide SkipSpace, ReadDigits, DigitValue;
    assert u == if sign == "" then t else t[1..];
  }

  lemma SignAndDigits(t: string) returns (sign: string, digits: string)
    requires SkipSpace(t) == t && ReadInt(t).Got?
    ensures sign in {"", "+", "-"} && digits != "" && AllDigits(digits) && t == sign + digits + ReadInt(t).rest
    ensures ReadInt(t).value == (if sign == "-" then 0 - Number(digits, 0) else Number(digits, 0))
    ensures Follows(IntType, ReadInt(t).rest)
  {
    hide SkipSpace, ReadDigits, Number, AllDigits, DigitValue, Follows;
    assert t != "";
    hide ReadInt;
    sign := if t[0] == '-' || t[0] == '+' then [t[0]] else "";
    var u := if sign == "" then t else t[1..];
    assert t == sign + u;
    SignRead(t, sign, u);
    digits := DigitsFrom(u);
  }

  lemma SameNumber(a: string, b: string)
    requires SkipSpace(a) == SkipSpace(b)
    ensures ReadInt(a) == ReadInt(b)
  {
    hide SkipSpace, ReadDigits;
  }

  lemma NumberSpells(less: Order, f: Form, text: string, rest: string)
    requires f.NumberF? && Blank(f.blanks) && f.sign in {"", "+", "-"} && f.digits != "" && AllDigits(f.digits)
    requires text == f.blanks + (f.sign + f.digits + rest) && Follows(IntType, rest)
    ensures Spells(less, IntType, f, IntV(if f.sign == "-" then 0 - Number(f.digits, 0) else Number(f.digits, 0)), text, rest)
  {
    hide Number, AllDigits, Blank;
    assert Written(f) + rest == text;
  }

  lemma NumberOf(less: Order, text: string) returns (f: Form)
    requires ReadInt(text).Got?
    ensures Spells(less, IntType, f, IntV(ReadInt(text).value), text, ReadInt(text).rest)
  {
    hide ReadInt, Number, AllDigits, Blank, Spells, Follows;
    var blanks := BlanksOf(text);
    var t := SkipSpace(text);
    SkipsBlanks(blanks, t);
    SameNumber(text, t);
    var sign, digits := SignAndDigits(t);
    f := NumberF(blanks, sign, digits);
    NumberSpells(less, f, text, ReadInt(t).rest);
  }

  // ---------------------------------------------------------------- whole values

  /** A pair whose second part is a string may lack its '>' where the text ends. */
  ghost predicate CutShort(ty: Type, f: Form, text: string, rest: string) {
    && ty.PairType? && ty.second.StringType? && f.PairF? && f.second.form.TextF? && f.second.form.text != ""
    && rest == "" && Written(f) == text + ">"
  }

  /** The text is a value of the type written in the grammar, with `rest` behind it. */
  ghost predicate Spells(less: Order, ty: Type, f: Form, v: Value, text: string, rest: string) {
    && Fits(ty, f) && Meaning(less, ty, f) == v && Follows(ty, rest)
    && (Written(f) + rest == text || CutShort(ty, f, text, rest))
  }

  /** A value that is no string, and the character read behind it. */
  lemma {:induction false} ValuePartOf(less: Order, ty: Type, text: string) returns (p: Part)
    requires !ty.StringType? && ReadValue(less, ty, text).Got? && ReadChar(ReadValue(less, ty, text).rest).Got?
    ensures ValuePart(ty, p) && Meaning(less, ty, p.form) == ReadValue(less, ty, text).value
    ensures var c := ReadChar(ReadValue(less, ty, text).rest); p.end == c.value && PartText(p) + c.rest == text
    ensures Peeks(Written(p.form), text[0])
    decreases ty, 2, 0
  {
    var r := ReadValue(less, ty, text);
    var f := FormOf(less, ty, text);
    var gap := CharOf(r.rest);
    var c := ReadChar(r.rest);
    p := Part(f, gap, c.value);
    assert r.rest == gap + [c.value] + c.rest;
    assert gap + [c.value] <= r.rest;
    NotText(ty, f);
    PartSplits(p, c.rest);
  }

  lemma {:induction false} PairPartOf(less: Order, ty: Type, text: string, delim: char) returns (p: Part)
    requires ReadPart(less, ty, text, delim).Got? && delim in {',', '>'}
    ensures PairPart(ty, p, delim) && Meaning(less, ty, p.form) == ReadPart(less, ty, text, delim).value
    ensures var rest := ReadPart(less, ty, text, delim).rest;
      PartText(p) + rest == text ||
      (ty.StringType? && p.form.TextF? && p.form.text != "" && rest == "" && PartText(p) == text + [delim])
    decreases ty, 3, 0
  {
    var r := ReadPart(less, ty, text, delim);
    if Peeks(text, delim) {
      p := Part(EmptyF, "", delim);
      CharReads("", delim, text[1..]);
      assert text == "" + [delim] + text[1..];
    } else if ty.StringType? {
      LineOf(text, delim);
      p := Part(TextF(r.value.s), "", delim);
    } else {
      p := ValuePartOf(less, ty, text);
    }
  }

  lemma {:induction false} KeyOf(less: Order, ty: Type, text: string) returns (p: Part)
    requires ReadKey(less, ty, text).Got? && ReadKey(less, ty, text).rest != ""
    ensures KeyPart(ty, p, '=') && Meaning(less, ty, p.form) == ReadKey(less, ty, text).value
    ensures PartText(p) + ReadKey(less, ty, text).rest == text
    decreases ty, 3, 0
  {
    var r := ReadKey(less, ty, text);
    if ty.StringType? {
      LineOf(text, '=');
      p := Part(TextF(r.value.s), "", '=');
    } else {
      p := ValuePartOf(less, ty, text);
    }
  }

  lemma {:induction false} ElementOf(less: Order, ty: Type, text: string) returns (p: Part)
    requires ReadMapped(less, ty, text).Got?
    ensures ListPart(ty, p) && (Element(less, ty, p.form), p.end == ']') == ReadMapped(less, ty, text).value
    ensures PartText(p) + ReadMapped(less, ty, text).rest == text
    decreases ty, 3, 0
  {
    if ty.StringType? {
      var s, c := ExtractOf(text);
      p := Part(TextF(s), "", c);
    } else {
      p := ValuePartOf(less, ty, text);
      NotText(ty, p.form);
    }
  }

  // ---------------------------------------------------------------- loops

  lemma PartsAhead(less: Order, ty: Type, p: Part, more: seq<Part>, isSet: bool, done: seq<Value>)
    ensures PartsText([p] + more) == PartText(p) + PartsText(more)
    ensures KeepAll(less, isSet, done, Elements(less, ty, [p] + more)) ==
            KeepAll(less, isSet, Keep(less, isSet, done, Element(less, ty, p.form)), Elements(less, ty, more))
  {
    hide PartText, Keep, Element;
    assert ([p] + more)[1..] == more;
    assert Elements(less, ty, [p] + more) == [Element(less, ty, p.form)] + Elements(less, ty, more);
    assert Elements(less, ty, [p] + more)[1..] == Elements(less, ty, more);
  }

  lemma NoParts(less: Order, ty: Type, isSet: bool, done: seq<Value>)
    ensures Parts(ty, []) && PartsText([]) == "" && KeepAll(less, isSet, done, Elements(less, ty, [])) == done
  {}

  lemma {:induction false} PartsOf(less: Order, ty: Type, text: string, isSet: bool, done: seq<Value>) returns (parts: seq<Part>)
    requires ReadItems(less, ty, text, isSet, done).Got?
    ensures var r := ReadItems(less, ty, text, isSet, done);
      && parts != [] && Parts(ty, parts) && PartsText(parts) + r.rest == text
      && r.value == KeepAll(less, isSet, done, Elements(less, ty, parts))
    decreases ty, 4, |text|
  {
    hide ListPart, PartText, PartsText, Keep, Element, ReadMapped, ReadItems, Parts, Elements;
    var r := ReadMapped(less, ty, text);
    ReadItemsStep(less, ty, text, isSet, done);
    var p := ElementOf(less, ty, text);
    var more: seq<Part> := [];
    if p.end != ']' {
      more := PartsOf(less, ty, r.rest, isSet, Keep(less, isSet, done, r.value.0));
    }
    NoParts(less, ty, isSet, Keep(less, isSet, done, r.value.0));
    PartsCons(ty, p, more);
    PartsAhead(less, ty, p, more, isSet, done);
    parts := [p] + more;
    assert PartText(p) + (PartsText(more) + ReadItems(less, ty, text, isSet, done).rest) == text;
  }

  lemma EntriesAhead(less: Order, keyType: Type, valueType: Type, e: Item, more: seq<Item>, done: seq<Entry>)
    ensures BindingsText([e] + more) == BindingText(e) + BindingsText(more)
    ensures AssignAll(less, done, Bindings(less, keyType, valueType, [e] + more)) ==
            AssignAll(less, Assign(less, done, Binding(less, keyType, valueType, e)), Bindings(less, keyType, valueType, more))
  {
    hide BindingText, Assign, Binding;
    assert ([e] + more)[1..] == more;
    var values := Bindings(less, keyType, valueType, [e] + more);
    assert values == [Binding(less, keyType, valueType, e)] + Bindings(less, keyType, valueType, more);
    assert values[1..] == Bindings(less, keyType, valueType, more);
  }

  /** One round of the map loop. */
  lemma {:induction false} EntryOf(less: Order, keyType: Type, valueType: Type, text: string, done: seq<Entry>) returns (e: Item, rest: string)
    requires ReadEntries(less, keyType, valueType, text, done).Got?
    ensures KeyPart(keyType, e.key, '=') && ListPart(valueType, e.value) && BindingText(e) + rest == text
    ensures var done' := Assign(less, done, Binding(less, keyType, valueType, e));
      ReadEntries(less, keyType, valueType, text, done) ==
        if e.value.end == ']' then Got(done', rest) else ReadEntries(less, keyType, valueType, rest, done')
    decreases MapType(keyType, valueType), 0, 0
  {
    var k := ReadKey(less, keyType, text);
    var m := ReadMapped(less, valueType, k.rest);
    hide KeyPart, ListPart, ReadKey, ReadMapped, Assign, Meaning, Element, PartText;
    var key := KeyOf(less, keyType, text);
    var value := ElementOf(less, valueType, k.rest);
    e, rest := Item(key, value), m.rest;
    assert text == PartText(key) + (PartText(value) + m.rest);
  }

  lemma {:induction false} EntriesOf(less: Order, keyType: Type, valueType: Type, text: string, done: seq<Entry>) returns (entries: seq<Item>)
    requires ReadEntries(less, keyType, valueType, text, done).Got?
    ensures var r := ReadEntries(less, keyType, valueType, text, done);
      && entries != [] && Entries(keyType, valueType, entries) && BindingsText(entries) + r.rest == text
      && r.value == AssignAll(less, done, Bindings(less, keyType, valueType, entries))
    decreases MapType(keyType, valueType), 0, |text|
  {
    hide KeyPart, ListPart, Assign, Binding, Bindings, ReadEntries, BindingText, Entries;
    var e, tail := EntryOf(less, keyType, valueType, text, done);
    var more: seq<Item> := [];
    var done' := Assign(less, done, Binding(less, keyType, valueType, e));
    if e.value.end != ']' {
      more := EntriesOf(less, keyType, valueType, tail, done');
    } else {
      NoEntries(less, keyType, valueType, done');
    }
    EntriesCons(keyType, valueType, e, more);
    EntriesAhead(less, keyType, valueType, e, more, done);
    entries := [e] + more;
    var rest := ReadEntries(less, keyType, valueType, text, done).rest;
    assert text == BindingText(e) + (BindingsText(more) + rest);
  }

  lemma NoEntries(less: Order, keyType: Type, valueType: Type, done: seq<Entry>)
    ensures Entries(keyType, valueType, []) && BindingsText([]) == ""
    ensures AssignAll(less, done, Bindings(less, keyType, valueType, [])) == done
  {}

  // ---------------------------------------------------------------- pairs and containers

  lemma PairSpells(less: Order, ty: Type, f: Form, text: string, body: string, tail: string, rest: string)
    requires ty.PairType? && f.PairF? && Blank(f.blanks) && !IsSpace(f.open) && text == f.blanks + [f.open] + body
    requires PairPart(ty.first, f.first, ',') && PairPart(ty.second, f.second, '>') && PartText(f.first) + tail == body
    requires var q := f.second;
      PartText(q) + rest == tail ||
      (ty.second.StringType? && q.form.TextF? && q.form.text != "" && rest == "" && PartText(q) == tail + ['>'])
    ensures Spells(less, ty, f, PairV(Meaning(less, ty.first, f.first.form), Meaning(less, ty.second, f.second.form)), text, rest)
  {
    hide PairPart, PartText;
    var p, q := PartText(f.first), PartText(f.second);
    assert Written(f) == f.blanks + [f.open] + (p + q);
    if q + rest == tail {
      assert Written(f) + rest == f.blanks + [f.open] + (p + (q + rest));
    } else {
      assert Written(f) == f.blanks + [f.open] + (p + tail) + ['>'];
    }
  }

  lemma {:induction false} PairOf(less: Order, ty: Type, text: string) returns (f: Form)
    requires ty.PairType? && ReadValue(less, ty, text).Got?
    ensures var r := ReadValue(less, ty, text); Spells(less, ty, f, r.value, text, r.rest)
    decreases ty, 0, |text|
  {
    var c := ReadChar(text);
    var blanks := CharOf(text);
    var a := ReadPart(less, ty.first, c.rest, ',');
    var b := ReadPart(less, ty.second, a.rest, '>');
    var p := PairPartOf(less, ty.first, c.rest, ',');
    var q := PairPartOf(less, ty.second, a.rest, '>');
    f := PairF(blanks, c.value, p, q);
    hide PairPart, ReadPart, Meaning, PartText;
    PairSpells(less, ty, f, text, c.rest, a.rest, b.rest);
  }

  lemma EmptySpells(less: Order, ty: Type, f: Form, text: string, rest: string)
    requires (ty.MapType? && f.MapF? && f.entries == []) || ((ty.VectorType? || ty.SetType?) && f.ListF? && f.parts == [])
    requires Blank(f.blanks) && !IsSpace(f.open) && text == f.blanks + [f.open] + ([']'] + rest)
    ensures Spells(less, ty, f, Default(ty), text, rest)
  {
    assert "]" + rest == [']'] + rest;
    assert Written(f) + rest == f.blanks + [f.open] + ("]" + rest);
  }

  lemma ListSpells(less: Order, ty: Type, elem: Type, f: Form, text: string, rest: string)
    requires (ty == VectorType(elem) || ty == SetType(elem)) && f.ListF? && f.parts != [] && Parts(elem, f.parts)
    requires Blank(f.blanks) && !IsSpace(f.open) && text == f.blanks + [f.open] + (PartsText(f.parts) + rest)
    requires !Peeks(PartsText(f.parts) + rest, ']')
    ensures var items := KeepAll(less, ty.SetType?, [], Elements(less, elem, f.parts));
      Spells(less, ty, f, if ty.SetType? then SetV(items) else VectorV(items), text, rest)
  {
    PartsNonempty(f.parts, rest);
    VectorItems(less, [], Elements(less, elem, f.parts));
    assert [] + Elements(less, elem, f.parts) == Elements(less, elem, f.parts);
    hide PartsText, Parts, Elements, KeepAll;
    assert Written(f) == f.blanks + [f.open] + PartsText(f.parts);
    assert Written(f) + rest == text;
  }

  lemma MapSpells(less: Order, ty: Type, f: Form, text: string, rest: string)
    requires ty.MapType? && f.MapF? && f.entries != [] && Entries(ty.key, ty.value, f.entries)
    requires Blank(f.blanks) && !IsSpace(f.open) && text == f.blanks + [f.open] + (BindingsText(f.entries) + rest)
    requires !Peeks(BindingsText(f.entries) + rest, ']')
    ensures Spells(less, ty, f, MapV(AssignAll(less, [], Bindings(less, ty.key, ty.value, f.entries))), text, rest)
  {
    EntriesNonempty(f.entries, rest);
    hide BindingsText, Entries, Bindings, AssignAll;
    assert Written(f) == f.blanks + [f.open] + BindingsText(f.entries);
    assert Written(f) + rest == text;
  }

  lemma {:induction false} ListOf(less: Order, ty: Type, elem: Type, text: string) returns (f: Form)
    requires (ty == VectorType(elem) || ty == SetType(elem)) && ReadValue(less, ty, text).Got?
    ensures var r := ReadValue(less, ty, text); Spells(less, ty, f, r.value, text, r.rest)
    decreases ty, 0, |text|
  {
    var c := ReadChar(text);
    var blanks := CharOf(text);
    if Peeks(c.rest, ']') {
      f := ListF(blanks, c.value, []);
      assert c.rest == [']'] + c.rest[1..];
      CharReads("", ']', c.rest[1..]);
      EmptySpells(less, ty, f, text, c.rest[1..]);
    } else {
      var parts := PartsOf(less, elem, c.rest, ty.SetType?, []);
      f := ListF(blanks, c.value, parts);
      hide ReadItems, ReadChar, Spells, Parts, Elements, KeepAll, PartsText;
      ListSpells(less, ty, elem, f, text, ReadValue(less, ty, text).rest);
    }
  }

  lemma {:induction false} MapOf(less: Order, ty: Type, text: string) returns (f: Form)
    requires ty.MapType? && ReadValue(less, ty, text).Got?
    ensures var r := ReadValue(less, ty, text); Spells(less, ty, f, r.value, text, r.rest)
    decreases ty, 0, |text| + 1
  {
    var c := ReadChar(text);
    var blanks := CharOf(text);
    if Peeks(c.rest, ']') {
      f := MapF(blanks, c.value, []);
      assert c.rest == [']'] + c.rest[1..];
      CharReads("", ']', c.rest[1..]);
      EmptySpells(less, ty, f, text, c.rest[1..]);
    } else {
      var entries := MapEntriesOf(less, ty, c.rest);
      f := MapF(blanks, c.value, entries);
      hide ReadEntries, ReadChar, Spells, Entries, Bindings, AssignAll, BindingsText;
      MapSpells(less, ty, f, text, ReadValue(less, ty, text).rest);
    }
  }

  lemma {:induction false} MapEntriesOf(less: Order, ty: Type, text: string) returns (entries: seq<Item>)
    requires ty.MapType? && ReadEntries(less, ty.key, ty.value, text, []).Got?
    ensures var r := ReadEntries(less, ty.key, ty.value, text, []);
      && entries != [] && Entries(ty.key, ty.value, entries) && BindingsText(entries) + r.rest == text
      && r.value == AssignAll(less, [], Bindings(less, ty.key, ty.value, entries))
    decreases MapType(ty.key, ty.value), 0, |text| + 1
  {
    entries := EntriesOf(less, ty.key, ty.value, text, []);
  }

  /** Whatever is read was written in the grammar. */
  lemma {:induction false} FormOf(less: Order, ty: Type, text: string) returns (f: Form)
    requires !ty.StringType? && ReadValue(less, ty, text).Got?
    ensures var r := ReadValue(less, ty, text); Spells(less, ty, f, r.value, text, r.rest)
    decreases ty, 1, 0
  {
    match ty
    case IntType => f := NumberOf(less, text);
    case PairType(_, _) => f := PairOf(less, ty, text);
    case VectorType(elem) => f := ListOf(less, ty, elem, text);
    case SetType(elem) => f := ListOf(less, ty, elem, text);
    case MapType(_, _) => f := MapOf(less, ty, text);
  }

  // ---------------------------------------------------------------- exactness

  lemma CutShortReads(less: Order, ty: Type, f: Form, text: string)
    requires Fits(ty, f) && CutShort(ty, f, text, "")
    ensures ReadValue(less, ty, text) == Got(Meaning(less, ty, f), "")
  {
    var s := f.second.form.text;
    var body := PartText(f.first) + s;
    assert PartText(f.second) == s + [f.second.end];
    CutText(f, text);
    Opened(f.blanks, f.open, body, "");
    assert text + "" == text && body + "" == body;
    PairPartReads(less, ty.first, f.first, ',', s);
    LineEnds(s, '>');
    assert f.blanks + [f.open] + body + "" == text;
    hide PartText, ReadChar;
  }

  lemma CutText(f: Form, text: string)
    requires f.PairF? && Written(f) == text + ">" && f.second.form.TextF? && f.second.gap == ""
    ensures text == f.blanks + [f.open] + (PartText(f.first) + f.second.form.text)
  {
    var p, s := PartText(f.first), f.second.form.text;
    assert PartText(f.second) == s + [f.second.end];
    assert Written(f) == f.blanks + [f.open] + (p + (s + [f.second.end]));
    hide Written, PartText;
    assert text == (text + ">")[..|text|];
    assert Written(f)[..|Written(f)| - 1] == f.blanks + [f.open] + (p + s);
  }

  /**
    The reader takes a value from the front of a text, leaving the rest, exactly when the grammar
    writes that value there.
   */
  lemma ReadsIffSpelled(less: Order, ty: Type, text: string, v: Value, rest: string)
    requires !ty.StringType?
    ensures ReadValue(less, ty, text) == Got(v, rest) <==> exists f :: Spells(less, ty, f, v, text, rest)
  {
    if ReadValue(less, ty, text) == Got(v, rest) {
      var f := FormOf(less, ty, text);
    }
    if f :| Spells(less, ty, f, v, text, rest) {
      if Written(f) + rest == text {
        FormReads(less, ty, f, rest);
      } else {
        CutShortReads(less, ty, f, text);
      }
    }
  }

  /** Blanks in front change nothing, whatever the text. */
  lemma BlanksInFront(less: Order, ty: Type, blanks: string, text: string)
    requires Blank(blanks) && !ty.StringType?
    ensures ReadValue(less, ty, blanks + text) == ReadValue(less, ty, text)
  {
    SkipsBlanks(blanks, text);
    assert ReadInt(blanks + text) == ReadInt(text);
    assert ReadChar(blanks + text) == ReadChar(text);
    hide ReadInt, ReadChar, SkipSpace;
  }

  /** Empty parts of a pair are read as what a new value of their type holds. */
  lemma EmptyPartsRead(less: Order, rest: string)
    ensures ReadValue(less, PairType(IntType, StringType), "<,>" + rest) == Got(PairV(IntV(0), StringV("")), rest)
    ensures ReadValue(less, PairType(VectorType(IntType), MapType(IntType, IntType)), "<,>" + rest) ==
            Got(PairV(VectorV([]), MapV([])), rest)
  {
    var f := PairF("", '<', Part(EmptyF, "", ','), Part(EmptyF, "", '>'));
    assert Written(f) == "<,>";
    FormReads(less, PairType(IntType, StringType), f, rest);
    FormReads(less, PairType(VectorType(IntType), MapType(IntType, IntType)), f, rest);
  }
}
