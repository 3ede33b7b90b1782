/** The printing and reading loops of common/Operators.h, proved against TextFormat. */
module TextStreams {
  import opened TextFormat

  /** `done` is the print of the first `i` elements. */
  ghost predicate ItemsDone(items: seq<Value>, i: nat, done: string)
    requires i <= |items|
  {
    PrintItems(items) == done + ((if i == 0 || i == |items| then "" else ",") + PrintItems(items[i..]))
  }

  lemma ItemsBegin(items: seq<Value>)
    ensures ItemsDone(items, 0, "")
  {}

  lemma ItemsEnd(items: seq<Value>, done: string)
    requires ItemsDone(items, |items|, done)
    ensures done == PrintItems(items)
  {}

  lemma ItemsNext(items: seq<Value>, i: nat, done: string)
    requires i < |items| && ItemsDone(items, i, done)
    ensures ItemsDone(items, i + 1, done + ((if i > 0 then "," else "") + Print(items[i])))
  {}

  /** `done` is the print of the first `i` elements. */
  ghost predicate EntriesDone(entries: seq<Entry>, i: nat, done: string)
    requires i <= |entries|
  {
    PrintEntries(entries) == done + ((if i == 0 || i == |entries| then "" else ",") + PrintEntries(entries[i..]))
  }

  lemma EntriesBegin(entries: seq<Entry>)
    ensures EntriesDone(entries, 0, "")
  {}

  lemma EntriesEnd(entries: seq<Entry>, done: string)
    requires EntriesDone(entries, |entries|, done)
    ensures done == PrintEntries(entries)
  {}

  lemma EntriesNext(entries: seq<Entry>, i: nat, done: string)
    requires i < |entries| && EntriesDone(entries, i, done)
    ensures EntriesDone(entries, i + 1, done + ((if i > 0 then "," else "") + PrintEntry(entries[i])))
  {}

  lemma Appended(front: string, done: string, comma: string, piece: string)
    ensures front + done + comma + piece == front + (done + (comma + piece))
    ensures comma == "" ==> front + done + piece == front + (done + (comma + piece))
  {}

  class OutStream {
    var text: string

    constructor ()
      ensures text == ""
    {
      text := "";
    }

    method Put(s: string)
      modifies this
      ensures text == old(text) + s
    {
      text := text + s;
    }

    method PutValue(v: Value)
      modifies this
      ensures text == old(text) + Print(v)
      decreases v, 1
    {
      match v {
        case IntV(n) => Put(PrintInt(n));
        case StringV(s) => Put(s);
        case PairV(a, b) => PutPair(v);
        case VectorV(items) => PutBracketed(items);
        case SetV(items) => PutBracketed(items);
        case MapV(entries) => PutEntries(entries);
      }
    }

    method PutPair(v: Value)
      requires v.PairV?
      modifies this
      ensures text == old(text) + Print(v)
      decreases v, 0
    {
      ghost var a, b := Print(v.a), Print(v.b);
      Put("<");
      PutValue(v.a);
      Put(",");
      PutValue(v.b);
      Put(">");
      assert text == old(text) + "<" + a + "," + b + ">";
      assert old(text) + "<" + a + "," + b + ">" == old(text) + ("<" + a + "," + b + ">");
    }

    /** The loop of a vector or set: a comma before every element but the first. */
    method PutBracketed(items: seq<Value>)
      modifies this
      ensures text == old(text) + ("[" + PrintItems(items) + "]")
      decreases items
    {
      Put("[");
      ghost var front, done := text, "";
      ItemsBegin(items);
      hide ItemsDone, PrintItems, Print, PrintEntry;
      for i := 0 to |items|
        invariant text == front + done && ItemsDone(items, i, done)
      {
        ItemsNext(items, i, done);
        ghost var piece := (if i > 0 then "," else "") + Print(items[i]);
        if i > 0 {
          Put(",");
        }
        PutValue(items[i]);
        Appended(front, done, if i > 0 then "," else "", Print(items[i]));
        done := done + piece;
      }
      ItemsEnd(items, done);
      Put("]");
    }

    method PutEntries(entries: seq<Entry>)
      modifies this
      ensures text == old(text) + ("[" + PrintEntries(entries) + "]")
      decreases entries
    {
      Put("[");
      ghost var front, done := text, "";
      EntriesBegin(entries);
      hide EntriesDone, PrintEntries, Print, PrintEntry;
      for i := 0 to |entries|
        invariant text == front + done && EntriesDone(entries, i, done)
      {
        EntriesNext(entries, i, done);
        ghost var piece := (if i > 0 then "," else "") + PrintEntry(entries[i]);
        if i > 0 {
          Put(",");
        }
        PutEntry(entries[i]);
        Appended(front, done, if i > 0 then "," else "", PrintEntry(entries[i]));
        done := done + piece;
      }
      EntriesEnd(entries, done);
      Put("]");
    }

    method PutEntry(e: Entry)
      modifies this
      ensures text == old(text) + PrintEntry(e)
      decreases e
    {
      PutValue(e.key);
      Put("=");
      PutValue(e.value);
    }
  }

  /** ExtractString, once its first character has been read. */
  function ExtractFrom(c: char, rest: string): Read<(string, bool)> {
    if c == ',' || c == ']' then Got(("", c == ']'), rest)
    else
      var (more, rest') :- ExtractString(rest);
      Got(([c] + more.0, more.1), rest')
  }

  function Behind(front: string, r: Read<(string, bool)>): Read<(string, bool)> {
    if r.Bad? then Bad else Got((front + r.value.0, r.value.1), r.rest)
  }

  lemma EmptyFront(r: Read<(string, bool)>)
    ensures Behind("", r) == r
  {
    if r.Got? {
      assert "" + r.value.0 == r.value.0;
    }
  }

  lemma BehindStep(front: string, c: char, rest: string)
    requires c != ',' && c != ']'
    ensures var r := ReadChar(rest);
      Behind(front, ExtractFrom(c, rest)) ==
        if r.Bad? then Bad else Behind(front + [c], ExtractFrom(r.value, r.rest))
  {
    var r := ReadChar(rest);
    if r.Got? {
      var next := ExtractFrom(r.value, r.rest);
      assert ExtractString(rest) == next;
      if next.Got? {
        assert front + ([c] + next.value.0) == front + [c] + next.value.0;
      }
    }
  }

  /** A stream of characters; each method reports whether it stayed good. */
  class InStream {
    var text: string

    constructor (text: string)
      ensures this.text == text
    {
      this.text := text;
    }

    method GetChar() returns (ok: bool, c: char)
      modifies this
      ensures ok == ReadChar(old(text)).Got?
      ensures ok ==> Got(c, text) == ReadChar(old(text))
    {
      var r := ReadChar(text);
      if r.Bad? {
        return false, ' ';
      }
      text := r.rest;
      return true, r.value;
    }

    method GetLine(delim: char) returns (ok: bool, line: string)
      modifies this
      ensures ok == ReadLine(old(text), delim).Got?
      ensures ok ==> Got(line, text) == ReadLine(old(text), delim)
    {
      var r := ReadLine(text, delim);
      if r.Bad? {
        return false, "";
      }
      text := r.rest;
      return true, r.value;
    }

    method Extract() returns (ok: bool, val: string, end: bool)
      modifies this
      ensures ok == ExtractString(old(text)).Got?
      ensures ok ==> Got((val, end), text) == ExtractString(old(text))
    {
      ghost var target := ExtractString(text);
      var c: char;
      ok, c := GetChar();
      if !ok {
        return false, "", false;
      }
      val := "";
      EmptyFront(ExtractFrom(c, text));
      while c != ',' && c != ']'
        invariant target == Behind(val, ExtractFrom(c, text))
        decreases |text|
      {
        BehindStep(val, c, text);
        val := val + [c];
        ok, c := GetChar();
        if !ok {
          return false, "", false;
        }
      }
      assert val + "" == val;
      return true, val, c == ']';
    }

    method GetPart(less: Order, ty: Type, delim: char) returns (ok: bool, v: Value)
      modifies this
      ensures ok == ReadPart(less, ty, old(text), delim).Got?
      ensures ok ==> Got(v, text) == ReadPart(less, ty, old(text), delim)
      decreases ty, 2
    {
      v := Default(ty);
      var c: char;
      if Peeks(text, delim) {
        ok, c := GetChar();
      } else if ty.StringType? {
        var line: string;
        ok, line := GetLine(delim);
        v := StringV(line);
      } else {
        ok, v := GetValue(less, ty);
        if ok {
          ok, c := GetChar();
        }
      }
    }

    /** The element loop of a vector or set. */
    method GetItems(less: Order, ty: Type, isSet: bool) returns (ok: bool, items: seq<Value>)
      modifies this
      ensures ok == ReadItems(less, ty, old(text), isSet, []).Got?
      ensures ok ==> Got(items, text) == ReadItems(less, ty, old(text), isSet, [])
      decreases ty, 3
    {
      items := [];
      ghost var target := ReadItems(less, ty, text, isSet, []);
      while true
        invariant target == ReadItems(less, ty, text, isSet, items)
        decreases |text|
      {
        var mapped: Value, end: bool;
        ok, mapped, end := GetMapped(less, ty);
        if !ok {
          return;
        }
        items := Keep(less, isSet, items, mapped);
        if end {
          return;
        }
      }
    }

    method GetKey(less: Order, ty: Type) returns (ok: bool, v: Value)
      modifies this
      ensures ok == ReadKey(less, ty, old(text)).Got?
      ensures ok ==> Got(v, text) == ReadKey(less, ty, old(text))
      decreases ty, 2
    {
      if ty.StringType? {
        var line: string;
        ok, line := GetLine('=');
        v := StringV(line);
      } else {
        ok, v := GetValue(less, ty);
        if ok {
          var c: char;
          ok, c := GetChar();
        }
      }
    }

    method GetMapped(less: Order, ty: Type) returns (ok: bool, v: Value, end: bool)
      modifies this
      ensures ok == ReadMapped(less, ty, old(text)).Got?
      ensures ok ==> Got((v, end), text) == ReadMapped(less, ty, old(text))
      decreases ty, 2
    {
      if ty.StringType? {
        var s: string;
        ok, s, end := Extract();
        v := StringV(s);
      } else {
        ok, v := GetValue(less, ty);
        end := false;
        if ok {
          var c: char;
          ok, c := GetChar();
          end := c == ']';
        }
      }
    }

    method GetEntries(less: Order, keyType: Type, valueType: Type) returns (ok: bool, entries: seq<Entry>)
      modifies this
      ensures ok == ReadEntries(less, keyType, valueType, old(text), []).Got?
      ensures ok ==> Got(entries, text) == ReadEntries(less, keyType, valueType, old(text), [])
      decreases MapType(keyType, valueType), 0
    {
      entries := [];
      ghost var target := ReadEntries(less, keyType, valueType, text, []);
      while true
        invariant target == ReadEntries(less, keyType, valueType, text, entries)
        decreases |text|
      {
        var key: Value, mapped: Value, end: bool;
        ok, key := GetKey(less, keyType);
        if !ok {
          return;
        }
        ok, mapped, end := GetMapped(less, valueType);
        if !ok {
          return;
        }
        entries := Assign(less, entries, Entry(key, mapped));
        if end {
          return;
        }
      }
    }

    method GetValue(less: Order, ty: Type) returns (ok: bool, v: Value)
      requires !ty.StringType?
      modifies this
      ensures ok == ReadValue(less, ty, old(text)).Got?
      ensures ok ==> Got(v, text) == ReadValue(less, ty, old(text))
      decreases ty, 1
    {
      v := Default(ty);
      if ty.IntType? {
        var r := ReadInt(text);
        if r.Bad? {
          return false, v;
        }
        text := r.rest;
        return true, IntV(r.value);
      }
      var c: char;
      ok, c := GetChar();
      if !ok {
        return;
      }
      if ty.PairType? {
        var a, b: Value;
        ok, a := GetPart(less, ty.first, ',');
        if !ok {
          return;
        }
        ok, b := GetPart(less, ty.second, '>');
        return ok, PairV(a, b);
      }
      if Peeks(text, ']') {
        ok, c := GetChar();
        return;
      }
      if ty.MapType? {
        var entries: seq<Entry>;
        ok, entries := GetEntries(less, ty.key, ty.value);
        return ok, MapV(entries);
      }
      var items: seq<Value>;
      ok, items := GetItems(less, ty.elem, ty.SetType?);
      return ok, if ty.SetType? then SetV(items) else VectorV(items);
    }
  }
}
