/**
  The text format of common/Operators.h on values: what operator<< prints for nested pairs, vectors,
  sets and maps of ints and strings, and what operator>> reads back.
 */
module TextFormat {
  /** The C++ type of a value, which decides how it is read. */
  datatype Type =
    | IntType
    | StringType
    | PairType(first: Type, second: Type)
    | VectorType(elem: Type)
    | SetType(elem: Type)
    | MapType(key: Type, value: Type)

  /** Sets and maps are given by their elements in iteration order. */
  datatype Value =
    | IntV(n: int)
    | StringV(s: string)
    | PairV(a: Value, b: Value)
    | VectorV(items: seq<Value>)
    | SetV(items: seq<Value>)
    | MapV(entries: seq<Entry>)

  datatype Entry = Entry(key: Value, value: Value)

  /** A container's comparator. */
  type Order = (Value, Value) -> bool

  /** What is read and the text left; `Bad` when the stream fails, where the source loops or returns garbage. */
  datatype Read<T> = Bad | Got(value: T, rest: string) {
    predicate IsFailure() {
      Bad?
    }

    function PropagateFailure<U>(): Read<U>
      requires Bad?
    {
      Bad
    }

    function Extract(): (T, string)
      requires Got?
    {
      (value, rest)
    }
  }

  // ---------------------------------------------------------------- printing

  function Digit(d: nat): char
    requires d < 10
  {
    "0123456789"[d]
  }

  function Digits(n: nat): (s: string)
    ensures s != ""
  {
    if n < 10 then [Digit(n)] else Digits(n / 10) + [Digit(n % 10)]
  }

  function PrintInt(n: int): string {
    if n < 0 then "-" + Digits(-n) else Digits(n)
  }

  function Print(v: Value): string
    decreases v
  {
    match v
    case IntV(n) => PrintInt(n)
    case StringV(s) => s
    case PairV(a, b) => "<" + Print(a) + "," + Print(b) + ">"
    case VectorV(items) => "[" + PrintItems(items) + "]"
    case SetV(items) => "[" + PrintItems(items) + "]"
    case MapV(entries) => "[" + PrintEntries(entries) + "]"
  }

  function PrintItems(items: seq<Value>): string
    decreases items
  {
    if items == [] then ""
    else Print(items[0]) + (if |items| == 1 then "" else "," + PrintItems(items[1..]))
  }

  function PrintEntry(e: Entry): string
    decreases e
  {
    Print(e.key) + "=" + Print(e.value)
  }

  function PrintEntries(entries: seq<Entry>): string
    decreases entries
  {
    if entries == [] then ""
    else PrintEntry(entries[0]) + (if |entries| == 1 then "" else "," + PrintEntries(entries[1..]))
  }

  // ---------------------------------------------------------------- reading characters

  predicate IsSpace(c: char) {
    c in {' ', '\t', '\n', '\r', '\U{B}', '\U{C}'}
  }

  function SkipSpace(text: string): (rest: string)
    ensures |rest| <= |text| && (rest != "" ==> !IsSpace(rest[0]))
  {
    if text != "" && IsSpace(text[0]) then SkipSpace(text[1..]) else text
  }

  /** `is >> c`: the next character that is not white space. */
  function ReadChar(text: string): (r: Read<char>)
    ensures r.Got? ==> |r.rest| < |text| && !IsSpace(r.value)
  {
    var t := SkipSpace(text);
    if t == "" then Bad else Got(t[0], t[1..])
  }

  /** `(char)is.peek() == c`. */
  predicate Peeks(text: string, c: char) {
    text != "" && text[0] == c
  }

  /** std::getline: up to and including the delimiter, or to the end of a text that is not empty. */
  function ReadLine(text: string, delim: char): (r: Read<string>)
    ensures r.Got? ==> |r.rest| < |text| && delim !in r.value
  {
    if text == "" then Bad
    else if text[0] == delim then Got("", text[1..])
    else if |text| == 1 then Got(text, "")
    else
      var (line, rest) :- ReadLine(text[1..], delim);
      Got([text[0]] + line, rest)
  }

  predicate Plain(c: char) {
    c != ',' && c != ']' && !IsSpace(c)
  }

  /** extractString with ',' and ']': the characters before either that are not white space, and whether it was ']'. */
  function ExtractString(text: string): (r: Read<(string, bool)>)
    ensures r.Got? ==> |r.rest| < |text| && forall c :: c in r.value.0 ==> Plain(c)
    decreases |text|
  {
    var (c, rest) :- ReadChar(text);
    if c == ',' || c == ']' then Got(("", c == ']'), rest)
    else
      var (more, rest') :- ExtractString(rest);
      Got(([c] + more.0, more.1), rest')
  }

  predicate IsDigit(c: char) {
    '0' <= c <= '9'
  }

  function DigitValue(c: char): nat
    requires IsDigit(c)
  {
    c as int - '0' as int
  }

  /** The digits at the front, read after `n`. */
  function ReadDigits(text: string, n: nat): (r: (nat, string))
    ensures |r.1| <= |text|
  {
    if text != "" && IsDigit(text[0]) then ReadDigits(text[1..], 10 * n + DigitValue(text[0])) else (n, text)
  }

  /** `is >> n` for an int: an optional sign and at least one digit. */
  function ReadInt(text: string): (r: Read<int>)
    ensures r.Got? ==> |r.rest| < |text|
  {
    var t := SkipSpace(text);
    var signed := t != "" && (t[0] == '-' || t[0] == '+');
    var u := if signed then t[1..] else t;
    if u == "" || !IsDigit(u[0]) then Bad
    else
      var (n, rest) := ReadDigits(u[1..], DigitValue(u[0]));
      Got(if signed && t[0] == '-' then 0 - n else n, rest)
  }

  // ---------------------------------------------------------------- containers

  /** A default-constructed value. */
  function Default(ty: Type): Value {
    match ty
    case IntType => IntV(0)
    case StringType => StringV("")
    case PairType(x, y) => PairV(Default(x), Default(y))
    case VectorType(_) => VectorV([])
    case SetType(_) => SetV([])
    case MapType(_, _) => MapV([])
  }

  /** std::set::insert: an equivalent element already there stays. */
  function Insert(less: Order, items: seq<Value>, v: Value): seq<Value> {
    if items == [] then [v]
    else if less(items[0], v) then [items[0]] + Insert(less, items[1..], v)
    else if less(v, items[0]) then [v] + items
    else items
  }

  /** m[key] = value: an equivalent key already there gets the new value. */
  function Assign(less: Order, entries: seq<Entry>, e: Entry): seq<Entry> {
    if entries == [] then [e]
    else if less(entries[0].key, e.key) then [entries[0]] + Assign(less, entries[1..], e)
    else if less(e.key, entries[0].key) then [e] + entries
    else [Entry(entries[0].key, e.value)] + entries[1..]
  }

  // ---------------------------------------------------------------- reading values

  /** One part of a pair: nothing before `delim`, a line up to it, or a value and a character for it. */
  function ReadPart(less: Order, ty: Type, text: string, delim: char): (r: Read<Value>)
    ensures r.Got? ==> |r.rest| < |text|
    decreases ty, 1, |text|
  {
    if Peeks(text, delim) then
      var (_, rest) :- ReadChar(text);
      Got(Default(ty), rest)
    else if ty.StringType? then
      var (line, rest) :- ReadLine(text, delim);
      Got(StringV(line), rest)
    else
      var (v, rest) :- ReadValue(less, ty, text);
      var (_, rest') :- ReadChar(rest);
      Got(v, rest')
  }

  /** The element loop of a vector or set; `keep` is what each element goes through on its way in. */
  function ReadItems(less: Order, ty: Type, text: string, isSet: bool, items: seq<Value>): (r: Read<seq<Value>>)
    ensures r.Got? ==> |r.rest| < |text|
    decreases ty, 1, |text|
  {
    if ty.StringType? then
      var (part, rest) :- ExtractString(text);
      var items' := Keep(less, isSet, items, StringV(part.0));
      if part.1 then Got(items', rest) else ReadItems(less, ty, rest, isSet, items')
    else
      var (v, rest) :- ReadValue(less, ty, text);
      var items' := Keep(less, isSet, items, v);
      var (c, rest') :- ReadChar(rest);
      if c == ']' then Got(items', rest') else ReadItems(less, ty, rest', isSet, items')
  }

  /** push_back or insert. */
  function Keep(less: Order, isSet: bool, items: seq<Value>, v: Value): seq<Value> {
    if isSet then Insert(less, items, v) else items + [v]
  }

  function ReadKey(less: Order, ty: Type, text: string): (r: Read<Value>)
    ensures r.Got? ==> |r.rest| < |text|
    decreases ty, 1, |text|
  {
    if ty.StringType? then
      var (line, rest) :- ReadLine(text, '=');
      Got(StringV(line), rest)
    else
      var (v, rest) :- ReadValue(less, ty, text);
      var (_, rest') :- ReadChar(rest);
      Got(v, rest')
  }

  /** A map's value, and whether the map ends behind it. */
  function ReadMapped(less: Order, ty: Type, text: string): (r: Read<(Value, bool)>)
    ensures r.Got? ==> |r.rest| < |text|
    decreases ty, 1, |text|
  {
    if ty.StringType? then
      var (part, rest) :- ExtractString(text);
      Got((StringV(part.0), part.1), rest)
    else
      var (v, rest) :- ReadValue(less, ty, text);
      var (c, rest') :- ReadChar(rest);
      Got((v, c == ']'), rest')
  }

  function ReadEntries(less: Order, keyType: Type, valueType: Type, text: string, entries: seq<Entry>)
    : (r: Read<seq<Entry>>)
    ensures r.Got? ==> |r.rest| < |text|
    decreases MapType(keyType, valueType), 0, |text|
  {
    var (key, rest) :- ReadKey(less, keyType, text);
    var (mapped, rest') :- ReadMapped(less, valueType, rest);
    var entries' := Assign(less, entries, Entry(key, mapped.0));
    if mapped.1 then Got(entries', rest') else ReadEntries(less, keyType, valueType, rest', entries')
  }

  /** operator>> for an int, pair, vector, set or map; a string has no reader of its own here. */
  function ReadValue(less: Order, ty: Type, text: string): (r: Read<Value>)
    requires !ty.StringType?
    ensures r.Got? ==> |r.rest| < |text|
    decreases ty, 0, |text| + 1
  {
    if ty.IntType? then
      var (n, rest) :- ReadInt(text);
      Got(IntV(n), rest)
    else
      var (_, rest) :- ReadChar(text);
      if ty.PairType? then
        var (a, rest1) :- ReadPart(less, ty.first, rest, ',');
        var (b, rest2) :- ReadPart(less, ty.second, rest1, '>');
        Got(PairV(a, b), rest2)
      else if Peeks(rest, ']') then
        var (_, rest') :- ReadChar(rest);
        Got(Default(ty), rest')
      else if ty.MapType? then
        var (entries, rest') :- ReadEntries(less, ty.key, ty.value, rest, []);
        Got(MapV(entries), rest')
      else
        var (items, rest') :- ReadItems(less, ty.elem, rest, ty.SetType?, []);
        Got(if ty.SetType? then SetV(items) else VectorV(items), rest')
  }
}
