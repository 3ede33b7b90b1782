/** common/Url.cpp: taking a connection address apart. */
module Urls {
  import opened Text

  datatype ConnType = Tcp | Mcp | Unix | Shm | Udp | Chronicle | Default

  const URL_DELIMIT := "://"
  const PORT_DELIMIT := ":"
  const OPT_DELIMIT := ','

  /** What Url::parse leaves in the object, and its result. */
  datatype Parsed = Parsed(ok: bool, connType: ConnType, address: string, options: map<string, string>)

  /** The scheme table; `unix` maps to the TCP type as in the source. */
  function TypeOf(scheme: string): ConnType {
    if scheme == "tcp" then Tcp
    else if scheme == "mcp" then Mcp
    else if scheme == "unix" then Tcp
    else if scheme == "shm" then Shm
    else if scheme == "chr" then Chronicle
    else Default
  }

  /** std::map::insert: an existing binding stays. */
  function InsertFirst(m: map<string, string>, key: string, value: string): map<string, string> {
    if key in m then m else m[key := value]
  }

  /** One comma-separated item: the new options and whether a port has been taken. */
  function Item(text: string, portSeen: bool, options: map<string, string>): (map<string, string>, bool) {
    var (option, source) := GetLine(Source(text, true), '=');
    var isPort := !source.good && !portSeen;
    var withPort := if isPort then InsertFirst(options, "port", option) else options;
    var (value, _) := GetLine(source, ',');
    (if option != "" && value != "" then InsertFirst(withPort, option, value) else withPort, portSeen || isPort)
  }

  function Items(source: Source, portSeen: bool, options: map<string, string>): map<string, string>
    decreases |source.rest|, source.good
  {
    if !source.good then options
    else
      var (text, source') := GetLine(source, ',');
      var (options', portSeen') := Item(text, portSeen, options);
      Items(source', portSeen', options')
  }

  /** The address ends at the first colon or, without one, at the first comma. */
  function AddressAndRest(body: string): (string, Source) {
    var colon := Find(body, PORT_DELIMIT);
    if colon < 0 then GetLine(Source(body, true), OPT_DELIMIT)
    else (body[..colon], Source(body[colon..][1..], true))
  }

  function ParseUrl(url: string): Parsed {
    var pos := Find(url, URL_DELIMIT);
    if pos < 0 then Parsed(false, Default, "", map[])
    else
      var connType := TypeOf(url[..pos]);
      if connType.Default? then Parsed(false, Default, "", map[])
      else
        var body := url[pos..][|URL_DELIMIT|..];
        var (address, source) := AddressAndRest(body);
        Parsed(address != "", connType, address, Items(source, false, map[]))
  }

  class Url {
    var connType: ConnType
    var address: string
    var options: map<string, string>

    constructor ()
      ensures connType == Default && address == "" && options == map[]
    {
      connType, address, options := Default, "", map[];
    }

    method Parse(url: string) returns (ok: bool)
      modifies this
      ensures Parsed(ok, connType, address, options) == ParseUrl(url)
    {
      connType := Default;
      address := "";
      options := map[];
      var pos := Find(url, URL_DELIMIT);
      if pos < 0 {
        return false;
      }
      var typeStr := url[..pos];
      connType := TypeOf(typeStr);
      if connType.Default? {
        return false;
      }
      var body := url[pos..][|URL_DELIMIT|..];
      var source := Source(body, true);
      var colon := Find(body, PORT_DELIMIT);
      if colon < 0 {
        var line := GetLine(source, OPT_DELIMIT);
        address, source := line.0, line.1;
      } else {
        address := body[..colon];
        source := Source(body[colon..][1..], true);
      }
      ghost var target := ParseUrl(url);
      assert target == Parsed(address != "", connType, address, Items(source, false, map[]));
      var portIdentified := false;
      while source.good
        invariant target == Parsed(address != "", connType, address, Items(source, portIdentified, options))
        decreases |source.rest|, source.good
      {
        var item := GetLine(source, ',');
        source := item.1;
        var option := GetLine(Source(item.0, true), '=');
        ghost var before, seen := options, portIdentified;
        if !option.1.good && !portIdentified {
          options := InsertFirst(options, "port", option.0);
          portIdentified := true;
        }
        var value := GetLine(option.1, ',');
        if option.0 != "" && value.0 != "" {
          options := InsertFirst(options, option.0, value.0);
        }
        assert (options, portIdentified) == Item(item.0, seen, before);
      }
      return address != "";
    }

    function GetOption(name: string): (value: string)
      reads this
      ensures value == if name in options then options[name] else ""
    {
      if name in options then options[name] else ""
    }
  }

  // ---------------------------------------------------------------- the documented form

  /** scheme://address[:port](,key=value)*[,] */
  datatype Target = Target(scheme: string, address: string, port: Port, options: seq<(string, string)>, trailing: bool)

  datatype Port = NoPort | Port(number: string)

  function PrintOptions(options: seq<(string, string)>, trailing: bool): (text: string)
    ensures text != "" ==> text[0] == ','
  {
    if options == [] then (if trailing then "," else "")
    else "," + options[0].0 + "=" + options[0].1 + PrintOptions(options[1..], trailing)
  }

  /** What is behind the address and port. */
  function OptionText(t: Target): string {
    PrintOptions(t.options, t.trailing)
  }

  function Print(t: Target): string {
    t.scheme + URL_DELIMIT + t.address + (if t.port.Port? then PORT_DELIMIT + t.port.number else "") + OptionText(t)
  }

  predicate Known(scheme: string) {
    scheme in {"tcp", "mcp", "unix", "shm", "chr"}
  }

  predicate CleanOption(o: (string, string)) {
    o.0 != "" && o.1 != "" && ',' !in o.0 && '=' !in o.0 && ',' !in o.1
  }

  /** Parts free of the characters that end them. */
  predicate Clean(t: Target) {
    && Known(t.scheme) && t.address != "" && ':' !in t.address
    && (forall o :: o in t.options ==> CleanOption(o))
    && match t.port
       case Port(number) => ',' !in number && '=' !in number
       case NoPort => ',' !in t.address
  }

  /** The first binding of every key. */
  function Bind(m: map<string, string>, options: seq<(string, string)>): map<string, string>
    decreases |options|
  {
    if options == [] then m else Bind(InsertFirst(m, options[0].0, options[0].1), options[1..])
  }

  function Bindings(t: Target): map<string, string> {
    Bind(if t.port.Port? then map["port" := t.port.number] else map[], t.options)
  }

  lemma ItemIsPair(key: string, value: string, portSeen: bool, m: map<string, string>)
    requires '=' !in key && ',' !in value
    ensures Item(key + "=" + value, portSeen, m) ==
            (if key != "" && value != "" then InsertFirst(m, key, value) else m, portSeen)
  {
    GetLineSplits(key, '=', value);
    GetLineSplits(value, ',', "");
  }

  lemma ItemIsFlag(item: string, portSeen: bool, m: map<string, string>)
    requires '=' !in item
    ensures Item(item, portSeen, m) == (if portSeen then m else InsertFirst(m, "port", item), true)
  {
    GetLineSplits(item, '=', "");
  }

  /** A line before the options, and the options left behind it. */
  function Behind(options: seq<(string, string)>, trailing: bool): Source {
    var text := PrintOptions(options, trailing);
    if text == "" then Source("", false) else Source(text[1..], true)
  }

  lemma LineThenOptions(line: string, options: seq<(string, string)>, trailing: bool)
    requires ',' !in line
    ensures GetLine(Source(line + PrintOptions(options, trailing), true), ',') == (line, Behind(options, trailing))
  {
    var text := PrintOptions(options, trailing);
    hide PrintOptions;
    if text == "" {
      assert line + "" == line;
      GetLineSplits(line, ',', "");
    } else {
      assert text == "," + text[1..];
      assert line + text == line + [','] + text[1..];
      GetLineSplits(line, ',', text[1..]);
    }
  }

  /** One round of the item loop. */
  lemma ItemsStep(source: Source, portSeen: bool, m: map<string, string>, text: string, source': Source, m': map<string, string>)
    requires source.good && GetLine(source, ',') == (text, source') && Item(text, portSeen, m) == (m', portSeen)
    ensures Items(source, portSeen, m) == Items(source', portSeen, m')
  {}

  /** An empty item behind a trailing comma is taken for a port, unless one was given. */
  function WithTrailing(m: map<string, string>, trailing: bool, portSeen: bool): map<string, string> {
    if trailing && !portSeen then InsertFirst(m, "port", "") else m
  }

  lemma NoMoreOptions(trailing: bool, portSeen: bool, m: map<string, string>)
    ensures Items(Behind([], trailing), portSeen, m) == WithTrailing(m, trailing, portSeen)
  {
    if trailing {
      assert Behind([], true) == Source("", true);
      assert GetLine(Source("", true), ',') == ("", Source("", false));
      assert Item("", portSeen, m) == (WithTrailing(m, true, portSeen), true);
    }
  }

  lemma BehindOptions(options: seq<(string, string)>, trailing: bool)
    requires options != []
    ensures var (key, value) := options[0];
      Behind(options, trailing) == Source(key + "=" + value + PrintOptions(options[1..], trailing), true)
  {}

  /** The options behind a line are bound in order. */
  lemma {:induction false} ItemsBind(options: seq<(string, string)>, trailing: bool, portSeen: bool, m: map<string, string>)
    requires forall o :: o in options ==> CleanOption(o)
    ensures Items(Behind(options, trailing), portSeen, m) == WithTrailing(Bind(m, options), trailing, portSeen)
    decreases |options|
  {
    if options == [] {
      NoMoreOptions(trailing, portSeen, m);
    } else {
      var o, rest := options[0], options[1..];
      var text := o.0 + "=" + o.1;
      assert o in options;
      BehindOptions(options, trailing);
      hide GetLine, Item, PrintOptions, Items, Behind;
      ItemIsPair(o.0, o.1, portSeen, m);
      LineThenOptions(text, rest, trailing);
      ItemsStep(Behind(options, trailing), portSeen, m, text, Behind(rest, trailing), InsertFirst(m, o.0, o.1));
      ItemsBind(rest, trailing, portSeen, InsertFirst(m, o.0, o.1));
    }
  }

  lemma BodyOf(t: Target, body: string)
    requires Known(t.scheme) && Print(t) == t.scheme + URL_DELIMIT + body
    ensures Find(Print(t), URL_DELIMIT) == |t.scheme|
    ensures Print(t)[..|t.scheme|] == t.scheme && Print(t)[|t.scheme|..][|URL_DELIMIT|..] == body
  {
    FindBehind(t.scheme, URL_DELIMIT, body);
  }

  /** Parse, once the address and the stream behind it are known. */
  lemma ParseOf(t: Target, body: string, address: string, source: Source)
    requires Known(t.scheme) && Print(t) == t.scheme + URL_DELIMIT + body
    requires (address, source) == AddressAndRest(body)
    ensures ParseUrl(Print(t)) == Parsed(address != "", TypeOf(t.scheme), address, Items(source, false, map[]))
  {
    BodyOf(t, body);
  }

  lemma RecoversWithPort(t: Target)
    requires Clean(t) && t.port.Port?
    ensures ParseUrl(Print(t)) == Parsed(true, TypeOf(t.scheme), t.address, Bindings(t))
  {
    var number := t.port.number;
    var after := number + OptionText(t);
    var body := t.address + PORT_DELIMIT + after;
    assert Print(t) == t.scheme + URL_DELIMIT + body;
    FindBehind(t.address, PORT_DELIMIT, after);
    assert body[..|t.address|] == t.address && body[|t.address|..][1..] == after;
    ParseOf(t, body, t.address, Source(after, true));
    LineThenOptions(number, t.options, t.trailing);
    ItemIsFlag(number, false, map[]);
    ItemsBind(t.options, t.trailing, true, map["port" := number]);
    hide ParseUrl, GetLine, Item, Find, Print;
    assert Items(Source(after, true), false, map[]) == Items(Behind(t.options, t.trailing), true, map["port" := number]);
  }

  lemma ParsesWithoutPort(t: Target)
    requires Clean(t) && t.port.NoPort? && ':' !in OptionText(t)
    ensures ParseUrl(Print(t)) == Parsed(true, TypeOf(t.scheme), t.address, WithTrailing(Bindings(t), t.trailing, false))
  {
    var body := t.address + OptionText(t);
    assert Print(t) == t.scheme + URL_DELIMIT + body;
    FindNothing(body, PORT_DELIMIT);
    LineThenOptions(t.address, t.options, t.trailing);
    ParseOf(t, body, t.address, Behind(t.options, t.trailing));
    ItemsBind(t.options, t.trailing, false, map[]);
  }

  predicate HasKey(options: seq<(string, string)>, key: string) {
    exists o :: o in options && o.0 == key
  }

  lemma {:induction false} BoundKeys(m: map<string, string>, options: seq<(string, string)>, key: string)
    ensures key in Bind(m, options) <==> key in m || HasKey(options, key)
    decreases |options|
  {
    if options != [] {
      BoundKeys(InsertFirst(m, options[0].0, options[0].1), options[1..], key);
      assert options[0] in options;
      assert forall o :: o in options <==> o == options[0] || o in options[1..];
    }
  }

  /**
    Parsing recovers every part of a cleanly printed address, the first binding of a repeated key,
    exactly when a port is given, or no option holds a colon and no comma trails an address without
    a `port` option: the first colon behind the scheme is always taken for the one before the port,
    and the nothing behind a trailing comma for the port itself.
   */
  lemma ParseRecoversIff(t: Target)
    requires Clean(t)
    ensures ParseUrl(Print(t)) == Parsed(true, TypeOf(t.scheme), t.address, Bindings(t)) <==>
            t.port.Port? || (':' !in OptionText(t) && (t.trailing ==> HasKey(t.options, "port")))
  {
    if t.port.Port? {
      RecoversWithPort(t);
    } else if ':' !in OptionText(t) {
      ParsesWithoutPort(t);
      BoundKeys(map[], t.options, "port");
    } else {
      ColonInOptions(t);
    }
  }

  /** A trailing comma alone binds a port the address does not give, as in `chr://tmp/chronicle-file,`. */
  lemma TrailingCommaBindsPort(address: string)
    requires address != "" && ':' !in address && ',' !in address
    ensures ParseUrl("chr://" + address + ",") == Parsed(true, Chronicle, address, map["port" := ""])
  {
    hide ParseUrl, Find, GetLine, Items;
    var t := Target("chr", address, NoPort, [], true);
    assert OptionText(t) == ",";
    ParsesWithoutPort(t);
    hide OptionText, PrintOptions, Clean;
    assert Print(t) == "chr" + URL_DELIMIT + address + "" + ",";
    assert Print(t) == "chr://" + address + ",";
    assert WithTrailing(map[], true, false) == map["port" := ""];
    assert Bindings(t) == map[];
  }

  /** With no port, an option's colon ends the address too late. */
  lemma ColonInOptions(t: Target)
    requires Clean(t) && t.port.NoPort? && ':' in OptionText(t)
    ensures |ParseUrl(Print(t)).address| > |t.address|
  {
    var text := OptionText(t);
    var body := t.address + text;
    var head := FirstColon(t.address, text);
    assert Print(t) == t.scheme + URL_DELIMIT + body;
    ParseOf(t, body, head, Source(body[|head|..][1..], true));
  }

  /** The text before the first colon of `text`, behind an address without one. */
  lemma FirstColon(address: string, text: string) returns (head: string)
    requires ':' !in address && ':' in text && text[0] != ':'
    ensures |head| > |address| && |head| < |address + text|
    ensures Find(address + text, PORT_DELIMIT) == |head| && (address + text)[..|head|] == head
  {
    var i := IndexOf(text, ':');
    ContainsIndex(text, ':');
    head := address + text[..i];
    SplitAt(address, text, i);
    FindBehind(head, PORT_DELIMIT, text[i + 1..]);
    assert address + text == head + PORT_DELIMIT + text[i + 1..];
  }

  lemma SplitAt(front: string, s: string, i: nat)
    requires i < |s|
    ensures front + s == front + s[..i] + [s[i]] + s[i + 1..]
  {}

  lemma ContainsIndex(s: string, c: char)
    requires c in s
    ensures IndexOf(s, c) < |s|
  {}

  /** The scheme's own type is recovered for every known scheme but `unix`. */
  function Meant(scheme: string): ConnType
    requires Known(scheme)
  {
    match scheme
    case "tcp" => Tcp
    case "mcp" => Mcp
    case "unix" => Unix
    case "shm" => Shm
    case _ => Chronicle
  }

  lemma TypeRecoveredIff(t: Target)
    requires Clean(t)
    ensures ParseUrl(Print(t)).connType == Meant(t.scheme) <==> t.scheme != "unix"
  {
    var body := t.address + (if t.port.Port? then PORT_DELIMIT + t.port.number else "") + OptionText(t);
    assert Print(t) == t.scheme + URL_DELIMIT + body;
    BodyOf(t, body);
  }
}
