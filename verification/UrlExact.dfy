/** What common/Url.cpp makes of every text: which are refused, and what the others bind. */
module UrlExact {
  import opened Text
  import opened Urls

  // ---------------------------------------------------------------- refusals

  lemma NoSchemeIsRefused(url: string)
    requires forall i :: 0 <= i <= |url| ==> !("://" <= url[i..])
    ensures ParseUrl(url) == Parsed(false, Default, "", map[])
  {
    var pos := Find(url, URL_DELIMIT);
    if pos >= 0 {
      assert false;
    }
  }

  lemma SchemeFound(url: string, scheme: string, body: string)
    requires url == scheme + "://" + body && forall i :: 0 <= i < |scheme| ==> !("://" <= url[i..])
    ensures Find(url, URL_DELIMIT) == |scheme| && url[..|scheme|] == scheme && url[|scheme|..][|URL_DELIMIT|..] == body
  {
    FindIsFirst(url, URL_DELIMIT);
    assert url[|scheme|..] == "://" + body;
    var pos := Find(url, URL_DELIMIT);
    assert pos >= 0 ==> "://" <= url[pos..];
  }

  lemma UnknownSchemeIsRefused(url: string, scheme: string, body: string)
    requires url == scheme + "://" + body && (forall i :: 0 <= i < |scheme| ==> !("://" <= url[i..]))
    requires !Known(scheme)
    ensures ParseUrl(url) == Parsed(false, Default, "", map[])
  {
    SchemeFound(url, scheme, body);
  }

  // ---------------------------------------------------------------- one item

  /** What an item says: a key and value, or, if it is the first without '=', a port. */
  ghost predicate Gives(item: string, portSeen: bool, key: string, value: string) {
    || (!portSeen && '=' !in item && key == "port" && value == item)
    || (key != "" && value != "" && '=' !in key && item == key + "=" + value)
  }

  ghost predicate Bound(m: map<string, string>, key: string, value: string) {
    key in m && m[key] == value
  }

  lemma KeyEnds(item: string, key: string, value: string)
    requires '=' !in key && item == key + "=" + value
    ensures IndexOf(item, '=') == |key| && item[..|key|] == key && item[|key| + 1..] == value
  {
    IndexOfFirst(key, '=', value);
  }

  lemma ItemMeans(item: string, portSeen: bool, m: map<string, string>)
    requires ',' !in item
    ensures Item(item, portSeen, m).1 == (portSeen || '=' !in item)
    ensures forall key, value :: Bound(Item(item, portSeen, m).0, key, value) <==>
      Bound(m, key, value) || (key !in m && Gives(item, portSeen, key, value))
  {
    hide Item, GetLine;
    var i := IndexOf(item, '=');
    if i == |item| {
      assert '=' !in item;
      ItemIsFlag(item, portSeen, m);
    } else {
      var k, v := item[..i], item[i + 1..];
      assert item == k + "=" + v;
      ItemIsPair(k, v, portSeen, m);
      forall key, value | Gives(item, portSeen, key, value)
        ensures key == k && value == v
      {
        KeyEnds(item, key, value);
      }
    }
  }

  // ---------------------------------------------------------------- all items

  function Join(items: seq<string>): string
    requires items != []
  {
    if |items| == 1 then items[0] else items[0] + "," + Join(items[1..])
  }

  ghost predicate CommaFree(items: seq<string>) {
    forall i :: 0 <= i < |items| ==> ',' !in items[i]
  }

  /** What item `i` says; it can only be the port when every item before it has a '='. */
  ghost predicate Says(items: seq<string>, portSeen: bool, i: nat, key: string, value: string) {
    i < |items| && Gives(items[i], portSeen || exists j :: 0 <= j < i && '=' !in items[j], key, value)
  }

  ghost predicate SilentBefore(items: seq<string>, portSeen: bool, i: nat, key: string) {
    forall j: nat, other :: j < i ==> !Says(items, portSeen, j, key, other)
  }

  /** Some item says `value` of `key`, and none before it says anything of `key`. */
  ghost predicate FirstSays(items: seq<string>, portSeen: bool, key: string, value: string) {
    exists i: nat :: Says(items, portSeen, i, key, value) && SilentBefore(items, portSeen, i, key)
  }

  lemma SaysBehind(items: seq<string>, portSeen: bool, i: nat, key: string, value: string)
    requires items != []
    ensures Says(items, portSeen, 0, key, value) <==> Gives(items[0], portSeen, key, value)
    ensures Says(items, portSeen, i + 1, key, value) <==> Says(items[1..], portSeen || '=' !in items[0], i, key, value)
  {
    hide Gives;
    if i + 1 < |items| {
      assert (exists j :: 0 <= j < i + 1 && '=' !in items[j]) <==>
             '=' !in items[0] || exists j :: 0 <= j < i && '=' !in items[1..][j] by {
        if j :| 0 <= j < i && '=' !in items[1..][j] {
          assert '=' !in items[j + 1];
        }
        if j :| 0 <= j < i + 1 && '=' !in items[j] {
          assert j > 0 ==> '=' !in items[1..][j - 1];
        }
      }
    }
  }

  lemma SilentBehind(items: seq<string>, portSeen: bool, i: nat, key: string)
    requires items != []
    ensures SilentBefore(items, portSeen, i + 1, key) <==>
      && (forall other :: !Gives(items[0], portSeen, key, other))
      && SilentBefore(items[1..], portSeen || '=' !in items[0], i, key)
  {
    var tail, seen' := items[1..], portSeen || '=' !in items[0];
    forall j: nat, other: string
      ensures Says(items, portSeen, 0, key, other) <==> Gives(items[0], portSeen, key, other)
      ensures Says(items, portSeen, j + 1, key, other) <==> Says(tail, seen', j, key, other)
    {
      SaysBehind(items, portSeen, j, key, other);
    }
    hide Says, Gives;
    if SilentBefore(items, portSeen, i + 1, key) {
      forall j: nat, other | j < i
        ensures !Says(tail, seen', j, key, other)
      {
        assert !Says(items, portSeen, j + 1, key, other);
      }
      forall other
        ensures !Gives(items[0], portSeen, key, other)
      {
        assert !Says(items, portSeen, 0, key, other);
      }
    } else {
      var j: nat, other :| j < i + 1 && Says(items, portSeen, j, key, other);
      assert j > 0 ==> Says(tail, seen', j - 1, key, other);
    }
  }

  lemma FirstSaysBehind(items: seq<string>, portSeen: bool, key: string, value: string)
    requires items != []
    ensures FirstSays(items, portSeen, key, value) <==>
      || Gives(items[0], portSeen, key, value)
      || ((forall other :: !Gives(items[0], portSeen, key, other)) && FirstSays(items[1..], portSeen || '=' !in items[0], key, value))
  {
    var tail, seen' := items[1..], portSeen || '=' !in items[0];
    SaysBehind(items, portSeen, 0, key, value);
    if Gives(items[0], portSeen, key, value) {
      assert Says(items, portSeen, 0, key, value) && SilentBefore(items, portSeen, 0, key);
    }
    hide Says, Gives;
    if i: nat :| Says(items, portSeen, i, key, value) && SilentBefore(items, portSeen, i, key) {
      if i > 0 {
        SaysBehind(items, portSeen, i - 1, key, value);
        SilentBehind(items, portSeen, i - 1, key);
      }
    }
    if i: nat :| Says(tail, seen', i, key, value) && SilentBefore(tail, seen', i, key) {
      SaysBehind(items, portSeen, i, key, value);
      SilentBehind(items, portSeen, i, key);
    }
  }

  lemma JoinStep(items: seq<string>)
    requires items != [] && ',' !in items[0]
    ensures GetLine(Source(Join(items), true), ',') ==
            (items[0], if |items| == 1 then Source("", false) else Source(Join(items[1..]), true))
  {
    GetLineSplits(items[0], ',', if |items| == 1 then "" else Join(items[1..]));
  }

  lemma ItemsRound(items: seq<string>, portSeen: bool, m: map<string, string>)
    requires items != [] && ',' !in items[0]
    ensures var (m', seen') := Item(items[0], portSeen, m);
      Items(Source(Join(items), true), portSeen, m) ==
      if |items| == 1 then m' else Items(Source(Join(items[1..]), true), seen', m')
  {
    JoinStep(items);
    hide Item, GetLine, Join;
  }

  lemma ItemKeys(item: string, portSeen: bool, m: map<string, string>, key: string)
    requires ',' !in item
    ensures key in Item(item, portSeen, m).0 <==> key in m || exists other :: Gives(item, portSeen, key, other)
  {
    ItemMeans(item, portSeen, m);
    var m' := Item(item, portSeen, m).0;
    hide Item, Gives;
    if key in m' {
      assert Bound(m', key, m'[key]);
    }
    if key in m {
      assert Bound(m, key, m[key]);
    } else if other :| Gives(item, portSeen, key, other) {
      assert Bound(m', key, other);
    }
  }

  /** The item loop binds each key to what the first item that says anything of it says. */
  lemma {:induction false} ItemsMean(items: seq<string>, portSeen: bool, m: map<string, string>, key: string, value: string)
    requires items != [] && CommaFree(items)
    ensures Bound(Items(Source(Join(items), true), portSeen, m), key, value) <==>
      Bound(m, key, value) || (key !in m && FirstSays(items, portSeen, key, value))
    decreases |items|
  {
    var item, tail := items[0], items[1..];
    var (m', seen') := Item(item, portSeen, m);
    ItemsRound(items, portSeen, m);
    ItemMeans(item, portSeen, m);
    ItemKeys(item, portSeen, m, key);
    FirstSaysBehind(items, portSeen, key, value);
    hide Item, Items, FirstSays, Gives, Join;
    if tail != [] {
      ItemsMean(tail, seen', m', key, value);
    } else {
      NothingSaid(seen', key, value);
    }
  }

  lemma NothingSaid(portSeen: bool, key: string, value: string)
    ensures !FirstSays([], portSeen, key, value)
  {}

  // ---------------------------------------------------------------- the whole address

  /** How the text behind the scheme falls apart: an address, and items behind a colon or a comma. */
  datatype Shape = Shape(address: string, colon: bool, items: seq<string>)

  function Written(s: Shape): string {
    s.address + (if s.items == [] then "" else (if s.colon then ":" else ",") + Join(s.items))
  }

  /** The first colon ends the address; without one, the first comma. */
  ghost predicate Shaped(body: string, s: Shape) {
    && body == Written(s) && CommaFree(s.items) && ':' !in s.address
    && if s.colon then s.items != [] else ',' !in s.address && ':' !in body
  }

  lemma {:induction false} Cut(text: string) returns (items: seq<string>)
    ensures items != [] && CommaFree(items) && Join(items) == text
    decreases |text|
  {
    var i := IndexOf(text, ',');
    if i == |text| {
      items := [text];
    } else {
      var tail := Cut(text[i + 1..]);
      items := [text[..i]] + tail;
      assert items[1..] == tail;
      assert text == text[..i] + "," + text[i + 1..];
    }
  }

  /** Every text has a shape. */
  lemma EveryBodyIsShaped(body: string) returns (s: Shape)
    ensures Shaped(body, s)
  {
    var i, j := IndexOf(body, ':'), IndexOf(body, ',');
    if i < |body| {
      var items := Cut(body[i + 1..]);
      s := Shape(body[..i], true, items);
    } else if j < |body| {
      var items := Cut(body[j + 1..]);
      s := Shape(body[..j], false, items);
    } else {
      s := Shape(body, false, []);
    }
  }

  /** What is left to be read behind the address. */
  function ItemsSource(s: Shape): Source {
    if s.items == [] then Source("", false) else Source(Join(s.items), true)
  }

  lemma EndsAtColon(address: string, rest: string)
    requires ':' !in address
    ensures AddressAndRest(address + ":" + rest) == (address, Source(rest, true))
  {
    var body := address + PORT_DELIMIT + rest;
    FindBehind(address, PORT_DELIMIT, rest);
    assert body[..|address|] == address && body[|address|..][1..] == rest;
  }

  lemma EndsAtComma(address: string, rest: string)
    requires ',' !in address && ':' !in address && ':' !in rest
    ensures AddressAndRest(address + "," + rest) == (address, Source(rest, true))
    ensures AddressAndRest(address) == (address, Source("", false))
  {
    FindNothing(address + "," + rest, PORT_DELIMIT);
    FindNothing(address, PORT_DELIMIT);
    GetLineSplits(address, OPT_DELIMIT, rest);
  }

  lemma AddressEnds(body: string, s: Shape)
    requires Shaped(body, s)
    ensures AddressAndRest(body) == (s.address, ItemsSource(s))
  {
    hide AddressAndRest, Join, CommaFree;
    if s.colon {
      assert body == s.address + ":" + Join(s.items);
      EndsAtColon(s.address, Join(s.items));
    } else if s.items == [] {
      assert body == s.address;
      EndsAtComma(s.address, "");
    } else {
      var rest := Join(s.items);
      assert body == s.address + "," + rest;
      assert forall c :: c in rest ==> c in body;
      EndsAtComma(s.address, rest);
    }
  }

  lemma ParseKnown(url: string, scheme: string, body: string, address: string, source: Source)
    requires url == scheme + "://" + body && Known(scheme) && AddressAndRest(body) == (address, source)
    ensures ParseUrl(url) == Parsed(address != "", if scheme == "unix" then Tcp else Meant(scheme), address, Items(source, false, map[]))
  {
    hide AddressAndRest, Items;
    FindBehind(scheme, URL_DELIMIT, body);
    assert url[..|scheme|] == scheme && url[|scheme|..][|URL_DELIMIT|..] == body;
  }

  /**
    Every text with a known scheme: what it is accepted on, its address, and exactly what it binds.
   */
  lemma ParseMeans(url: string, scheme: string, body: string, s: Shape)
    requires url == scheme + "://" + body && Known(scheme) && Shaped(body, s)
    ensures var r := ParseUrl(url);
      && r.ok == (s.address != "") && r.address == s.address
      && r.connType == (if scheme == "unix" then Tcp else Meant(scheme))
      && forall key, value :: Bound(r.options, key, value) <==> FirstSays(s.items, false, key, value)
  {
    AddressEnds(body, s);
    ParseKnown(url, scheme, body, s.address, ItemsSource(s));
    hide ParseUrl, FirstSays, Join;
    forall key, value
      ensures Bound(ParseUrl(url).options, key, value) <==> FirstSays(s.items, false, key, value)
    {
      if s.items == [] {
        NothingSaid(false, key, value);
      } else {
        ItemsMean(s.items, false, map[], key, value);
      }
    }
  }

  /**
    A text is accepted exactly when what stands before the first "://" is a known scheme, and
    something stands behind it before the first colon or, without one, before the first comma.
   */
  lemma AcceptsIff(url: string, scheme: string, body: string)
    requires url == scheme + "://" + body && forall i :: 0 <= i < |scheme| ==> !("://" <= url[i..])
    ensures ParseUrl(url).ok <==> Known(scheme) && body != "" && body[0] != ':' && (':' in body || body[0] != ',')
  {
    if Known(scheme) {
      var s := EveryBodyIsShaped(body);
      ParseMeans(url, scheme, body, s);
      assert s.address == "" ==> body == "" || body[0] in {':', ','};
      assert s.address != "" ==> body[0] == s.address[0];
    } else {
      UnknownSchemeIsRefused(url, scheme, body);
    }
  }
}
