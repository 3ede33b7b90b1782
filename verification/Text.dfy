/** Input streams over a string, as the standard library's getline and find see them. */
module Text {
  /** The unread characters and the good() state of a string stream. */
  datatype Source = Source(rest: string, good: bool)

  /** The position of the first `c`, or the length of `s`. */
  function IndexOf(s: string, c: char): (i: nat)
    ensures i <= |s| && (i < |s| ==> s[i] == c) && c !in s[..i]
  {
    if s == "" || s[0] == c then 0
    else
      var i := 1 + IndexOf(s[1..], c);
      assert s[..i] == [s[0]] + s[1..][..i - 1];
      i
  }

  /** The position of the first occurrence of `pattern`, or -1. */
  function Find(s: string, pattern: string): (i: int)
    ensures -1 <= i <= |s| && (i >= 0 ==> pattern <= s[i..])
  {
    if pattern <= s then 0
    else if s == "" then -1
    else
      var i := Find(s[1..], pattern);
      if i < 0 then -1 else 1 + i
  }

  /** std::getline into an empty string: a stream that is not good yields nothing. */
  function GetLine(s: Source, delim: char): (r: (string, Source))
    ensures |r.1.rest| <= |s.rest|
    ensures s.good && r.1.good ==> |r.1.rest| < |s.rest|
  {
    var i := IndexOf(s.rest, delim);
    if !s.good then ("", s)
    else if i < |s.rest| then (s.rest[..i], Source(s.rest[i + 1..], true))
    else (s.rest, Source("", false))
  }

  lemma {:induction false} IndexOfFirst(head: string, c: char, tail: string)
    requires c !in head
    ensures IndexOf(head + [c] + tail, c) == |head|
    ensures IndexOf(head, c) == |head|
  {
    if head != "" {
      IndexOfFirst(head[1..], c, tail);
      assert (head + [c] + tail)[1..] == head[1..] + [c] + tail;
    }
  }

  /** A line free of the delimiter is read whole, with a delimiter behind it or at the end. */
  lemma GetLineSplits(head: string, delim: char, tail: string)
    requires delim !in head
    ensures GetLine(Source(head + [delim] + tail, true), delim) == (head, Source(tail, true))
    ensures GetLine(Source(head, true), delim) == (head, Source("", false))
  {
    IndexOfFirst(head, delim, tail);
    var s := head + [delim] + tail;
    assert s[..|head|] == head && s[|head| + 1..] == tail;
  }

  /** Where the pattern is found is where it stands first; not found, it stands nowhere. */
  lemma {:induction false} FindIsFirst(s: string, pattern: string)
    ensures forall i :: 0 <= i <= |s| && (i < Find(s, pattern) || Find(s, pattern) < 0) ==> !(pattern <= s[i..])
  {
    if !(pattern <= s) && s != "" {
      FindIsFirst(s[1..], pattern);
      forall i | 0 < i <= |s|
        ensures s[i..] == s[1..][i - 1..]
      {}
    }
    assert s[0..] == s;
  }

  /** A pattern is found right behind a text free of its first character. */
  lemma {:induction false} FindBehind(head: string, pattern: string, tail: string)
    requires pattern != "" && pattern[0] !in head
    ensures Find(head + pattern + tail, pattern) == |head|
  {
    var s := head + pattern + tail;
    if head == "" {
      assert s == pattern + tail;
    } else {
      assert s[0] == head[0] != pattern[0];
      assert s[1..] == head[1..] + pattern + tail;
      FindBehind(head[1..], pattern, tail);
    }
  }

  lemma {:induction false} FindNothing(s: string, pattern: string)
    requires pattern != "" && pattern[0] !in s
    ensures Find(s, pattern) == -1
  {}
}
