/** The wildcard tuple comparison of common/Utils.h. */
module Tuples {
  const GEN := "*"

  /** std::string's operator<. */
  predicate StringLess(a: string, b: string) {
    b != "" && (a == "" || a[0] < b[0] || (a[0] == b[0] && StringLess(a[1..], b[1..])))
  }

  /** One column: a wildcard is before nothing and nothing is before it. */
  predicate ColumnLess(a: string, b: string) {
    if a == GEN && b == GEN then false
    else if a == GEN && b != GEN then false
    else if a != GEN && b == GEN then false
    else StringLess(a, b)
  }

  predicate ColumnEquals(a: string, b: string) {
    a == b || a == GEN || b == GEN
  }

  /** less_than over the columns of two tuples. */
  predicate LessThan(a: seq<string>, b: seq<string>)
    requires |a| == |b| > 0
  {
    if |a| == 1 then ColumnLess(a[0], b[0])
    else if ColumnLess(a[0], b[0]) then true
    else if ColumnLess(b[0], a[0]) then false
    else LessThan(a[1..], b[1..])
  }

  predicate Equals(a: seq<string>, b: seq<string>)
    requires |a| == |b| > 0
  {
    if |a| == 1 then ColumnEquals(a[0], b[0])
    else if !ColumnEquals(a[0], b[0]) then false
    else Equals(a[1..], b[1..])
  }

  // ---------------------------------------------------------------- strings

  lemma {:induction false} StringsTotal(a: string, b: string)
    ensures StringLess(a, b) || StringLess(b, a) <==> a != b
    ensures !(StringLess(a, b) && StringLess(b, a))
  {
    if a != "" && b != "" {
      StringsTotal(a[1..], b[1..]);
      assert a == [a[0]] + a[1..] && b == [b[0]] + b[1..];
    }
  }

  lemma {:induction false} StringsTransitive(a: string, b: string, c: string)
    requires StringLess(a, b) && StringLess(b, c)
    ensures StringLess(a, c)
  {
    if a != "" && a[0] == b[0] == c[0] {
      StringsTransitive(a[1..], b[1..], c[1..]);
    }
  }

  /** The first character that differs decides, or else the shorter string is less. */
  lemma {:induction false} StringLessIff(a: string, b: string)
    ensures StringLess(a, b) <==>
            exists k :: 0 <= k <= |a| && k < |b| && a[..k] == b[..k] && (k == |a| || a[k] < b[k])
  {
    if a == "" || b == "" || a[0] != b[0] {
      assert a[..0] == b[..0];
      forall k | 0 < k <= |a| && k <= |b|
        ensures a[..k][0] == a[0] && b[..k][0] == b[0]
      {}
    } else {
      var x, y := a[1..], b[1..];
      StringLessIff(x, y);
      assert a == [a[0]] + x && b == [b[0]] + y;
      forall k | 0 < k <= |a| && k <= |b|
        ensures a[..k] == b[..k] <==> x[..k - 1] == y[..k - 1]
      {
        assert a[..k] == [a[0]] + x[..k - 1] && b[..k] == [b[0]] + y[..k - 1];
      }
      if k :| 0 <= k <= |x| && k < |y| && x[..k] == y[..k] && (k == |x| || x[k] < y[k]) {
        assert a[..k + 1] == b[..k + 1];
      }
      if k :| 0 <= k <= |a| && k < |b| && a[..k] == b[..k] && (k == |a| || a[k] < b[k]) {
        assert k > 0 && x[..k - 1] == y[..k - 1];
      }
    }
  }

  // ---------------------------------------------------------------- tuples

  /** Tuples are equal exactly when neither is less, and never both less: wildcards included. */
  lemma {:induction false} EqualIffNeitherLess(a: seq<string>, b: seq<string>)
    requires |a| == |b| > 0
    ensures Equals(a, b) <==> !LessThan(a, b) && !LessThan(b, a)
    ensures !(LessThan(a, b) && LessThan(b, a))
  {
    StringsTotal(a[0], b[0]);
    if |a| > 1 {
      EqualIffNeitherLess(a[1..], b[1..]);
    }
  }

  /** Tuples are equal when every column is, or has a wildcard on either side. */
  lemma {:induction false} EqualIffColumnsMatch(a: seq<string>, b: seq<string>)
    requires |a| == |b| > 0
    ensures Equals(a, b) <==> forall i :: 0 <= i < |a| ==> a[i] == b[i] || a[i] == GEN || b[i] == GEN
  {
    if |a| > 1 {
      EqualIffColumnsMatch(a[1..], b[1..]);
      assert a == [a[0]] + a[1..] && b == [b[0]] + b[1..];
    }
  }

  /** The first column that differs without a wildcard on either side decides. */
  lemma {:induction false} LessIffFirstDifference(a: seq<string>, b: seq<string>)
    requires |a| == |b| > 0
    ensures LessThan(a, b) <==> exists k :: 0 <= k < |a| && Decides(a, b, k) && StringLess(a[k], b[k])
  {
    StringsTotal(a[0], b[0]);
    var x, y := a[1..], b[1..];
    if Decides(a, b, 0) {
      assert forall k :: 0 < k < |a| ==> !Decides(a, b, k);
    } else if |a| > 1 {
      LessIffFirstDifference(x, y);
      assert a == [a[0]] + x && b == [b[0]] + y;
      forall k | 0 < k < |a|
        ensures Decides(a, b, k) <==> Decides(x, y, k - 1)
      {}
      if k :| 0 <= k < |x| && Decides(x, y, k) && StringLess(x[k], y[k]) {
        assert Decides(a, b, k + 1);
      }
    }
  }

  predicate Decides(a: seq<string>, b: seq<string>, k: nat)
    requires |a| == |b| && k < |a|
  {
    && a[k] != b[k] && a[k] != GEN && b[k] != GEN
    && forall i :: 0 <= i < k ==> a[i] == b[i] || a[i] == GEN || b[i] == GEN
  }

  /** A tuple of that arity with wildcards in the given columns only. */
  predicate Admits(arity: nat, columns: set<nat>, a: seq<string>) {
    |a| == arity && forall i: nat :: i < |a| && a[i] == GEN ==> i in columns
  }

  ghost predicate TransitiveOn(arity: nat, columns: set<nat>)
    requires arity > 0
  {
    forall a, b, c | Admits(arity, columns, a) && Admits(arity, columns, b) && Admits(arity, columns, c) ::
      LessThan(a, b) && LessThan(b, c) ==> LessThan(a, c)
  }

  /** Wildcards in the last column do no harm: nothing is compared behind them. */
  lemma {:induction false} TransitiveBeforeLast(a: seq<string>, b: seq<string>, c: seq<string>)
    requires |a| == |b| == |c| > 0
    requires forall i :: 0 <= i < |a| - 1 ==> a[i] != GEN && b[i] != GEN && c[i] != GEN
    requires LessThan(a, b) && LessThan(b, c)
    ensures LessThan(a, c)
  {
    StringsTotal(a[0], b[0]);
    StringsTotal(b[0], c[0]);
    StringsTotal(a[0], c[0]);
    if StringLess(a[0], b[0]) && StringLess(b[0], c[0]) {
      StringsTransitive(a[0], b[0], c[0]);
    } else if a[0] == b[0] == c[0] {
      TransitiveBeforeLast(a[1..], b[1..], c[1..]);
    }
  }

  lemma {:induction false} SameTail(a: seq<string>, b: seq<string>, tail: seq<string>)
    requires |a| == |b| > 0
    ensures LessThan(a, b) ==> LessThan(a + tail, b + tail)
    ensures LessThan(b, a) ==> !LessThan(a + tail, b + tail)
  {
    EqualIffNeitherLess(a, b);
    if |a| > 1 {
      assert (a + tail)[1..] == a[1..] + tail && (b + tail)[1..] == b[1..] + tail;
      SameTail(a[1..], b[1..], tail);
    }
    StringsTotal(a[0], b[0]);
  }

  lemma {:induction false} SameFront(front: seq<string>, a: seq<string>, b: seq<string>)
    requires |a| == |b| > 0
    ensures LessThan(front + a, front + b) <==> LessThan(a, b)
  {
    if front == [] {
      assert front + a == a && front + b == b;
    } else {
      assert (front + a)[1..] == front[1..] + a && (front + b)[1..] == front[1..] + b;
      StringsTotal(front[0], front[0]);
      SameFront(front[1..], a, b);
    }
  }

  /** Empty strings but for columns `k` and `k + 1`. */
  function Pad(k: nat, pair: seq<string>, more: nat): seq<string> {
    seq(k, _ => "") + (pair + seq(more, _ => ""))
  }

  lemma PadKeepsOrder(k: nat, a: seq<string>, b: seq<string>, more: nat)
    requires |a| == |b| == 2
    ensures LessThan(a, b) ==> LessThan(Pad(k, a, more), Pad(k, b, more))
    ensures LessThan(b, a) ==> !LessThan(Pad(k, a, more), Pad(k, b, more))
  {
    var tail := seq(more, _ => "");
    SameTail(a, b, tail);
    SameFront(seq(k, _ => ""), a + tail, b + tail);
  }

  /** A wildcard in any earlier column joins tuples in a circle. */
  lemma WildcardBreaksOrder(arity: nat, columns: set<nat>, k: nat)
    requires k in columns && k + 1 < arity
    ensures !TransitiveOn(arity, columns)
  {
    var a, b, c, more := ["b", "1"], [GEN, "2"], ["a", "3"], arity - k - 2;
    assert a[1..] == ["1"] && b[1..] == ["2"] && c[1..] == ["3"];
    assert LessThan(a, b) && LessThan(b, c) && LessThan(c, a);
    hide LessThan;
    PadKeepsOrder(k, a, b, more);
    PadKeepsOrder(k, b, c, more);
    PadKeepsOrder(k, a, c, more);
    assert Admits(arity, columns, Pad(k, a, more)) && Admits(arity, columns, Pad(k, b, more)) && Admits(arity, columns, Pad(k, c, more));
  }

  /** less_than is transitive exactly when wildcards are kept out of every column but the last. */
  lemma TransitiveIffLastColumn(arity: nat, columns: set<nat>)
    requires arity > 0
    ensures TransitiveOn(arity, columns) <==> forall k :: k in columns && k < arity ==> k == arity - 1
  {
    if k: nat :| k in columns && k < arity - 1 {
      WildcardBreaksOrder(arity, columns, k);
    } else {
      forall a, b, c | Admits(arity, columns, a) && Admits(arity, columns, b) && Admits(arity, columns, c) &&
        LessThan(a, b) && LessThan(b, c)
        ensures LessThan(a, c)
      {
        TransitiveBeforeLast(a, b, c);
      }
    }
  }
}
