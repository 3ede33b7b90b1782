/** Positions on a circular store: position `p` of a store of `n` cells is its cell `p % n`. */
module Circular {
  /** A nonzero multiple of `n` is at least `n` away from zero. */
  lemma NonzeroMultiple(n: int, k: int)
    requires 0 < n
    ensures k >= 1 ==> n * k >= n
    ensures k <= -1 ==> n * k <= -n
  {}

  /** The remainder is determined by any division whose remainder is in range. */
  lemma ModIs(x: nat, q: int, r: nat, n: nat)
    requires r < n && x == n * q + r
    ensures x % n == r
  {
    var q', r' := x / n, x % n;
    assert x == n * q' + r';
    assert n * (q - q') == n * q - n * q';
    NonzeroMultiple(n, q - q');
  }

  /** Going round a whole number of laps returns to the same cell. */
  lemma ModAddLaps(x: nat, laps: nat, n: nat)
    requires 0 < n
    ensures (x + n * laps) % n == x % n
  {
    assert x == n * (x / n) + x % n;
    assert n * (x / n + laps) == n * (x / n) + n * laps;
    ModIs(x + n * laps, x / n + laps, x % n, n);
  }

  /** Moving congruent positions by the same amount keeps them congruent. */
  lemma ShiftMod(a: nat, b: nat, k: nat, n: nat)
    requires 0 < n && a % n == b % n
    ensures (a + k) % n == (b + k) % n
  {
    assert a == n * (a / n) + a % n;
    assert b == n * (b / n) + b % n;
    ModAddLaps(a % n + k, a / n, n);
    ModAddLaps(b % n + k, b / n, n);
  }

  /** Two different positions less than one lap apart never share a cell. */
  lemma DistinctCells(a: nat, b: nat, n: nat)
    requires a < b < a + n
    ensures a % n != b % n
  {
    if a % n == b % n {
      var qa, qb := a / n, b / n;
      assert a == n * qa + a % n;
      assert b == n * qb + b % n;
      assert n * (qb - qa) == n * qb - n * qa;
      NonzeroMultiple(n, qb - qa);
    }
  }

  /** What lies at positions at .. at + len. */
  function View<T>(cells: seq<T>, at: nat, len: nat): (v: seq<T>)
    requires |cells| > 0
    ensures |v| == len
  {
    seq(len, i requires 0 <= i < len => cells[(at + i) % |cells|])
  }

  lemma ViewSplit<T>(cells: seq<T>, at: nat, n: nat, rest: nat)
    requires |cells| > 0
    ensures View(cells, at, n + rest) == View(cells, at, n) + View(cells, at + n, rest)
  {}

  /** One lap further on lie the same cells. */
  lemma SameCellsNextLap<T>(cells: seq<T>, at: nat, len: nat)
    requires |cells| > 0
    ensures View(cells, at + |cells|, len) == View(cells, at, len)
  {
    var low, high := View(cells, at, len), View(cells, at + |cells|, len);
    forall k | 0 <= k < |high|
      ensures high[k] == low[k]
    {
      ModAddLaps(at + k, 1, |cells|);
    }
  }

  /** A store past the end of a stretch, but less than a lap from its start, leaves it alone. */
  lemma StoreOutside<T>(cells: seq<T>, from: nat, len: nat, p: nat, x: T)
    requires |cells| > 0 && from + len <= p < from + |cells|
    ensures View(cells[p % |cells| := x], from, len) == View(cells, from, len)
  {
    var before, after := View(cells, from, len), View(cells[p % |cells| := x], from, len);
    forall k | 0 <= k < |after|
      ensures after[k] == before[k]
    {
      DistinctCells(from + k, p, |cells|);
    }
  }
}
