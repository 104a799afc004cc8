/** `scripts/telemetry/telemetry_simulator.py`: interpolated percentiles of latencies, which
    are real numbers here. */
module Telemetry {
  predicate Ascending(xs: seq<real>) {
    forall i, j | 0 <= i < j < |xs| :: xs[i] <= xs[j]
  }

  function Insert(x: real, xs: seq<real>): seq<real> {
    if xs == [] || x <= xs[0] then [x] + xs else [xs[0]] + Insert(x, xs[1..])
  }

  /** `sorted(xs)` */
  function Sorted(xs: seq<real>): seq<real> {
    if xs == [] then [] else Insert(xs[0], Sorted(xs[1..]))
  }

  lemma {:induction false} InsertAdds(x: real, xs: seq<real>)
    ensures multiset(Insert(x, xs)) == multiset(xs) + multiset{x}
  {
    if xs != [] && x > xs[0] {
      InsertAdds(x, xs[1..]);
      assert xs == [xs[0]] + xs[1..];
    }
  }

  lemma {:induction false} InsertSorts(x: real, xs: seq<real>)
    requires Ascending(xs)
    ensures Ascending(Insert(x, xs))
  {
    if xs != [] && x > xs[0] {
      var r := Insert(x, xs[1..]);
      InsertSorts(x, xs[1..]);
      InsertAdds(x, xs[1..]);
      forall i | 0 <= i < |r| ensures xs[0] <= r[i] {
        assert r[i] in multiset(r);
        assert r[i] == x || r[i] in xs[1..];
      }
    }
  }

  lemma {:induction false} SortedSorts(xs: seq<real>)
    ensures Ascending(Sorted(xs)) && multiset(Sorted(xs)) == multiset(xs) && |Sorted(xs)| == |xs|
  {
    if xs != [] {
      SortedSorts(xs[1..]);
      InsertSorts(xs[0], Sorted(xs[1..]));
      InsertAdds(xs[0], Sorted(xs[1..]));
      assert xs == [xs[0]] + xs[1..];
      assert |multiset(Sorted(xs))| == |multiset(xs)|;
    }
  }

  lemma HeadIsLeast(a: seq<real>, x: real)
    requires Ascending(a) && x in multiset(a)
    ensures |a| > 0 && a[0] <= x
  {
    var i :| 0 <= i < |a| && a[i] == x;
  }

  lemma TailOfMultiset(a: seq<real>)
    requires a != []
    ensures multiset(a[1..]) == multiset(a) - multiset{a[0]} && a[0] in multiset(a)
    ensures Ascending(a) ==> Ascending(a[1..])
  {
    assert a == [a[0]] + a[1..];
  }

  lemma SameHead(a: seq<real>, b: seq<real>)
    requires Ascending(a) && Ascending(b) && multiset(a) == multiset(b) && a != []
    ensures b != [] && a[0] == b[0] && multiset(a[1..]) == multiset(b[1..])
    ensures Ascending(a[1..]) && Ascending(b[1..])
  {
    hide Ascending;
    TailOfMultiset(a);
    HeadIsLeast(b, a[0]);
    TailOfMultiset(b);
    HeadIsLeast(a, b[0]);
  }

  /** A multiset has only one ascending order. */
  lemma {:induction false} AscendingUnique(a: seq<real>, b: seq<real>)
    requires Ascending(a) && Ascending(b) && multiset(a) == multiset(b)
    ensures a == b
  {
    hide Ascending;
    if a == [] {
      assert |multiset(b)| == 0;
    } else {
      SameHead(a, b);
      AscendingUnique(a[1..], b[1..]);
      assert a == [a[0]] + a[1..] && b == [b[0]] + b[1..];
    }
  }

  /** The point that divides the way from `a` to `b` at `weight`. */
  function Mix(a: real, b: real, weight: real): real {
    a * (1.0 - weight) + b * weight
  }

  /** The value at a fractional rank of an ascending sequence. */
  function AtRank(ordered: seq<real>, rank: real): real
    requires ordered != [] && 0.0 <= rank <= (|ordered| - 1) as real
  {
    var lower := rank.Floor;
    if lower as real == rank then ordered[lower]
    else
      Mix(ordered[lower], ordered[lower + 1], rank - lower as real)
  }

  /** `round(y)`: to the nearest integer, halves to the even one. */
  function RoundHalfEven(y: real): int {
    var f := y.Floor;
    var d := y - f as real;
    if d < 0.5 then f else if d > 0.5 then f + 1 else if f % 2 == 0 then f else f + 1
  }

  /** `round(x, 3)` */
  function Round3(x: real): real {
    RoundHalfEven(x * 1000.0) as real / 1000.0
  }

  function RankOf(n: nat, p: real): (r: real)
    requires n > 0 && 0.0 <= p <= 1.0
    ensures 0.0 <= r <= (n - 1) as real
  {
    (n - 1) as real * p
  }

  /** `percentile` */
  function Percentile(values: seq<real>, p: real): real
    requires 0.0 <= p <= 1.0
  {
    if values == [] then 0.0
    else
      SortedSorts(values);
      var ordered := Sorted(values);
      if |ordered| == 1 then Round3(ordered[0]) else Round3(AtRank(ordered, RankOf(|ordered|, p)))
  }

  lemma RoundMonotone(x: real, y: real)
    requires x <= y
    ensures Round3(x) <= Round3(y)
  {
    var a, b := x * 1000.0, y * 1000.0;
    assert a <= b && a.Floor <= b.Floor;
    assert RoundHalfEven(a) <= RoundHalfEven(b);
  }

  lemma MulMonotone(c: real, x: real, y: real)
    requires 0.0 <= c && x <= y
    ensures c * x <= c * y
  {
    assert c * y - c * x == c * (y - x);
  }

  lemma MixMonotone(a: real, b: real, v: real, w: real)
    requires a <= b && v <= w
    ensures Mix(a, b, v) <= Mix(a, b, w)
    ensures Mix(a, b, 0.0) == a && Mix(a, b, 1.0) == b
  {
    assert Mix(a, b, v) == a + (b - a) * v;
    assert Mix(a, b, w) == a + (b - a) * w;
    MulMonotone(b - a, v, w);
  }

  lemma RankMonotone(n: nat, p: real, q: real)
    requires n > 0 && 0.0 <= p <= q <= 1.0
    ensures RankOf(n, p) <= RankOf(n, q)
  {
    MulMonotone((n - 1) as real, p, q);
  }

  /** The value at a rank lies between the two values around it. */
  lemma AtRankBetween(ordered: seq<real>, rank: real)
    requires ordered != [] && Ascending(ordered) && 0.0 <= rank <= (|ordered| - 1) as real
    ensures ordered[rank.Floor] <= AtRank(ordered, rank)
    ensures rank.Floor + 1 < |ordered| ==> AtRank(ordered, rank) <= ordered[rank.Floor + 1]
    ensures ordered[0] <= AtRank(ordered, rank) <= ordered[|ordered| - 1]
  {
    var lower := rank.Floor;
    hide Mix;
    if lower as real != rank {
      MixMonotone(ordered[lower], ordered[lower + 1], 0.0, rank - lower as real);
      MixMonotone(ordered[lower], ordered[lower + 1], rank - lower as real, 1.0);
    }
  }

  lemma AtRankMonotone(ordered: seq<real>, r: real, s: real)
    requires ordered != [] && Ascending(ordered) && 0.0 <= r <= s <= (|ordered| - 1) as real
    ensures AtRank(ordered, r) <= AtRank(ordered, s)
  {
    AtRankBetween(ordered, r);
    AtRankBetween(ordered, s);
    if r.Floor == s.Floor {
      if r != s {
        SameCell(ordered, r, s);
      }
    } else {
      assert r.Floor + 1 <= s.Floor;
      assert ordered[r.Floor + 1] <= ordered[s.Floor];
    }
  }

  lemma SameCell(ordered: seq<real>, r: real, s: real)
    requires ordered != [] && Ascending(ordered) && 0.0 <= r < s <= (|ordered| - 1) as real && r.Floor == s.Floor
    ensures AtRank(ordered, r) <= AtRank(ordered, s)
  {
    hide Mix;
    var l := r.Floor;
    MixMonotone(ordered[l], ordered[l + 1], r - l as real, s - l as real);
  }

  /** A percentile does not depend on the order of the values. */
  lemma PercentileOfPermutation(a: seq<real>, b: seq<real>, p: real)
    requires multiset(a) == multiset(b) && 0.0 <= p <= 1.0
    ensures Percentile(a, p) == Percentile(b, p)
  {
    SortedSorts(a);
    SortedSorts(b);
    AscendingUnique(Sorted(a), Sorted(b));
    assert |multiset(a)| == |multiset(b)|;
  }

  /** A percentile grows with its argument. */
  lemma PercentileMonotone(values: seq<real>, p: real, q: real)
    requires 0.0 <= p <= q <= 1.0
    ensures Percentile(values, p) <= Percentile(values, q)
  {
    hide AtRank, Round3, Sorted, Ascending, RankOf;
    if values != [] {
      var ordered := Sorted(values);
      SortedSorts(values);
      RankMonotone(|ordered|, p, q);
      var r, s := RankOf(|ordered|, p), RankOf(|ordered|, q);
      AtRankMonotone(ordered, r, s);
      RoundMonotone(AtRank(ordered, r), AtRank(ordered, s));
    }
  }

  /** Rounding gives the nearest integer, and the even one of two that are equally near. */
  lemma RoundsToNearest(y: real, m: int)
    ensures RoundHalfEven(y) == m <==> m as real - 0.5 < y < m as real + 0.5 ||
                                       (m % 2 == 0 && (y == m as real - 0.5 || y == m as real + 0.5))
  {
  }

  /** A percentile to three decimals: the value at position `k` of the ascending values and the
      fraction `w` of the way to the next one, where `k + w` is `p` of the way to the last. */
  lemma PercentileIs(values: seq<real>, ordered: seq<real>, p: real, k: nat, w: real, thousandths: int)
    requires 0.0 <= p <= 1.0 && Ascending(ordered) && multiset(ordered) == multiset(values)
    requires k < |ordered| && 0.0 <= w < 1.0 && k as real + w == p * (|ordered| - 1) as real
    ensures w > 0.0 ==> k + 1 < |ordered|
    ensures var exact := 1000.0 * (if w == 0.0 then ordered[k] else ordered[k] + w * (ordered[k + 1] - ordered[k]));
            Percentile(values, p) == thousandths as real / 1000.0 <==>
              thousandths as real - 0.5 < exact < thousandths as real + 0.5 ||
              (thousandths % 2 == 0 && (exact == thousandths as real - 0.5 || exact == thousandths as real + 0.5))
  {
    hide Ascending, Sorted, RoundHalfEven;
    SortedSorts(values);
    AscendingUnique(Sorted(values), ordered);
    assert |multiset(values)| == |ordered|;
    var rank := RankOf(|ordered|, p);
    assert rank == k as real + w && rank.Floor == k;
    var exact := if w == 0.0 then ordered[k] else ordered[k] + w * (ordered[k + 1] - ordered[k]);
    if w > 0.0 {
      assert Mix(ordered[k], ordered[k + 1], w) == exact;
    }
    assert Percentile(values, p) == Round3(exact);
    RoundsToNearest(exact * 1000.0, thousandths);
  }

  /** A percentile is the rounding of a number between the least and the greatest value. */
  lemma PercentileBetween(values: seq<real>, p: real, lo: real, hi: real)
    requires values != [] && 0.0 <= p <= 1.0 && forall v | v in values :: lo <= v <= hi
    ensures Round3(lo) <= Percentile(values, p) <= Round3(hi)
  {
    hide AtRank, Round3, Sorted, Ascending, RankOf;
    var ordered := Sorted(values);
    SortedSorts(values);
    var first, last := ordered[0], ordered[|ordered| - 1];
    assert first in multiset(ordered) && last in multiset(ordered);
    assert first in values && last in values;
    var r := RankOf(|ordered|, p);
    AtRankBetween(ordered, r);
    RoundMonotone(lo, first);
    RoundMonotone(last, hi);
    RoundMonotone(lo, AtRank(ordered, r));
    RoundMonotone(AtRank(ordered, r), hi);
  }

  /** `percentile_summary` */
  datatype Summary = Summary(p50: real, p95: real, p99: real)

  function PercentileSummary(values: seq<real>): (s: Summary)
    ensures s.p50 <= s.p95 <= s.p99
  {
    PercentileMonotone(values, 0.50, 0.95);
    PercentileMonotone(values, 0.95, 0.99);
    Summary(Percentile(values, 0.50), Percentile(values, 0.95), Percentile(values, 0.99))
  }

  /** The summary takes the middle, all but a twentieth and all but a hundredth; the middle of
      an even number of values lies half way between two. */
  lemma SummaryIs(values: seq<real>, ordered: seq<real>)
    requires values != [] && Ascending(ordered) && multiset(ordered) == multiset(values)
    ensures PercentileSummary([]) == Summary(0.0, 0.0, 0.0)
    ensures var s, n := PercentileSummary(values), |ordered|;
            && n > 0 && s.p95 == Percentile(values, 0.95) && s.p99 == Percentile(values, 0.99)
            && (n % 2 == 1 ==> s.p50 == Round3(ordered[n / 2]))
            && (n % 2 == 0 ==> s.p50 == Round3((ordered[n / 2 - 1] + ordered[n / 2]) / 2.0))
  {
    hide Ascending, Sorted, Round3;
    assert |multiset(values)| == |ordered|;
    SortedSorts(values);
    AscendingUnique(Sorted(values), ordered);
    var n := |ordered|;
    var rank := RankOf(n, 0.5);
    if n % 2 == 1 {
      assert rank == (n / 2) as real && rank.Floor == n / 2;
    } else {
      assert rank == (n / 2 - 1) as real + 0.5 && rank.Floor == n / 2 - 1;
      assert Mix(ordered[n / 2 - 1], ordered[n / 2], 0.5) == (ordered[n / 2 - 1] + ordered[n / 2]) / 2.0;
    }
  }
}
