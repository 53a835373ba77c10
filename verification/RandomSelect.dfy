/**
 Weighted selection over integer options and its renormalisation, as done by the
 random generator of the game server. A draw is the value the uniform source
 returned; every statement is for all draws.
 */
module RandomSelect {
  import opened Numbers
  import opened Sequences

  const TEN_THOUSAND := 10000
  const MAX_OPTIONS := 128

  /** The sum of the first `n` weights. */
  function Prefix(w: seq<int>, n: nat): int
    requires n <= |w|
  {
    if n == 0 then 0 else Prefix(w, n - 1) + w[n - 1]
  }

  function Total(w: seq<int>): int {
    Prefix(w, |w|)
  }

  ghost predicate NonNegative(w: seq<int>) {
    forall i :: 0 <= i < |w| ==> 0 <= w[i]
  }

  ghost predicate Positive(w: seq<int>) {
    forall i :: 0 <= i < |w| ==> 0 < w[i]
  }

  lemma {:induction false} PrefixAgrees(v: seq<int>, w: seq<int>, n: nat)
    requires n <= |v| && n <= |w| && v[..n] == w[..n]
    ensures Prefix(v, n) == Prefix(w, n)
  {
    if n > 0 {
      assert v[..n - 1] == v[..n][..n - 1] == w[..n - 1];
      assert v[n - 1] == v[..n][n - 1] == w[n - 1];
      PrefixAgrees(v, w, n - 1);
    }
  }

  lemma {:induction false} PrefixMonotone(w: seq<int>, m: nat, n: nat)
    requires m <= n <= |w| && NonNegative(w)
    ensures 0 <= Prefix(w, m) <= Prefix(w, n)
  {
    if n > 0 {
      if m == n {
        PrefixMonotone(w, n - 1, n - 1);
      } else {
        PrefixMonotone(w, m, n - 1);
      }
    }
  }

  lemma {:induction false} EachBelowTotal(w: seq<int>, i: nat)
    requires NonNegative(w) && i < |w|
    ensures w[i] <= Total(w)
  {
    PrefixMonotone(w, 0, i);
    PrefixMonotone(w, i + 1, |w|);
  }

  lemma {:induction false} PrefixWithout(w: seq<int>, i: nat, n: nat)
    requires i < n <= |w|
    ensures Prefix(Without(w, i), n - 1) == Prefix(w, n) - w[i]
  {
    if n == i + 1 {
      PrefixAgrees(Without(w, i), w, i);
    } else {
      PrefixWithout(w, i, n - 1);
    }
  }

  /** The selection loop from option `i` on, with `p` of the draw left. */
  function SelectFrom(w: seq<int>, i: nat, p: int): (index: nat)
    requires i <= |w|
    ensures w != [] ==> index < |w|
    decreases |w| - i
  {
    if i == |w| then 0
    else if p <= w[i] then i
    else SelectFrom(w, i + 1, p - w[i])
  }

  function Select(w: seq<int>, draw: int): (index: nat)
    ensures w != [] ==> index < |w|
  {
    SelectFrom(w, 0, draw)
  }

  /** Option `i` owns exactly the draws in the interval that its weight spans. */
  predicate Owns(w: seq<int>, i: nat, draw: int) {
    i < |w| && Prefix(w, i) < draw <= Prefix(w, i + 1)
  }

  lemma {:induction false} OwnerUnique(w: seq<int>, i: nat, j: nat, draw: int)
    requires NonNegative(w) && Owns(w, i, draw) && Owns(w, j, draw)
    ensures i == j
  {
    if i < j { PrefixMonotone(w, i + 1, j); }
    if j < i { PrefixMonotone(w, j + 1, i); }
  }

  lemma {:induction false} SelectFromOwns(w: seq<int>, i: nat, draw: int)
    requires NonNegative(w) && i <= |w| && Prefix(w, i) < draw <= Total(w)
    ensures Owns(w, SelectFrom(w, i, draw - Prefix(w, i)), draw)
    decreases |w| - i
  {
    if i < |w| && draw - Prefix(w, i) > w[i] {
      SelectFromOwns(w, i + 1, draw);
    }
  }

  /** Selection picks the one option whose interval holds the draw. */
  lemma SelectExact(w: seq<int>, draw: int, i: nat)
    requires NonNegative(w) && 1 <= draw <= Total(w)
    ensures Select(w, draw) == i <==> Owns(w, i, draw)
  {
    SelectFromOwns(w, 0, draw);
    if Owns(w, i, draw) {
      OwnerUnique(w, i, Select(w, draw), draw);
    }
  }

  predicate Within(lo: int, d: int, hi: int) {
    lo < d <= hi
  }

  function Interval(lo: int, hi: int): set<int> {
    set d | lo < d <= hi && Within(lo, d, hi)
  }

  lemma {:induction false} IntervalSize(lo: int, hi: int)
    requires lo <= hi
    ensures |Interval(lo, hi)| == hi - lo
    decreases hi - lo
  {
    if lo < hi {
      IntervalSize(lo, hi - 1);
      assert Interval(lo, hi) == Interval(lo, hi - 1) + {hi};
    } else {
      assert Interval(lo, hi) == {};
    }
  }

  function DrawsSelecting(w: seq<int>, i: nat): set<int> {
    set d | 1 <= d <= TEN_THOUSAND && Select(w, d) == i
  }

  /** Out of the 10000 draws exactly `w[i]` select option `i`. */
  lemma DrawsSelectingCount(w: seq<int>, i: nat)
    requires NonNegative(w) && Total(w) == TEN_THOUSAND && i < |w|
    ensures |DrawsSelecting(w, i)| == w[i]
    ensures w[i] == 0 ==> forall d :: 1 <= d <= TEN_THOUSAND ==> Select(w, d) != i
  {
    PrefixMonotone(w, 0, i);
    PrefixMonotone(w, i + 1, |w|);
    forall d | 1 <= d <= TEN_THOUSAND
      ensures Select(w, d) == i <==> d in Interval(Prefix(w, i), Prefix(w, i + 1))
    {
      SelectExact(w, d, i);
    }
    assert DrawsSelecting(w, i) == Interval(Prefix(w, i), Prefix(w, i + 1));
    IntervalSize(Prefix(w, i), Prefix(w, i + 1));
    if w[i] == 0 {
      assert DrawsSelecting(w, i) == {};
      forall d | 1 <= d <= TEN_THOUSAND ensures Select(w, d) != i {
        assert d !in DrawsSelecting(w, i);
      }
    }
  }

  /** Every option with a positive weight has a draw that selects it. */
  lemma SelectReaches(w: seq<int>, i: nat) returns (draw: int)
    requires NonNegative(w) && Total(w) == TEN_THOUSAND && i < |w| && w[i] > 0
    ensures 1 <= draw <= TEN_THOUSAND && Select(w, draw) == i
  {
    draw := Prefix(w, i) + 1;
    PrefixMonotone(w, 0, i);
    PrefixMonotone(w, i + 1, |w|);
    SelectExact(w, draw, i);
  }

  /** Walks the options, taking each weight off the draw. */
  method RandSelect(option: array<int>, size: nat, draw: int) returns (index: nat)
    requires 0 < size <= MAX_OPTIONS && size <= option.Length
    requires forall i :: 0 <= i < size ==> 0 <= option[i] <= TEN_THOUSAND
    requires 1 <= draw <= TEN_THOUSAND && draw <= Total(option[..size])
    ensures index == Select(option[..size], draw)
    ensures Owns(option[..size], index, draw)
  {
    ghost var w := option[..size];
    SelectFromOwns(w, 0, draw);
    var p := draw;
    index := 0;
    for i := 0 to size
      invariant p == draw - Prefix(w, i) && p >= 1
      invariant SelectFrom(w, i, p) == Select(w, draw)
    {
      if p <= option[i] {
        return i;
      }
      p := p - option[i];
    }
    assert false;
  }

  /** The form with one probability selects between that and the rest of ten thousand. */
  predicate Hits(prob: int, draw: int) {
    prob != 0 && Select([prob, TEN_THOUSAND - prob], draw) == 0
  }

  method RandSelectProb(prob: int, draw: int) returns (hit: bool)
    requires 0 <= prob <= TEN_THOUSAND && 1 <= draw <= TEN_THOUSAND
    ensures hit <==> Hits(prob, draw)
    ensures hit <==> draw <= prob
  {
    if prob == 0 {
      return false;
    }
    var option := new int[2];
    option[0] := prob;
    option[1] := TEN_THOUSAND - prob;
    assert option[..2] == [prob, TEN_THOUSAND - prob];
    assert Prefix(option[..2], 1) == prob && Total(option[..2]) == TEN_THOUSAND;
    var index := RandSelect(option, 2, draw);
    hit := index == 0;
  }

  /** Exactly `prob` of the 10000 draws make the single form succeed. */
  lemma HitsCount(prob: int)
    requires 0 <= prob <= TEN_THOUSAND
    ensures |set d | 1 <= d <= TEN_THOUSAND && Hits(prob, d)| == prob
  {
    var hits := set d | 1 <= d <= TEN_THOUSAND && Hits(prob, d);
    if prob == 0 {
      assert hits == {};
    } else {
      var w := [prob, TEN_THOUSAND - prob];
      assert Prefix(w, 1) == prob && Prefix(w, 2) == Prefix(w, 1) + w[1];
      DrawsSelectingCount(w, 0);
      assert hits == DrawsSelecting(w, 0);
    }
  }

  /**
   A weight scaled to ten thousand by floating-point division and truncation.
   `short(p, total)` says that the rounded quotient of p and total falls just
   below an exact integer, so that truncation loses one; no other rounding can
   change a truncated quotient of numbers this small. All lemmas hold for every
   `short`.
   */
  function Scaled(p: int, total: int, short: (int, int) -> bool): int
    requires total > 0
  {
    var x := p * TEN_THOUSAND;
    if x % total == 0 && short(p, total) then x / total - 1 else x / total
  }

  function ScaledAll(w: seq<int>, total: int, n: nat, short: (int, int) -> bool): (r: seq<int>)
    requires total > 0 && n <= |w|
    ensures |r| == n
    ensures forall i :: 0 <= i < n ==> r[i] == Scaled(w[i], total, short)
  {
    if n == 0 then [] else ScaledAll(w, total, n - 1, short) + [Scaled(w[n - 1], total, short)]
  }

  function Normalized(w: seq<int>, short: (int, int) -> bool): (r: seq<int>)
    requires w != [] && Total(w) > 0
    ensures |r| == |w|
  {
    var scaled := ScaledAll(w, Total(w), |w| - 1, short);
    scaled + [TEN_THOUSAND - Total(scaled)]
  }

  lemma QuotientBounds(p: int, total: int, q: int, m: int)
    requires 0 < p && 0 < total < TEN_THOUSAND
    requires p * TEN_THOUSAND == total * q + m && 0 <= m < total
    ensures p <= q && (m == 0 ==> p < q)
    ensures total * (q - 1) <= total * q <= p * TEN_THOUSAND
  {
    assert total * p < TEN_THOUSAND * p;
    if q < p {
      TimesMonotone(total, q, p - 1);
    }
  }

  lemma ScaledBounds(p: int, total: int, short: (int, int) -> bool)
    requires 0 < p && 0 < total < TEN_THOUSAND
    ensures p <= Scaled(p, total, short)
    ensures total * Scaled(p, total, short) <= p * TEN_THOUSAND
  {
    var x := p * TEN_THOUSAND;
    QuotientBounds(p, total, x / total, x % total);
  }

  lemma AddBounds(t: int, a: int, b: int, u: int, v: int)
    requires t * a <= u * TEN_THOUSAND && t * b <= v * TEN_THOUSAND
    ensures t * (a + b) <= (u + v) * TEN_THOUSAND
  {
  }

  lemma {:induction false} ScaledAllBounds(w: seq<int>, total: int, n: nat, short: (int, int) -> bool)
    requires Positive(w) && 0 < total < TEN_THOUSAND && n <= |w|
    ensures total * Total(ScaledAll(w, total, n, short)) <= Prefix(w, n) * TEN_THOUSAND
    ensures forall i :: 0 <= i < n ==> w[i] <= ScaledAll(w, total, n, short)[i]
  {
    if n > 0 {
      var r, s := ScaledAll(w, total, n, short), ScaledAll(w, total, n - 1, short);
      ScaledAllBounds(w, total, n - 1, short);
      ScaledBounds(w[n - 1], total, short);
      PrefixAgrees(r, s, n - 1);
      AddBounds(total, Total(s), r[n - 1], Prefix(w, n - 1), w[n - 1]);
    }
  }

  lemma LastTakesEnough(total: int, s: int, last: int)
    requires 0 < last && 0 < total < TEN_THOUSAND
    requires total * s <= (total - last) * TEN_THOUSAND
    ensures last <= TEN_THOUSAND - s
  {
    assert total * last < TEN_THOUSAND * last;
    if s > TEN_THOUSAND - last {
      TimesMonotone(total, TEN_THOUSAND - last + 1, s);
    }
  }

  /**
   Renormalising positive weights that lost some mass gives positive weights, none
   below the old one, that again sum to exactly ten thousand.
   */
  lemma NormalizedRestores(w: seq<int>, short: (int, int) -> bool)
    requires w != [] && Positive(w) && 0 < Total(w) < TEN_THOUSAND
    ensures var r := Normalized(w, short);
            Total(r) == TEN_THOUSAND && forall i :: 0 <= i < |w| ==> w[i] <= r[i]
  {
    var total, n := Total(w), |w| - 1;
    var scaled, r := ScaledAll(w, total, n, short), Normalized(w, short);
    ScaledAllBounds(w, total, n, short);
    PrefixAgrees(r, scaled, n);
    LastTakesEnough(total, Total(scaled), w[n]);
  }

  lemma ScaledExactly(p: int, total: int, short: (int, int) -> bool)
    requires total > 0
    ensures var x, s := p * TEN_THOUSAND, total * Scaled(p, total, short);
            && x - total <= s <= x
            && (s == x - total <==> x % total == 0 && short(p, total))
  {
    var x, q := p * TEN_THOUSAND, Scaled(p, total, short);
    assert x == total * (x / total) + x % total;
    assert total * (x / total - 1) == total * (x / total) - total;
  }

  lemma {:induction false} ScaledTotals(w: seq<int>, total: int, n: nat, short: (int, int) -> bool)
    requires total > 0 && n <= |w|
    ensures var s := total * Total(ScaledAll(w, total, n, short));
            Prefix(w, n) * TEN_THOUSAND - n * total <= s <= Prefix(w, n) * TEN_THOUSAND
  {
    if n > 0 {
      var r, s := ScaledAll(w, total, n, short), ScaledAll(w, total, n - 1, short);
      ScaledTotals(w, total, n - 1, short);
      ScaledExactly(w[n - 1], total, short);
      PrefixAgrees(r, s, n - 1);
      SumTimes(total, Total(s), r[n - 1]);
      SumTimes(total, n - 1, 1);
    }
  }

  lemma SumTimes(t: int, a: int, b: int)
    ensures t * (a + b) == t * a + t * b
  {
  }

  /**
   The weights keep their proportions: with `total` for the old sum, each but the last
   becomes `w[i] * 10000 / total` rounded down, or one less where that is a whole number
   and the division comes out short; and the last exceeds its own share only by what the
   others lost to rounding.
   */
  lemma ProportionsKept(w: seq<int>, short: (int, int) -> bool, i: nat)
    requires w != [] && Total(w) > 0 && i < |w|
    ensures var total, x := Total(w), w[i] * TEN_THOUSAND;
            var s := total * Normalized(w, short)[i];
            && (i < |w| - 1 ==> x - total <= s <= x && (s == x - total <==> x % total == 0 && short(w[i], total)))
            && (i == |w| - 1 ==> x <= s <= x + (|w| - 1) * total)
  {
    var total, n := Total(w), |w| - 1;
    var scaled := ScaledAll(w, total, n, short);
    if i < n {
      ScaledExactly(w[i], total, short);
    } else {
      ScaledTotals(w, total, n, short);
      assert total == Prefix(w, n) + w[n];
      SumTimes(total, TEN_THOUSAND - Total(scaled), Total(scaled));
    }
  }

  /** For every weight alike: at most one unit down, and at most one unit up for each other weight. */
  lemma SharesKept(w: seq<int>, short: (int, int) -> bool, i: nat)
    requires w != [] && Total(w) > 0 && i < |w|
    ensures var total, x := Total(w), w[i] * TEN_THOUSAND;
            x - total <= total * Normalized(w, short)[i] <= x + (|w| - 1) * total
  {
    ProportionsKept(w, short, i);
    TimesMonotone(Total(w), 0, |w| - 1);
  }

  /** The same for what is left of a full list of weights when one option leaves. */
  lemma RenormalisedAfterRemoval(w: seq<int>, i: nat, short: (int, int) -> bool)
    requires Positive(w) && Total(w) == TEN_THOUSAND && i < |w| && |w| > 1
    ensures var v := Without(w, i);
            Total(v) > 0 && Positive(Normalized(v, short)) && Total(Normalized(v, short)) == TEN_THOUSAND
  {
    var v := Without(w, i);
    PrefixWithout(w, i, |w|);
    PrefixMonotone(v, 1, |v|);
    assert Prefix(v, 1) == v[0];
    NormalizedRestores(v, short);
  }

  lemma ScaledNext(w: seq<int>, total: int, n: nat, short: (int, int) -> bool)
    requires total > 0 && n < |w|
    ensures Total(ScaledAll(w, total, n + 1, short)) ==
            Total(ScaledAll(w, total, n, short)) + Scaled(w[n], total, short)
  {
    PrefixAgrees(ScaledAll(w, total, n + 1, short), ScaledAll(w, total, n, short), n);
  }

  /** Overwrites the first `size` weights by their scaled values; the last takes the rest. */
  method Normalization(prob: array<int>, size: nat, short: (int, int) -> bool)
    requires 0 < size <= prob.Length
    requires forall i :: 0 <= i < size - 1 ==> prob[i] > 0
    requires Total(prob[..size]) > 0
    modifies prob
    ensures prob[..size] == Normalized(old(prob[..size]), short)
    ensures prob[size..] == old(prob[size..])
  {
    ghost var w := prob[..size];
    var total := 0;
    for i := 0 to size
      invariant total == Prefix(w, i)
    {
      total := total + prob[i];
    }
    var subTotal := 0;
    for i := 0 to size - 1
      invariant forall j :: 0 <= j < i ==> prob[j] == Scaled(w[j], total, short)
      invariant forall j :: i <= j < prob.Length ==> prob[j] == old(prob[j])
      invariant subTotal == Total(ScaledAll(w, total, i, short))
    {
      assert w[i] == prob[i];
      prob[i] := Scaled(prob[i], total, short);
      subTotal := subTotal + prob[i];
      ScaledNext(w, total, i, short);
    }
    assert prob[..size - 1] == ScaledAll(w, total, size - 1, short);
    prob[size - 1] := TEN_THOUSAND - subTotal;
    assert prob[..size] == prob[..size - 1] + [prob[size - 1]];
  }
}
