/**
 The share of the ring that each heartbeat tick visits: an integer accumulator takes
 in the size of the set every tick and pays `hb` for each visit. The server runs with
 hb = 20; the statements are for every positive hb.
 */
module HeartbeatShare {
  import opened Numbers
  import opened ObjectRing

  /** The position a visit goes to when the cursor stands at `c`; the end wraps around. */
  function Turn(n: nat, c: nat): (t: nat)
    requires c <= n && 0 < n
    ensures t < n
  {
    if c == n then 0 else c
  }

  /** The objects that `k` visits from position `c` go to. */
  function Walk(s: seq<Ptr>, c: nat, k: nat): (v: seq<Ptr>)
    requires c <= |s| && s != []
    ensures |v| == k
    decreases k
  {
    if k == 0 then [] else [s[Turn(|s|, c)]] + Walk(s, Turn(|s|, c) + 1, k - 1)
  }

  /** Where the cursor then stands. */
  function Land(n: nat, c: nat, k: nat): (d: nat)
    requires c <= n && 0 < n
    ensures d <= n
    decreases k
  {
    if k == 0 then c else Land(n, Turn(n, c) + 1, k - 1)
  }

  lemma {:induction false} WalkSplit(s: seq<Ptr>, c: nat, a: nat, b: nat)
    requires c <= |s| && s != []
    ensures Walk(s, c, a + b) == Walk(s, c, a) + Walk(s, Land(|s|, c, a), b)
    ensures Land(|s|, c, a + b) == Land(|s|, Land(|s|, c, a), b)
    decreases a
  {
    if a > 0 {
      WalkSplit(s, Turn(|s|, c) + 1, a - 1, b);
    }
  }

  lemma {:induction false} LandStraight(n: nat, c: nat, k: nat)
    requires c + k <= n && 0 < n
    ensures Land(n, c, k) == c + k
    decreases k
  {
    if k > 0 {
      LandStraight(n, c + 1, k - 1);
    }
  }

  lemma {:induction false} WalkStraight(s: seq<Ptr>, c: nat, k: nat)
    requires c + k <= |s| && s != []
    ensures Walk(s, c, k) == s[c..c + k]
    ensures Land(|s|, c, k) == c + k
    decreases k
  {
    LandStraight(|s|, c, k);
    if k > 0 {
      WalkStraight(s, c + 1, k - 1);
      assert Walk(s, c, k) == [s[c]] + Walk(s, c + 1, k - 1);
    }
  }

  lemma WrapsToStart(s: seq<Ptr>, k: nat)
    requires s != [] && k > 0
    ensures Walk(s, |s|, k) == Walk(s, 0, k)
    ensures Land(|s|, |s|, k) == Land(|s|, 0, k)
  {
  }

  /** As many visits as there are objects go once around and end where they began. */
  lemma OnceAround(s: seq<Ptr>, c: nat, k: nat)
    requires c <= |s| && s != [] && k == |s|
    ensures Walk(s, c, k) == s[c..] + s[..c]
    ensures Land(|s|, c, k) == if c == 0 then |s| else c
  {
    var a := k - c;
    WalkSplit(s, c, a, c);
    WalkStraight(s, c, a);
    assert Walk(s, c, a) == s[c..] && Land(|s|, c, a) == |s|;
    if c > 0 {
      WrapsToStart(s, c);
      WalkStraight(s, 0, c);
      assert Walk(s, |s|, c) == s[..c];
    } else {
      assert Walk(s, |s|, c) == s[..c];
    }
  }

  lemma RotatedMultiset(s: seq<Ptr>, c: nat)
    requires c <= |s|
    ensures multiset(s[c..] + s[..c]) == multiset(s)
  {
    assert s == s[..c] + s[c..];
  }

  lemma FullRound(s: seq<Ptr>, c: nat, k: nat)
    requires c <= |s| && s != [] && k == |s|
    ensures Walk(s, c, k) == s[c..] + s[..c]
    ensures multiset(Walk(s, c, k)) == multiset(s)
    ensures Land(|s|, c, k) == if c == 0 then |s| else c
  {
    OnceAround(s, c, k);
    RotatedMultiset(s, c);
  }

  /** One tick over an unchanging set of size `n`: visits made, and what stays behind. */
  function Share(hb: nat, heart: nat, n: nat): nat
    requires hb > 0
  {
    (heart + n) / hb
  }

  function Residue(hb: nat, heart: nat, n: nat): nat
    requires hb > 0
  {
    (heart + n) % hb
  }

  /** Visits, cursor and residue over a number of ticks without inserts or removals. */
  function TicksWalk(hb: nat, s: seq<Ptr>, c: nat, heart: nat, ticks: nat): seq<Ptr>
    requires hb > 0 && c <= |s| && s != []
    decreases ticks
  {
    if ticks == 0 then [] else
      var k := Share(hb, heart, |s|);
      Walk(s, c, k) + TicksWalk(hb, s, Land(|s|, c, k), Residue(hb, heart, |s|), ticks - 1)
  }

  function TicksLand(hb: nat, n: nat, c: nat, heart: nat, ticks: nat): nat
    requires hb > 0 && c <= n && 0 < n
    decreases ticks
  {
    if ticks == 0 then c
    else TicksLand(hb, n, Land(n, c, Share(hb, heart, n)), Residue(hb, heart, n), ticks - 1)
  }

  function TicksResidue(hb: nat, heart: nat, n: nat, ticks: nat): nat
    requires hb > 0
    decreases ticks
  {
    if ticks == 0 then heart else TicksResidue(hb, Residue(hb, heart, n), n, ticks - 1)
  }

  lemma QuotientUnique(hb: nat, q: int, q': int, m: int, m': int)
    requires 0 <= m < hb && 0 <= m' < hb && hb * q + m == hb * q' + m'
    ensures q == q' && m == m'
  {
    if q < q' { TimesMonotone(hb, q + 1, q'); }
    if q' < q { TimesMonotone(hb, q' + 1, q); }
  }

  lemma DivideOut(hb: nat, k: int, x: int, y: int)
    requires hb > 0 && y == hb * k + x
    ensures y / hb == k + x / hb && y % hb == x % hb
  {
    assert hb * (k + x / hb) == hb * k + hb * (x / hb);
    QuotientUnique(hb, y / hb, k + x / hb, y % hb, x % hb);
  }

  lemma OneTickOff(heart: nat, n: nat, ticks: nat)
    requires ticks > 0
    ensures heart + ticks * n == heart + n + (ticks - 1) * n
  {
  }

  lemma ShareOff(hb: nat, heart: nat, n: nat, rest: nat)
    requires hb > 0
    ensures heart + n + rest == hb * Share(hb, heart, n) + (Residue(hb, heart, n) + rest)
  {
  }

  /** The first of several ticks takes its share off the total. */
  lemma ShareStep(hb: nat, heart: nat, n: nat, rest: nat, total: nat) returns (later: nat)
    requires heart < hb && total == heart + n + rest
    ensures later == Residue(hb, heart, n) + rest
    ensures total / hb == Share(hb, heart, n) + later / hb
    ensures total % hb == later % hb
  {
    later := Residue(hb, heart, n) + rest;
    ShareOff(hb, heart, n, rest);
    DivideOut(hb, Share(hb, heart, n), later, total);
  }

  /** The shares of successive ticks add up as if the accumulator had never been reset. */
  lemma {:induction false} SharesAddUp(hb: nat, s: seq<Ptr>, c: nat, heart: nat, ticks: nat, total: nat)
    requires c <= |s| && s != [] && heart < hb
    requires total == heart + ticks * |s|
    ensures TicksWalk(hb, s, c, heart, ticks) == Walk(s, c, total / hb)
    ensures TicksLand(hb, |s|, c, heart, ticks) == Land(|s|, c, total / hb)
    ensures TicksResidue(hb, heart, |s|, ticks) == total % hb
    decreases ticks
  {
    if ticks == 0 {
      QuotientUnique(hb, heart / hb, 0, heart % hb, heart);
    } else {
      var k := Share(hb, heart, |s|);
      OneTickOff(heart, |s|, ticks);
      var later := ShareStep(hb, heart, |s|, (ticks - 1) * |s|, total);
      SharesAddUp(hb, s, Land(|s|, c, k), Residue(hb, heart, |s|), ticks - 1, later);
      WalkSplit(s, c, k, later / hb);
    }
  }

  lemma RoundTotal(hb: nat, heart: nat, n: nat) returns (total: nat)
    requires heart < hb
    ensures total == heart + hb * n && total / hb == n && total % hb == heart
  {
    total := heart + hb * n;
    QuotientUnique(hb, total / hb, n, total % hb, heart);
  }

  /**
   Fairness: over any `hb` consecutive ticks without inserts or removals, from every
   cursor and every residue, each object is visited exactly once, in ring order, and
   cursor and residue are back where they were (null and the first member are the
   same place).
   */
  lemma EachOncePerRound(hb: nat, s: seq<Ptr>, c: nat, heart: nat)
    requires c <= |s| && s != [] && heart < hb
    ensures TicksWalk(hb, s, c, heart, hb) == s[c..] + s[..c]
    ensures multiset(TicksWalk(hb, s, c, heart, hb)) == multiset(s)
    ensures TicksLand(hb, |s|, c, heart, hb) == if c == 0 then |s| else c
    ensures TicksResidue(hb, heart, |s|, hb) == heart
  {
    var total := RoundTotal(hb, heart, |s|);
    SharesAddUp(hb, s, c, heart, hb, total);
    FullRound(s, c, total / hb);
  }

  // ---- The walk as visits of the ring ----

  /** The position of the cursor: null is one past the last member. */
  function Index(r: Ring): (c: nat)
    ensures c <= |r.objs|
  {
    if r.cur == NULL then |r.objs| else Position(r.objs, r.cur)
  }

  function Repeated(k: nat): seq<Event> {
    seq(k, _ => Visited)
  }

  lemma VisitMoves(r: Ring)
    requires Sound(r) && r.objs != []
    ensures Upcoming(r) == r.objs[Turn(|r.objs|, Index(r))]
    ensures Visit(r) == Ring(r.objs, At(r.objs, Turn(|r.objs|, Index(r)) + 1))
    ensures Sound(Visit(r)) && Index(Visit(r)) == Turn(|r.objs|, Index(r)) + 1
  {
    var t := Turn(|r.objs|, Index(r));
    PositionFinds(r.objs, r.cur);
    PositionIs(r.objs, t);
    VisitSound(r);
    if t + 1 < |r.objs| {
      PositionIs(r.objs, t + 1);
    }
  }

  /** The objects that the next `k` visits go to. */
  function VisitsOf(r: Ring, k: nat): seq<Ptr>
    requires r.objs != []
    decreases k
  {
    if k == 0 then [] else [Upcoming(r)] + VisitsOf(Visit(r), k - 1)
  }

  lemma {:induction false} WalkVisits(r: Ring, k: nat)
    requires Sound(r) && r.objs != []
    ensures Walk(r.objs, Index(r), k) == VisitsOf(r, k)
    decreases k
  {
    if k > 0 {
      VisitMoves(r);
      WalkVisits(Visit(r), k - 1);
    }
  }

  lemma {:induction false} WalkLands(r: Ring, k: nat)
    requires Sound(r) && r.objs != []
    ensures AllLegal(r, Repeated(k))
    ensures ApplyAll(r, Repeated(k)) == if k == 0 then r else Ring(r.objs, At(r.objs, Land(|r.objs|, Index(r), k)))
    decreases k
  {
    if k > 0 {
      VisitMoves(r);
      assert Repeated(k)[1..] == Repeated(k - 1);
      WalkLands(Visit(r), k - 1);
    }
  }

  /** Walking `k` steps is `k` visits: the same objects in the same order, and the same cursor. */
  lemma WalkIsVisits(r: Ring, k: nat)
    requires Sound(r) && r.objs != []
    ensures Walk(r.objs, Index(r), k) == VisitsOf(r, k)
    ensures AllLegal(r, Repeated(k))
    ensures ApplyAll(r, Repeated(k)) == if k == 0 then r else Ring(r.objs, At(r.objs, Land(|r.objs|, Index(r), k)))
  {
    WalkVisits(r, k);
    WalkLands(r, k);
  }
}
