/**
 TimerLite: a set of (deadline, object) entries kept in order, and a map from object to
 deadline that is kept its inverse.
 */
module TimerLite {
  import Sequences

  const SENTINEL: nat := 0x7FFF_FFFF_FFFF_FFFF
  const INT64_MAX: int := 0x7FFF_FFFF_FFFF_FFFF

  /** The address of an object; the sentinel lies beyond them all. */
  type Ptr = p: nat | p < SENTINEL witness 0

  type Time = t: int | -INT64_MAX - 1 <= t <= INT64_MAX witness 0

  datatype Entry = Entry(at: Time, who: nat)

  predicate Less(a: Entry, b: Entry) {
    a.at < b.at || (a.at == b.at && a.who < b.who)
  }

  predicate Sorted(s: seq<Entry>) {
    forall i, j :: 0 <= i < j < |s| ==> Less(s[i], s[j])
  }

  type Deadlines = map<Ptr, Time>

  /** The entries are exactly the pairs of the map, the other way round. */
  ghost predicate Inverse(s: seq<Entry>, m: Deadlines) {
    forall e :: e in s <==> e.who < SENTINEL && e.who in m && m[e.who] == e.at
  }

  // ---- The ordered set ----

  /** The first position from i on whose entry is not before `e`. */
  function LowerBound(s: seq<Entry>, e: Entry, i: nat): (k: nat)
    requires i <= |s|
    ensures i <= k <= |s|
    ensures forall j :: i <= j < k ==> Less(s[j], e)
    ensures k < |s| ==> !Less(s[k], e)
    decreases |s| - i
  {
    if i == |s| || !Less(s[i], e) then i else LowerBound(s, e, i + 1)
  }

  /** Putting an entry where it belongs keeps the order. */
  lemma InsertedAt(s: seq<Entry>, e: Entry, k: nat, r: seq<Entry>)
    requires Sorted(s) && k <= |s| && r == Sequences.Spliced(s, k, e)
    requires forall j :: 0 <= j < k ==> Less(s[j], e)
    requires forall j :: k <= j < |s| ==> Less(e, s[j])
    ensures Sorted(r)
  {
    forall i, j | 0 <= i < j < |r| ensures Less(r[i], r[j]) {
      assert r[i] == (if i < k then s[i] else if i == k then e else s[i - 1]);
      assert r[j] == (if j < k then s[j] else if j == k then e else s[j - 1]);
    }
  }

  lemma AfterBound(s: seq<Entry>, e: Entry, k: nat)
    requires Sorted(s) && e !in s && k <= |s| && (k < |s| ==> !Less(s[k], e))
    ensures forall j :: k <= j < |s| ==> Less(e, s[j])
  {
    forall j | k <= j < |s| ensures Less(e, s[j]) {
      assert s[k] in s && Less(e, s[k]);
      assert j == k || Less(s[k], s[j]);
    }
  }

  function Inserted(s: seq<Entry>, e: Entry): (r: seq<Entry>)
    requires Sorted(s) && e !in s
    ensures Sorted(r) && |r| == |s| + 1
    ensures forall f :: f in r <==> f in s || f == e
  {
    var k := LowerBound(s, e, 0);
    var r := Sequences.Spliced(s, k, e);
    AfterBound(s, e, k);
    InsertedAt(s, e, k, r);
    assert forall f :: f in s <==> f in s[..k] || f in s[k..] by { assert s == s[..k] + s[k..]; }
    r
  }

  function Erased(s: seq<Entry>, e: Entry): (r: seq<Entry>)
    requires Sorted(s) && e in s
    ensures Sorted(r) && |r| == |s| - 1
    ensures forall f :: f in r <==> f in s && f != e
  {
    var k := LowerBound(s, e, 0);
    assert s[k] == e && s == s[..k] + [e] + s[k + 1..];
    Sequences.Without(s, k)
  }

  /** An ordered set has one order: the map alone says what the entries are, and where. */
  lemma {:induction false} OneOrder(s: seq<Entry>, t: seq<Entry>)
    requires Sorted(s) && Sorted(t) && forall e :: e in s <==> e in t
    ensures s == t
    decreases |s|
  {
    if t != [] { assert t[0] in t; }
    if s == [] {
    } else {
      assert s[0] in t && t[0] in s;
      forall e ensures e in s[1..] <==> e in t[1..] {
        assert e in s <==> e == s[0] || e in s[1..];
        assert e in t <==> e == t[0] || e in t[1..];
      }
      OneOrder(s[1..], t[1..]);
      assert s == [s[0]] + s[1..] && t == [t[0]] + t[1..];
    }
  }

  /** As many entries as objects. */
  lemma {:induction false} SameSize(s: seq<Entry>, m: Deadlines)
    requires Sorted(s) && Inverse(s, m)
    ensures |s| == |m|
    decreases |s|
  {
    assert forall p :: p in m ==> Entry(m[p], p) in s;
    if s == [] {
      assert m == map[];
    } else {
      var e := s[0];
      assert e in s && e.who in m;
      var rest := m - {e.who};
      assert rest.Keys == m.Keys - {e.who};
      assert |rest| == |m| - 1 by { assert |rest.Keys| == |m.Keys| - 1; }
      forall f ensures f in s[1..] <==> f.who < SENTINEL && f.who in rest && rest[f.who] == f.at {
        assert f in s <==> f == e || f in s[1..];
      }
      SameSize(s[1..], rest);
    }
  }

  /** The least deadline, or the greatest 64-bit number. */
  ghost predicate IsNext(m: Deadlines, t: Time) {
    && (m == map[] ==> t == INT64_MAX)
    && (m != map[] ==> (exists p :: p in m && m[p] == t) && forall p :: p in m ==> t <= m[p])
  }

  // ---- Taking out what is due ----

  /** Everything at or before `now` is before the sentinel entry, and nothing else. */
  lemma SentinelBounds(s: seq<Entry>, m: Deadlines, now: Time, k: nat)
    requires Sorted(s) && Inverse(s, m) && k == LowerBound(s, Entry(now, SENTINEL), 0)
    ensures forall i :: 0 <= i < k ==> s[i].at <= now
    ensures forall i :: k <= i < |s| ==> now < s[i].at
  {
    forall i | 0 <= i < k ensures s[i].at <= now { assert Less(s[i], Entry(now, SENTINEL)); }
    forall i | k <= i < |s| ensures now < s[i].at {
      assert s[k] in s && !Less(s[k], Entry(now, SENTINEL));
      assert i == k || Less(s[k], s[i]);
    }
  }

  lemma SentinelCuts(s: seq<Entry>, m: Deadlines, now: Time, k: nat)
    requires Sorted(s) && Inverse(s, m) && k == LowerBound(s, Entry(now, SENTINEL), 0)
    ensures forall e :: e in s[..k] <==> e in s && e.at <= now
    ensures forall e :: e in s[k..] <==> e in s && now < e.at
  {
    SentinelBounds(s, m, now, k);
    CutByTime(s, k, now);
  }

  lemma CutByTime(s: seq<Entry>, k: nat, now: Time)
    requires k <= |s|
    requires forall i :: 0 <= i < k ==> s[i].at <= now
    requires forall i :: k <= i < |s| ==> now < s[i].at
    ensures forall e :: e in s[..k] <==> e in s && e.at <= now
    ensures forall e :: e in s[k..] <==> e in s && now < e.at
  {
    ghost var cut, rest := s[..k], s[k..];
    assert s == cut + rest;
    ByTime(cut, rest, now);
  }

  lemma PartsSorted(s: seq<Entry>, k: nat)
    requires Sorted(s) && k <= |s|
    ensures Sorted(s[..k]) && Sorted(s[k..])
  {
  }

  lemma ByTime(cut: seq<Entry>, rest: seq<Entry>, now: Time)
    requires forall i :: 0 <= i < |cut| ==> cut[i].at <= now
    requires forall i :: 0 <= i < |rest| ==> now < rest[i].at
    ensures forall e :: e in cut <==> e in cut + rest && e.at <= now
    ensures forall e :: e in rest <==> e in cut + rest && now < e.at
  {
    assert forall e :: e in cut + rest <==> e in cut || e in rest;
  }

  function Later(m: Deadlines, now: Time): Deadlines {
    map p | p in m && now < m[p] :: m[p]
  }

  lemma RestIsLater(s: seq<Entry>, m: Deadlines, now: Time, k: nat)
    requires Sorted(s) && Inverse(s, m) && k == LowerBound(s, Entry(now, SENTINEL), 0)
    ensures Inverse(s[k..], Later(m, now)) && |s| - k == |Later(m, now)|
  {
    SentinelCuts(s, m, now, k);
    PartsSorted(s, k);
    forall e ensures e in s[k..] <==> e.who < SENTINEL && e.who in Later(m, now) && Later(m, now)[e.who] == e.at {
      assert e in s[k..] <==> e in s && now < e.at;
    }
    SameSize(s[k..], Later(m, now));
  }

  function Without(m: Deadlines, p: nat): (r: Deadlines)
    ensures forall q :: q in r <==> q in m && q != p
    ensures forall q :: q in r ==> r[q] == m[q]
  {
    map q | q in m && q != p :: m[q]
  }

  /** The map after the objects of the vector from i on are erased from it, one by one. */
  function EraseFrom(m: Deadlines, v: seq<Entry>, i: nat): Deadlines
    requires i <= |v|
    decreases |v| - i
  {
    if i == |v| then m else EraseFrom(Without(m, v[i].who), v, i + 1)
  }

  /** Each erase finds its object, as the source asserts. */
  predicate AllFound(m: Deadlines, v: seq<Entry>, i: nat)
    requires i <= |v|
    decreases |v| - i
  {
    i == |v| || (v[i].who < SENTINEL && v[i].who in m && AllFound(Without(m, v[i].who), v, i + 1))
  }

  lemma {:induction false} ErasedMap(m: Deadlines, v: seq<Entry>, i: nat)
    requires i <= |v|
    ensures forall p :: p in EraseFrom(m, v, i) <==> p in m && forall j :: i <= j < |v| ==> v[j].who != p
    ensures forall p :: p in EraseFrom(m, v, i) ==> EraseFrom(m, v, i)[p] == m[p]
    decreases |v| - i
  {
    if i < |v| {
      var less := Without(m, v[i].who);
      ErasedMap(less, v, i + 1);
      forall p ensures p in EraseFrom(m, v, i) <==> p in m && forall j :: i <= j < |v| ==> v[j].who != p {
        assert p in less <==> p in m && v[i].who != p;
      }
    }
  }

  lemma {:induction false} FoundCount(m: Deadlines, v: seq<Entry>, i: nat)
    requires i <= |v| && AllFound(m, v, i)
    ensures |EraseFrom(m, v, i)| == |m| - (|v| - i)
    decreases |v| - i
  {
    if i < |v| {
      var less := Without(m, v[i].who);
      assert less.Keys == m.Keys - {v[i].who};
      assert |less| == |m| - 1 by { assert |less.Keys| == |m.Keys| - 1; }
      FoundCount(less, v, i + 1);
    }
  }

  lemma {:induction false} DistinctFound(m: Deadlines, v: seq<Entry>, i: nat)
    requires i <= |v|
    requires forall j :: i <= j < |v| ==> v[j].who < SENTINEL && v[j].who in m
    requires forall j, l :: i <= j < l < |v| ==> v[j].who != v[l].who
    ensures AllFound(m, v, i)
    decreases |v| - i
  {
    if i < |v| {
      DistinctFound(Without(m, v[i].who), v, i + 1);
    }
  }

  /** The assertions of one GetExpired: each erase finds one, and the sizes agree at the end. */
  predicate AssertionsHold(s: seq<Entry>, m: Deadlines, given: seq<Entry>, k: nat)
    requires k <= |s|
  {
    var all := given + s[..k];
    AllFound(m, all, 0) && |s[k..]| == |EraseFrom(m, all, 0)|
  }

  /** What was due is found and erased. */
  lemma DueFound(s: seq<Entry>, m: Deadlines, k: nat)
    requires Sorted(s) && Inverse(s, m) && k <= |s|
    ensures AllFound(m, s[..k], 0)
  {
    ghost var due := s[..k];
    forall j | 0 <= j < |due| ensures due[j].who < SENTINEL && due[j].who in m && m[due[j].who] == due[j].at {
      assert due[j] in s;
    }
    forall j, l | 0 <= j < l < |due| ensures due[j].who != due[l].who {
      assert Less(s[j], s[l]);
    }
    DistinctFound(m, due, 0);
  }

  /**
   The vector passed in is erased from the map as well, entry by entry: all assertions
   hold if and only if it came in empty.
   */
  lemma EmptyVectorExactly(s: seq<Entry>, m: Deadlines, now: Time, given: seq<Entry>, k: nat)
    requires Sorted(s) && Inverse(s, m) && k == LowerBound(s, Entry(now, SENTINEL), 0)
    ensures AssertionsHold(s, m, given, k) <==> given == []
  {
    ghost var all := given + s[..k];
    SameSize(s, m);
    if AllFound(m, all, 0) { FoundCount(m, all, 0); }
    if given == [] {
      assert all == s[..k];
      DueFound(s, m, k);
    }
  }

  /** What the whole vector leaves in the map is what is later and not named in it. */
  lemma LeftInMap(s: seq<Entry>, m: Deadlines, now: Time, given: seq<Entry>, k: nat)
    requires Sorted(s) && Inverse(s, m) && k == LowerBound(s, Entry(now, SENTINEL), 0)
    ensures var left := EraseFrom(m, given + s[..k], 0);
            && (forall p :: p in left <==> p in m && now < m[p] && forall e :: e in given ==> e.who != p)
            && (forall p :: p in left ==> left[p] == m[p])
  {
    ghost var due := s[..k];
    ghost var all := given + due;
    SentinelCuts(s, m, now, k);
    ErasedMap(m, all, 0);
    forall p | p in m
      ensures (forall j :: 0 <= j < |all| ==> all[j].who != p) <==>
              now < m[p] && forall e :: e in given ==> e.who != p
    {
      NamedIn(given, due, p);
      if m[p] <= now { assert Entry(m[p], p) in due; }
      forall e | e in due && e.who == p ensures m[p] <= now { assert e in s; }
    }
  }

  lemma NamedIn(given: seq<Entry>, due: seq<Entry>, p: nat)
    ensures (forall j :: 0 <= j < |given + due| ==> (given + due)[j].who != p) <==>
            (forall e :: e in given ==> e.who != p) && forall e :: e in due ==> e.who != p
  {
    ghost var all := given + due;
    assert forall e :: e in all <==> e in given || e in due;
    assert forall j :: 0 <= j < |all| ==> all[j] in all;
  }

  /**
   With the assertions compiled out, set and map stay inverse if and only if no object
   the vector names is still waiting for a later deadline.
   */
  lemma StaysInverseExactly(s: seq<Entry>, m: Deadlines, now: Time, given: seq<Entry>, k: nat)
    requires Sorted(s) && Inverse(s, m) && k == LowerBound(s, Entry(now, SENTINEL), 0)
    ensures Inverse(s[k..], EraseFrom(m, given + s[..k], 0)) <==>
            forall e :: e in given && e.who in m ==> m[e.who] <= now
    ensures given == [] ==> EraseFrom(m, given + s[..k], 0) == Later(m, now)
  {
    ghost var rest, left := s[k..], EraseFrom(m, given + s[..k], 0);
    RestIsLater(s, m, now, k);
    LeftInMap(s, m, now, given, k);
    if e :| e in given && e.who in m && now < m[e.who] {
      assert e.who !in left;
      assert Entry(m[e.who], e.who) in rest;
    } else {
      assert left == Later(m, now);
    }
  }

  /** A vector that still names an object with a later deadline breaks the pair. */
  lemma StaleVector(p: Ptr, at: Time, now: Time)
    requires now < at
    ensures var s, m, given := [Entry(at, p)], map[p := at], [Entry(now, p)];
            var k := LowerBound(s, Entry(now, SENTINEL), 0);
            && Sorted(s) && Inverse(s, m)
            && !AssertionsHold(s, m, given, k)
            && !Inverse(s[k..], EraseFrom(m, given + s[..k], 0))
  {
    ghost var s, m, given := [Entry(at, p)], map[p := at], [Entry(now, p)];
    ghost var k := LowerBound(s, Entry(now, SENTINEL), 0);
    assert forall e :: e in s <==> e == Entry(at, p);
    EmptyVectorExactly(s, m, now, given, k);
    StaysInverseExactly(s, m, now, given, k);
    assert Entry(now, p) in given;
  }

  class Timer {
    var timers: seq<Entry>
    var active: Deadlines

    ghost predicate Valid() reads this {
      Sorted(timers) && Inverse(timers, active)
    }

    constructor ()
      ensures Valid() && active == map[]
    {
      timers, active := [], map[];
    }

    /** The first entry of the set, of which `m` is the inverse. */
    method GetNextTime(ghost m: Deadlines) returns (t: Time)
      requires Sorted(timers) && Inverse(timers, m)
      ensures IsNext(m, t)
    {
      assert forall p :: p in m ==> Entry(m[p], p) in timers;
      if timers == [] {
        assert m == map[];
        return INT64_MAX;
      }
      assert timers[0] in timers && timers[0].who in m;
      assert forall i :: 0 <= i < |timers| ==> timers[0].at <= timers[i].at;
      return timers[0].at;
    }

    /** Adds an object, or gives it a new deadline. */
    method AddEntry(at: Time, ent: Ptr) returns (next: Time)
      requires Valid()
      modifies this
      ensures Valid() && active == old(active)[ent := at] && IsNext(active, next)
    {
      SameSize(timers, active);
      if ent !in active {
        active := active[ent := at];
        timers := Inserted(timers, Entry(at, ent));
      } else {
        timers := Erased(timers, Entry(active[ent], ent));
        active := active[ent := at];
        timers := Inserted(timers, Entry(at, ent));
      }
      SameSize(timers, active);
      next := GetNextTime(active);
    }

    method Cancel(ent: Ptr) returns (next: Time)
      requires Valid()
      modifies this
      ensures Valid() && active == old(active) - {ent} && IsNext(active, next)
    {
      if ent in active {
        timers := Erased(timers, Entry(active[ent], ent));
        active := Without(active, ent);
      }
      assert active == old(active) - {ent};
      next := GetNextTime(active);
    }

    /** Erases the objects of the vector one by one; says whether each was found. */
    method EraseAll(v: seq<Entry>) returns (found: bool)
      modifies this`active
      ensures active == EraseFrom(old(active), v, 0) && (found <==> AllFound(old(active), v, 0))
    {
      found := true;
      var i := 0;
      while i < |v|
        invariant 0 <= i <= |v|
        invariant EraseFrom(old(active), v, 0) == EraseFrom(active, v, i)
        invariant AllFound(old(active), v, 0) <==> found && AllFound(active, v, i)
      {
        found := found && v[i].who < SENTINEL && v[i].who in active;
        active := Without(active, v[i].who);
        i := i + 1;
      }
    }

    /**
     Appends what is due to the vector, in order, and then erases everything in the
     vector from the map. `held` says whether every assertion of the source held.
     */
    method GetExpired(now: Time, given: seq<Entry>) returns (expired: seq<Entry>, next: Time, held: bool)
      requires Valid()
      modifies this
      ensures given <= expired
      ensures forall i, j :: |given| <= i < j < |expired| ==>
                expired[i].at < expired[j].at || (expired[i].at == expired[j].at && expired[i].who < expired[j].who)
      ensures forall e :: e in expired[|given|..] <==>
                e.who < SENTINEL && e.who in old(active) && old(active)[e.who] == e.at && e.at <= now
      ensures Sorted(timers) && Inverse(timers, Later(old(active), now))
      ensures held <==> given == []
      ensures Valid() <==> forall e :: e in given && e.who in old(active) ==> old(active)[e.who] <= now
      ensures forall p :: p in active <==>
                p in old(active) && now < old(active)[p] && forall e :: e in given ==> e.who != p
      ensures forall p :: p in active ==> active[p] == old(active)[p]
      ensures given == [] ==> active == Later(old(active), now)
      ensures IsNext(Later(old(active), now), next)
    {
      ghost var s, m := timers, active;
      var k := LowerBound(timers, Entry(now, SENTINEL), 0);
      SentinelCuts(s, m, now, k);
      PartsSorted(s, k);
      RestIsLater(s, m, now, k);
      expired := given + timers[..k];
      assert expired[|given|..] == s[..k];
      timers := timers[k..];
      held := EraseAll(expired);
      held := held && |timers| == |active|;
      EmptyVectorExactly(s, m, now, given, k);
      StaysInverseExactly(s, m, now, given, k);
      LeftInMap(s, m, now, given, k);
      next := GetNextTime(Later(m, now));
    }
  }

  // ---- Over whole runs ----

  datatype Call = Add(at: Time, ent: Ptr) | Cancel(ent: Ptr) | Expire(now: Time)

  /** The map after the first n calls, by what each call does to it. */
  function After(calls: seq<Call>, n: nat): Deadlines
    requires n <= |calls|
  {
    if n == 0 then map[]
    else
      var m := After(calls, n - 1);
      match calls[n - 1]
      case Add(at, ent) => m[ent := at]
      case Cancel(ent) => m - {ent}
      case Expire(now) => Later(m, now)
  }

  /** A call that ends what an earlier Add of `p` for time `at` began. */
  predicate Ends(c: Call, p: Ptr, at: Time) {
    match c
    case Add(_, ent) => ent == p
    case Cancel(ent) => ent == p
    case Expire(now) => at <= now
  }

  /** Call j adds `p` for time `at`, and no call after it and before n ends that. */
  predicate Stands(calls: seq<Call>, j: nat, n: nat, p: Ptr, at: Time)
    requires j < n <= |calls|
  {
    calls[j] == Add(at, p) && forall i :: j < i < n ==> !Ends(calls[i], p, at)
  }

  lemma {:induction false} HeldExactly(calls: seq<Call>, n: nat, p: Ptr, at: Time)
    requires n <= |calls|
    ensures p in After(calls, n) && After(calls, n)[p] == at <==> exists j :: 0 <= j < n && Stands(calls, j, n, p, at)
  {
    if n > 0 {
      HeldExactly(calls, n - 1, p, at);
      var m := After(calls, n - 1);
      forall j | 0 <= j < n - 1
        ensures Stands(calls, j, n, p, at) <==> Stands(calls, j, n - 1, p, at) && !Ends(calls[n - 1], p, at)
      {
      }
      if p in m && m[p] == at && !Ends(calls[n - 1], p, at) {
        var j :| 0 <= j < n - 1 && Stands(calls, j, n - 1, p, at);
        assert Stands(calls, j, n, p, at);
      }
      if calls[n - 1] == Add(at, p) {
        assert Stands(calls, n - 1, n, p, at);
      }
    }
  }

  /** GetExpired as call n reports `p` with deadline `at`. */
  ghost predicate Reports(calls: seq<Call>, n: nat, p: Ptr, at: Time)
    requires n < |calls|
  {
    calls[n].Expire? && p in After(calls, n) && After(calls, n)[p] == at && at <= calls[n].now
  }

  /**
   Over every run: a call of GetExpired reports an object exactly if its last Add is not
   cancelled, is due, and was due at no GetExpired since.
   */
  lemma ReportsExactly(calls: seq<Call>, n: nat, p: Ptr, at: Time)
    requires n < |calls|
    ensures Reports(calls, n, p, at) <==>
            calls[n].Expire? && at <= calls[n].now && exists j :: 0 <= j < n && Stands(calls, j, n, p, at)
  {
    HeldExactly(calls, n, p, at);
  }

  /** Between two reports of one object there is another Add of it. */
  lemma ReportedOnce(calls: seq<Call>, n: nat, later: nat, p: Ptr, at: Time, at': Time)
    requires n < later < |calls| && Reports(calls, n, p, at) && Reports(calls, later, p, at')
    ensures exists j :: n < j < later && calls[j] == Add(at', p)
  {
    HeldExactly(calls, later, p, at');
    var j :| 0 <= j < later && Stands(calls, j, later, p, at');
    assert Ends(calls[n], p, at);
    if j < n {
      assert Stands(calls, j, n, p, at');
      HeldExactly(calls, n, p, at');
    }
  }
}
