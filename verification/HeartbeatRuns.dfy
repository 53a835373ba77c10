/**
 Runs of collections with changes between them, and the lists they return: whoever stays
 in the set waits while nobody is collected twice, and not for long.
 */
module HeartbeatRuns {
  import opened Numbers
  import opened ObjectRing
  import opened HeartbeatShare
  import opened ChangeList
  import opened ObjectManager

  // ---- Runs of ring events ----

  /** The objects that the visits among the events go to, in order. */
  function VisitedBy(r: Ring, es: seq<Event>): seq<Ptr>
    decreases |es|
  {
    if es == [] then []
    else (if es[0].Visited? && r.objs != [] then [Upcoming(r)] else []) + VisitedBy(Apply(r, es[0]), es[1..])
  }

  lemma {:induction false} ApplyJoin(r: Ring, es: seq<Event>, fs: seq<Event>)
    ensures ApplyAll(r, es + fs) == ApplyAll(ApplyAll(r, es), fs)
    decreases |es|
  {
    if es == [] {
      assert es + fs == fs;
    } else {
      ghost var all := es + fs;
      assert all[0] == es[0] && all[1..] == es[1..] + fs;
      ApplyJoin(Apply(r, es[0]), es[1..], fs);
    }
  }

  lemma {:induction false} VisitsJoin(r: Ring, es: seq<Event>, fs: seq<Event>)
    ensures VisitedBy(r, es + fs) == VisitedBy(r, es) + VisitedBy(ApplyAll(r, es), fs)
    decreases |es|
  {
    if es == [] {
      assert es + fs == fs;
    } else {
      ghost var all := es + fs;
      assert all[0] == es[0] && all[1..] == es[1..] + fs;
      VisitsJoin(Apply(r, es[0]), es[1..], fs);
    }
  }

  lemma {:induction false} LegalJoin(r: Ring, es: seq<Event>, fs: seq<Event>)
    ensures AllLegal(r, es + fs) <==> AllLegal(r, es) && AllLegal(ApplyAll(r, es), fs)
    decreases |es|
  {
    if es == [] {
      assert es + fs == fs;
    } else {
      ghost var all := es + fs;
      assert all[0] == es[0] && all[1..] == es[1..] + fs;
      LegalJoin(Apply(r, es[0]), es[1..], fs);
    }
  }

  lemma EventsJoin(r: Ring, es: seq<Event>, fs: seq<Event>)
    ensures ApplyAll(r, es + fs) == ApplyAll(ApplyAll(r, es), fs)
    ensures VisitedBy(r, es + fs) == VisitedBy(r, es) + VisitedBy(ApplyAll(r, es), fs)
    ensures AllLegal(r, es + fs) <==> AllLegal(r, es) && AllLegal(ApplyAll(r, es), fs)
  {
    ApplyJoin(r, es, fs);
    VisitsJoin(r, es, fs);
    LegalJoin(r, es, fs);
  }

  /** The object is in the set and none of the events deletes it. */
  ghost predicate Stays(r: Ring, es: seq<Event>, o: Ptr) {
    o in r.objs && Deleted(o) !in es
  }

  /** The successor of a member does not lie beyond another member above it. */
  lemma NextMember(s: seq<Ptr>, p: Ptr, o: Ptr)
    requires IsSet(s) && p in s && o in s && p != o
    ensures var next := At(s, Position(s, p) + 1);
            Position(s, p) < |s| && if p < o then p < next <= o else next == NULL || p < next
  {
    PositionFinds(s, p);
    PositionFinds(s, o);
    ghost var i, j := Position(s, p), Position(s, o);
    if i < j {
      assert i + 1 == j || s[i + 1] < s[j];
    }
  }

  /** The cursor goes from `c` to `d` without jumping over `o`. */
  predicate StopsBefore(c: Ptr, d: Ptr, o: Ptr) {
    d == c || (c != NULL && c < o && c < d <= o) || (o < c && (d == NULL || c < d))
  }

  lemma DeleteStops(r: Ring, p: Ptr, o: Ptr)
    requires Sound(r) && p in r.objs && o in r.objs && p != o
    ensures StopsBefore(r.cur, Delete(r, p).cur, o)
  {
    if r.cur == p { NextMember(r.objs, p, o); }
  }

  lemma VisitStops(r: Ring, o: Ptr)
    requires Sound(r) && o in r.objs && Upcoming(r) != o
    ensures StopsBefore(Upcoming(r), Visit(r).cur, o)
  {
    VisitSound(r);
    NextMember(r.objs, Upcoming(r), o);
  }

  /** No step makes the cursor jump over an object that stays. */
  lemma StepsTo(r: Ring, e: Event, o: Ptr)
    requires Sound(r) && Legal(r, e) && o in r.objs && e != Deleted(o)
    requires e.Visited? ==> Upcoming(r) != o
    ensures Sound(Apply(r, e)) && o in Apply(r, e).objs
    ensures StopsBefore(if e.Visited? then Upcoming(r) else r.cur, Apply(r, e).cur, o)
  {
    StepElements(r, e);
    match e
    case Inserted(_) =>
    case Deleted(p) => DeleteStops(r, p, o);
    case Visited => VisitStops(r, o);
  }

  // ---- While somebody waits, nobody is visited twice ----

  /** Going around from the cursor one meets `o` before `p`. */
  ghost predicate MeetsFirst(r: Ring, o: Ptr, p: Ptr) {
    if p < o then p < r.cur <= o else r.cur == NULL || r.cur <= o || p < r.cur
  }

  lemma {:induction false} NotBefore(r: Ring, es: seq<Event>, o: Ptr, p: Ptr)
    requires Sound(r) && AllLegal(r, es) && Stays(r, es, o) && o != p && MeetsFirst(r, o, p)
    ensures o in VisitedBy(r, es) || p !in VisitedBy(r, es)
    decreases |es|
  {
    if es != [] && o !in VisitedBy(r, es) {
      StepsTo(r, es[0], o);
      NotBefore(Apply(r, es[0]), es[1..], o, p);
    }
  }

  ghost predicate NoRepeats(v: seq<Ptr>) {
    forall i, j :: 0 <= i < j < |v| ==> v[i] != v[j]
  }

  lemma VisitThenRest(r: Ring, es: seq<Event>, o: Ptr, rest: seq<Ptr>)
    requires Sound(r) && r.objs != [] && AllLegal(Visit(r), es) && Stays(r, es, o) && Upcoming(r) != o
    requires rest == VisitedBy(Visit(r), es) && NoRepeats(rest)
    ensures o in rest || NoRepeats([Upcoming(r)] + rest)
  {
    if o !in rest {
      VisitSound(r);
      NotBefore(Visit(r), es, o, Upcoming(r));
    }
  }

  /**
   However inserts, removals and visits are mixed: as long as an object that stays in
   the set is not visited, no other object is visited twice.
   */
  lemma {:induction false} NobodyTwice(r: Ring, es: seq<Event>, o: Ptr)
    requires Sound(r) && AllLegal(r, es) && Stays(r, es, o)
    ensures o in VisitedBy(r, es) || NoRepeats(VisitedBy(r, es))
    decreases |es|
  {
    if es != [] && o !in VisitedBy(r, es) {
      StepsTo(r, es[0], o);
      NobodyTwice(Apply(r, es[0]), es[1..], o);
      if es[0].Visited? {
        VisitThenRest(r, es[1..], o, VisitedBy(Visit(r), es[1..]));
      }
    }
  }

  // ---- And nobody waits for long ----

  /** No address is above `top`. */
  ghost predicate Below(r: Ring, es: seq<Event>, top: Ptr) {
    && (forall i :: 0 <= i < |r.objs| ==> r.objs[i] <= top)
    && (forall p: Ptr :: Inserted(p) in es ==> p <= top)
  }

  /** How far the cursor is from `o`, in addresses, going upwards and around. */
  function Distance(r: Ring, o: Ptr, top: Ptr): int {
    if r.cur == NULL then o - 1 else if r.cur <= o then o - r.cur else o + top - r.cur
  }

  lemma BelowStep(r: Ring, es: seq<Event>, top: Ptr)
    requires Sound(r) && AllLegal(r, es) && es != [] && Below(r, es, top)
    ensures Below(Apply(r, es[0]), es[1..], top)
  {
    StepElements(r, es[0]);
    ghost var t := Apply(r, es[0]);
    forall i | 0 <= i < |t.objs| ensures t.objs[i] <= top {
      assert t.objs[i] in t.objs;
    }
  }

  /** The visits of a run that does not reach `o` are paid for by the way towards it. */
  lemma {:induction false} VisitsPaid(r: Ring, es: seq<Event>, o: Ptr, top: Ptr)
    requires Sound(r) && AllLegal(r, es) && Stays(r, es, o) && Below(r, es, top)
    ensures o in VisitedBy(r, es) ||
            |VisitedBy(r, es)| + Distance(ApplyAll(r, es), o, top) <= Distance(r, o, top)
    ensures o in VisitedBy(r, es) || Distance(ApplyAll(r, es), o, top) >= 0
    decreases |es|
  {
    if es != [] && o !in VisitedBy(r, es) {
      assert o != NULL;
      StepsTo(r, es[0], o);
      BelowStep(r, es, top);
      VisitsPaid(Apply(r, es[0]), es[1..], o, top);
    }
  }

  // ---- Runs of collections ----

  /** One collection: the changes counted since the last one, and who is idle then. */
  datatype Round = Round(changes: Changes, idle: set<Ptr>)

  ghost function Changed(r: Ring, round: Round): Ring {
    ApplyAll(r, ChangeEvents(round.changes))
  }

  /** What the collections visit, one after the other. */
  ghost function Visits(hb: nat, r: Ring, heart: nat, rounds: seq<Round>): seq<Ptr>
    requires hb > 0
    decreases |rounds|
  {
    if rounds == [] then []
    else
      var t := Changed(r, rounds[0]);
      TickVisits(hb, t, heart) + Visits(hb, TickRing(hb, t, heart), TickResidue(hb, t, heart), rounds[1..])
  }

  /** The lists they return, one after the other. */
  ghost function Lists(hb: nat, r: Ring, heart: nat, rounds: seq<Round>): seq<Ptr>
    requires hb > 0
    decreases |rounds|
  {
    if rounds == [] then []
    else
      var t := Changed(r, rounds[0]);
      Awake(TickVisits(hb, t, heart), rounds[0].idle) +
      Lists(hb, TickRing(hb, t, heart), TickResidue(hb, t, heart), rounds[1..])
  }

  /** A run of one collection returns what CollectHeartbeatObject does. */
  lemma OneCollection(hb: nat, d: Deferred, heart: nat, idle: set<Ptr>)
    requires hb > 0
    ensures Lists(hb, d.ring, heart, [Round(d.changes, idle)]) ==
            Awake(TickVisits(hb, RunDeferred(d, [ChangeCall]).ring, heart), idle)
  {
    ghost var round := Round(d.changes, idle);
    assert [round][1..] == [];
    ghost var t := Changed(d.ring, round);
    assert Lists(hb, TickRing(hb, t, heart), TickResidue(hb, t, heart), [round][1..]) == [];
  }

  /** The change list of each collection passes its assertions. */
  ghost predicate AllAsserted(hb: nat, r: Ring, heart: nat, rounds: seq<Round>)
    requires hb > 0
    decreases |rounds|
  {
    rounds == [] ||
    (&& Asserted(r, rounds[0].changes)
     && var t := Changed(r, rounds[0]);
        AllAsserted(hb, TickRing(hb, t, heart), TickResidue(hb, t, heart), rounds[1..]))
  }

  /** The ring events of a tick and of a whole run. */
  function TickEvents(hb: nat, r: Ring, heart: nat): seq<Event>
    requires hb > 0
  {
    if r.objs == [] then [] else Repeated(Share(hb, heart, |r.objs|))
  }

  ghost function RunEvents(hb: nat, r: Ring, heart: nat, rounds: seq<Round>): seq<Event>
    requires hb > 0
    decreases |rounds|
  {
    if rounds == [] then []
    else
      var t := Changed(r, rounds[0]);
      ChangeEvents(rounds[0].changes) + TickEvents(hb, t, heart) +
      RunEvents(hb, TickRing(hb, t, heart), TickResidue(hb, t, heart), rounds[1..])
  }

  lemma {:induction false} ChangesAre(changes: Changes, e: Event)
    requires e in ChangeEvents(changes)
    ensures !e.Visited? && e.o in changes && (e.Deleted? ==> changes[e.o] < 0)
    decreases |changes.Keys|
  {
    ghost var o := Least(changes.Keys);
    EventsUnfold(changes, o);
    if e in ChangeEvents(changes - {o}) {
      ChangesAre(changes - {o}, e);
    }
  }

  lemma {:induction false} NoVisits(r: Ring, es: seq<Event>)
    requires Visited !in es
    ensures VisitedBy(r, es) == []
    decreases |es|
  {
    if es != [] {
      NoVisits(Apply(r, es[0]), es[1..]);
    }
  }

  lemma {:induction false} RepeatedVisits(r: Ring, k: nat)
    requires Sound(r) && r.objs != []
    ensures VisitedBy(r, Repeated(k)) == VisitsOf(r, k)
    decreases k
  {
    if k > 0 {
      assert Repeated(k)[1..] == Repeated(k - 1);
      VisitSound(r);
      RepeatedVisits(Visit(r), k - 1);
    }
  }

  lemma TickIsEvents(hb: nat, r: Ring, heart: nat)
    requires hb > 0 && Sound(r)
    ensures VisitedBy(r, TickEvents(hb, r, heart)) == TickVisits(hb, r, heart)
    ensures ApplyAll(r, TickEvents(hb, r, heart)) == TickRing(hb, r, heart)
    ensures AllLegal(r, TickEvents(hb, r, heart)) && Sound(TickRing(hb, r, heart))
  {
    TickIsVisits(hb, r, heart);
    if r.objs != [] {
      ghost var k := Share(hb, heart, |r.objs|);
      WalkIsVisits(r, k);
      RepeatedVisits(r, k);
    }
  }

  lemma ChangesSound(r: Ring, round: Round)
    requires Sound(r) && Asserted(r, round.changes)
    ensures Sound(Changed(r, round)) && VisitedBy(r, ChangeEvents(round.changes)) == []
  {
    AssertionsExactly(r, round.changes);
    BalancedApplies(r, round.changes);
    if Visited in ChangeEvents(round.changes) { ChangesAre(round.changes, Visited); }
    NoVisits(r, ChangeEvents(round.changes));
  }

  lemma ThreeParts(r: Ring, a: seq<Event>, s: Ring, b: seq<Event>, t: Ring, c: seq<Event>)
    requires s == ApplyAll(r, a) && t == ApplyAll(s, b)
    ensures VisitedBy(r, a + b + c) == VisitedBy(r, a) + VisitedBy(s, b) + VisitedBy(t, c)
    ensures AllLegal(r, a + b + c) <==> AllLegal(r, a) && AllLegal(s, b) && AllLegal(t, c)
  {
    EventsJoin(r, a, b);
    EventsJoin(r, a + b, c);
  }

  /** A run of collections is a run of ring events, and visits what those visit. */
  lemma {:induction false} RunIsEvents(hb: nat, r: Ring, heart: nat, rounds: seq<Round>)
    requires hb > 0 && Sound(r) && AllAsserted(hb, r, heart, rounds)
    ensures VisitedBy(r, RunEvents(hb, r, heart, rounds)) == Visits(hb, r, heart, rounds)
    ensures AllLegal(r, RunEvents(hb, r, heart, rounds))
    decreases |rounds|
  {
    if rounds != [] {
      ghost var t := Changed(r, rounds[0]);
      ghost var changes, tick := ChangeEvents(rounds[0].changes), TickEvents(hb, t, heart);
      ghost var next, left := TickRing(hb, t, heart), TickResidue(hb, t, heart);
      ChangesSound(r, rounds[0]);
      TickIsEvents(hb, t, heart);
      RunIsEvents(hb, next, left, rounds[1..]);
      ghost var rest := RunEvents(hb, next, left, rounds[1..]);
      ThreeParts(r, changes, t, tick, next, rest);
      assert RunEvents(hb, r, heart, rounds) == changes + tick + rest;
      assert [] + VisitedBy(t, tick) == VisitedBy(t, tick);
    }
  }

  /** No collection of the run removes `o`. */
  ghost predicate Kept(rounds: seq<Round>, o: Ptr) {
    forall i :: 0 <= i < |rounds| && o in rounds[i].changes ==> rounds[i].changes[o] >= 0
  }

  ghost predicate NeverIdle(rounds: seq<Round>, o: Ptr) {
    forall i :: 0 <= i < |rounds| ==> o !in rounds[i].idle
  }

  /** No address in the set or in the changes is above `top`. */
  ghost predicate Addresses(r: Ring, rounds: seq<Round>, top: Ptr) {
    && (forall i :: 0 <= i < |r.objs| ==> r.objs[i] <= top)
    && (forall i, p :: 0 <= i < |rounds| && p in rounds[i].changes ==> p <= top)
  }

  /** What the events of a run are about. */
  lemma {:induction false} EventsAre(hb: nat, r: Ring, heart: nat, rounds: seq<Round>, e: Event)
    requires hb > 0 && e in RunEvents(hb, r, heart, rounds) && !e.Visited?
    ensures exists i :: 0 <= i < |rounds| && e.o in rounds[i].changes && (e.Deleted? ==> rounds[i].changes[e.o] < 0)
    decreases |rounds|
  {
    ghost var t := Changed(r, rounds[0]);
    ghost var rest := RunEvents(hb, TickRing(hb, t, heart), TickResidue(hb, t, heart), rounds[1..]);
    if e in ChangeEvents(rounds[0].changes) {
      ChangesAre(rounds[0].changes, e);
    } else {
      assert e !in TickEvents(hb, t, heart);
      assert e in rest;
      EventsAre(hb, TickRing(hb, t, heart), TickResidue(hb, t, heart), rounds[1..], e);
      var i :| 0 <= i < |rounds[1..]| && e.o in rounds[1..][i].changes
               && (e.Deleted? ==> rounds[1..][i].changes[e.o] < 0);
      assert rounds[i + 1] == rounds[1..][i];
    }
  }

  lemma KeptStays(hb: nat, r: Ring, heart: nat, rounds: seq<Round>, o: Ptr)
    requires hb > 0 && o in r.objs && Kept(rounds, o)
    ensures Stays(r, RunEvents(hb, r, heart, rounds), o)
  {
    if Deleted(o) in RunEvents(hb, r, heart, rounds) {
      EventsAre(hb, r, heart, rounds, Deleted(o));
    }
  }

  lemma AddressesBelow(hb: nat, r: Ring, heart: nat, rounds: seq<Round>, top: Ptr)
    requires hb > 0 && Addresses(r, rounds, top)
    ensures Below(r, RunEvents(hb, r, heart, rounds), top)
  {
    forall p: Ptr | Inserted(p) in RunEvents(hb, r, heart, rounds) ensures p <= top {
      EventsAre(hb, r, heart, rounds, Inserted(p));
    }
  }

  // ---- From visits to lists ----

  lemma AwakeHas(visits: seq<Ptr>, idle: set<Ptr>, o: Ptr)
    ensures o in Awake(visits, idle) <==> o in visits && o !in idle
  {
    AwakeExactly(visits, idle, o);
    assert o in Awake(visits, idle) <==> multiset(Awake(visits, idle))[o] > 0;
    assert o in visits <==> multiset(visits)[o] > 0;
  }

  lemma {:induction false} ListsHave(hb: nat, r: Ring, heart: nat, rounds: seq<Round>, o: Ptr)
    requires hb > 0
    ensures o in Lists(hb, r, heart, rounds) ==> o in Visits(hb, r, heart, rounds)
    ensures o in Visits(hb, r, heart, rounds) && NeverIdle(rounds, o) ==> o in Lists(hb, r, heart, rounds)
    decreases |rounds|
  {
    if rounds != [] {
      ghost var t := Changed(r, rounds[0]);
      AwakeHas(TickVisits(hb, t, heart), rounds[0].idle, o);
      ListsHave(hb, TickRing(hb, t, heart), TickResidue(hb, t, heart), rounds[1..], o);
    }
  }

  lemma {:induction false} AwakeDistinct(visits: seq<Ptr>, idle: set<Ptr>)
    requires NoRepeats(visits)
    ensures NoRepeats(Awake(visits, idle))
    decreases |visits|
  {
    if visits != [] {
      ghost var n := |visits| - 1;
      AwakeDistinct(visits[..n], idle);
      AwakeHas(visits[..n], idle, visits[n]);
    }
  }

  lemma DistinctParts(a: seq<Ptr>, b: seq<Ptr>)
    requires NoRepeats(a + b)
    ensures NoRepeats(a) && NoRepeats(b) && forall o :: o in a ==> o !in b
  {
    ghost var c := a + b;
    assert forall i :: 0 <= i < |a| ==> c[i] == a[i];
    forall i, j | 0 <= i < |a| && 0 <= j < |b| ensures a[i] != b[j] {
      assert c[|a| + j] == b[j] && c[i] != c[|a| + j];
    }
    forall i, j | 0 <= i < j < |b| ensures b[i] != b[j] {
      assert c[|a| + i] == b[i] && c[|a| + j] == b[j];
    }
  }

  lemma DistinctJoin(a: seq<Ptr>, b: seq<Ptr>)
    requires NoRepeats(a) && NoRepeats(b) && forall o :: o in a ==> o !in b
    ensures NoRepeats(a + b)
  {
    ghost var c := a + b;
    forall i, j | 0 <= i < j < |c| ensures c[i] != c[j] {
      assert c[i] == (if i < |a| then a[i] else b[i - |a|]);
      assert c[j] == (if j < |a| then a[j] else b[j - |a|]);
      if i < |a| { assert a[i] in a; }
    }
  }

  lemma {:induction false} ListsDistinct(hb: nat, r: Ring, heart: nat, rounds: seq<Round>)
    requires hb > 0 && NoRepeats(Visits(hb, r, heart, rounds))
    ensures NoRepeats(Lists(hb, r, heart, rounds))
    decreases |rounds|
  {
    if rounds != [] {
      ghost var t := Changed(r, rounds[0]);
      ghost var next, left := TickRing(hb, t, heart), TickResidue(hb, t, heart);
      ghost var v, w := TickVisits(hb, t, heart), Visits(hb, next, left, rounds[1..]);
      DistinctParts(v, w);
      AwakeDistinct(v, rounds[0].idle);
      ListsDistinct(hb, next, left, rounds[1..]);
      ghost var a, b := Awake(v, rounds[0].idle), Lists(hb, next, left, rounds[1..]);
      forall o | o in a ensures o !in b {
        AwakeHas(v, rounds[0].idle, o);
        ListsHave(hb, next, left, rounds[1..], o);
      }
      DistinctJoin(a, b);
    }
  }

  /**
   Fairness under changes: over every run of collections, as long as an object that
   stays in the set and is not idle is in none of the lists, nobody is in them twice.
   */
  lemma NobodyCollectedTwice(hb: nat, r: Ring, heart: nat, rounds: seq<Round>, o: Ptr)
    requires hb > 0 && Sound(r) && AllAsserted(hb, r, heart, rounds)
    requires o in r.objs && Kept(rounds, o) && NeverIdle(rounds, o)
    ensures o in Lists(hb, r, heart, rounds) || NoRepeats(Lists(hb, r, heart, rounds))
  {
    RunIsEvents(hb, r, heart, rounds);
    KeptStays(hb, r, heart, rounds, o);
    ListsHave(hb, r, heart, rounds, o);
    if o !in Visits(hb, r, heart, rounds) {
      NobodyTwice(r, RunEvents(hb, r, heart, rounds), o);
      ListsDistinct(hb, r, heart, rounds);
    }
  }

  // ---- Counting visits ----

  lemma TickCounts(hb: nat, r: Ring, heart: nat)
    requires hb > 0 && r.objs != []
    ensures hb * |TickVisits(hb, r, heart)| + TickResidue(hb, r, heart) == heart + |r.objs|
    ensures TickResidue(hb, r, heart) < hb
  {
  }

  lemma OneMoreTick(hb: nat, heart: nat, n: nat, a: nat, left: nat, b: nat, ticks: nat)
    requires n > 0 && hb * a + left == heart + n && hb * b + hb > left + ticks
    ensures hb * (a + b) + hb > heart + ticks + 1
  {
  }

  /** While somebody is in the set, each collection brings the next visit nearer. */
  lemma {:induction false} EnoughVisits(hb: nat, r: Ring, heart: nat, rounds: seq<Round>, o: Ptr)
    requires hb > heart && Sound(r) && AllAsserted(hb, r, heart, rounds) && o in r.objs && Kept(rounds, o)
    ensures hb * |Visits(hb, r, heart, rounds)| + hb > heart + |rounds|
    decreases |rounds|
  {
    if rounds == [] {
      assert hb * |Visits(hb, r, heart, rounds)| == 0;
    } else {
      ghost var t := Changed(r, rounds[0]);
      ghost var next, left := TickRing(hb, t, heart), TickResidue(hb, t, heart);
      ChangesSound(r, rounds[0]);
      StaysThroughChanges(r, rounds[0], o);
      TickIsVisits(hb, t, heart);
      TickCounts(hb, t, heart);
      EnoughVisits(hb, next, left, rounds[1..], o);
      ghost var a, b := |TickVisits(hb, t, heart)|, |Visits(hb, next, left, rounds[1..])|;
      OneMoreTick(hb, heart, |t.objs|, a, left, b, |rounds[1..]|);
      assert |Visits(hb, r, heart, rounds)| == a + b;
    }
  }

  lemma StaysThroughChanges(r: Ring, round: Round, o: Ptr)
    requires Sound(r) && Asserted(r, round.changes) && o in r.objs
    requires o in round.changes ==> round.changes[o] >= 0
    ensures o in Changed(r, round).objs
  {
    AssertionsExactly(r, round.changes);
    BalancedApplies(r, round.changes);
    assert Member(Changed(r, round), o) == Member(r, o) + Pending(round.changes, o);
  }

  /**
   No starvation: with addresses up to `top`, an object that stays in the set and is not
   idle is collected within `hb * top` collections, whatever is inserted and removed.
   */
  lemma NoStarvation(hb: nat, r: Ring, heart: nat, rounds: seq<Round>, o: Ptr, top: Ptr)
    requires hb > heart && Sound(r) && AllAsserted(hb, r, heart, rounds)
    requires o in r.objs && Kept(rounds, o) && NeverIdle(rounds, o)
    requires Addresses(r, rounds, top)
    ensures |rounds| >= hb * top ==> o in Lists(hb, r, heart, rounds)
  {
    ghost var es := RunEvents(hb, r, heart, rounds);
    RunIsEvents(hb, r, heart, rounds);
    KeptStays(hb, r, heart, rounds, o);
    AddressesBelow(hb, r, heart, rounds, top);
    ListsHave(hb, r, heart, rounds, o);
    if |rounds| >= hb * top && o !in Visits(hb, r, heart, rounds) {
      VisitsPaid(r, es, o, top);
      EnoughVisits(hb, r, heart, rounds, o);
      TooFew(hb, heart, |Visits(hb, r, heart, rounds)|, |rounds|, top);
    }
  }

  lemma TooFew(hb: nat, heart: nat, n: nat, rounds: nat, top: nat)
    requires n < top && rounds >= hb * top
    ensures !(hb * n + hb > heart + rounds)
  {
    TimesMonotone(hb, n + 1, top);
  }

  // ---- How many visits a run makes ----

  /** The set after the changes counted for one collection. */
  ghost function Applied(s: set<Ptr>, changes: Changes): set<Ptr> {
    s - (set o | o in changes && changes[o] < 0) + (set o | o in changes && changes[o] > 0)
  }

  /** The sizes of the sets that the collections find, added up. */
  ghost function Found(s: set<Ptr>, rounds: seq<Round>): nat
    decreases |rounds|
  {
    if rounds == [] then 0
    else |Applied(s, rounds[0].changes)| + Found(Applied(s, rounds[0].changes), rounds[1..])
  }

  /** No collection finds the set empty. */
  ghost predicate NeverEmpty(s: set<Ptr>, rounds: seq<Round>)
    decreases |rounds|
  {
    rounds == [] ||
    (Applied(s, rounds[0].changes) != {} && NeverEmpty(Applied(s, rounds[0].changes), rounds[1..]))
  }

  lemma {:induction false} SetSize(s: seq<Ptr>)
    requires Increasing(s)
    ensures |Elements(s)| == |s|
    decreases |s|
  {
    if s == [] {
      assert Elements(s) == {};
    } else {
      SetSize(s[1..]);
      assert s[0] !in s[1..];
      assert Elements(s) == Elements(s[1..]) + {s[0]};
    }
  }

  lemma ChangedSet(r: Ring, round: Round)
    requires Sound(r) && Asserted(r, round.changes)
    ensures Sound(Changed(r, round))
    ensures Elements(Changed(r, round).objs) == Applied(Elements(r.objs), round.changes)
    ensures |Changed(r, round).objs| == |Applied(Elements(r.objs), round.changes)|
  {
    ghost var t := Changed(r, round);
    AssertionsExactly(r, round.changes);
    BalancedApplies(r, round.changes);
    forall o ensures o in Elements(t.objs) <==> o in Applied(Elements(r.objs), round.changes) {
      assert Member(t, o) == Member(r, o) + Pending(round.changes, o);
    }
    SetSize(t.objs);
  }

  /** Every collection of a set pays what its objects bring in, and keeps less than one visit's worth. */
  lemma {:induction false} VisitsPaidFor(hb: nat, r: Ring, heart: nat, rounds: seq<Round>) returns (left: nat)
    requires hb > heart && Sound(r) && AllAsserted(hb, r, heart, rounds) && NeverEmpty(Elements(r.objs), rounds)
    ensures hb * |Visits(hb, r, heart, rounds)| + left == heart + Found(Elements(r.objs), rounds) && left < hb
    decreases |rounds|
  {
    if rounds == [] {
      left := heart;
      assert hb * |Visits(hb, r, heart, rounds)| == 0;
    } else {
      ghost var t := Changed(r, rounds[0]);
      ghost var next, kept := TickRing(hb, t, heart), TickResidue(hb, t, heart);
      ChangedSet(r, rounds[0]);
      assert t.objs != [];
      TickIsVisits(hb, t, heart);
      TickCounts(hb, t, heart);
      left := VisitsPaidFor(hb, next, kept, rounds[1..]);
      ghost var a, b := |TickVisits(hb, t, heart)|, |Visits(hb, next, kept, rounds[1..])|;
      assert |Visits(hb, r, heart, rounds)| == a + b;
      Distribute(hb, a, b);
    }
  }

  lemma Distribute(hb: nat, a: nat, b: nat)
    ensures hb * (a + b) == hb * a + hb * b
  {
  }

  /**
   While no collection finds the set empty, the visits of a run are the whole part, in
   units of `hb`, of what was left over and the sizes of all the sets found.
   */
  lemma VisitsExactly(hb: nat, r: Ring, heart: nat, rounds: seq<Round>)
    requires hb > heart && Sound(r) && AllAsserted(hb, r, heart, rounds) && NeverEmpty(Elements(r.objs), rounds)
    ensures var paid := hb * |Visits(hb, r, heart, rounds)|;
            paid <= heart + Found(Elements(r.objs), rounds) < paid + hb
  {
    ghost var left := VisitsPaidFor(hb, r, heart, rounds);
  }

  /** A collection of an empty set visits nobody and leaves nothing over. */
  lemma EmptyRound(hb: nat, r: Ring, heart: nat, empty: Round, rounds: seq<Round>, all: seq<Round>)
    requires hb > 0 && Sound(r) && all == [empty] + rounds && AllAsserted(hb, r, heart, all)
    requires Applied(Elements(r.objs), empty.changes) == {}
    ensures Visits(hb, r, heart, all) == Visits(hb, Ring([], NULL), 0, rounds)
    ensures AllAsserted(hb, Ring([], NULL), 0, rounds)
  {
    ghost var t := Changed(r, empty);
    assert all[0] == empty && all[1..] == rounds;
    ChangedSet(r, empty);
    ghost var rest := Visits(hb, Ring([], NULL), 0, rounds);
    assert TickVisits(hb, t, heart) == [] && [] + rest == rest;
  }

  /**
   A collection that finds the set empty visits nobody and forfeits what was left over:
   the visits after it are paid by the sets found after it alone.
   */
  lemma EmptyForfeits(hb: nat, r: Ring, heart: nat, empty: Round, rounds: seq<Round>)
    requires hb > 0 && Sound(r) && AllAsserted(hb, r, heart, [empty] + rounds)
    requires Applied(Elements(r.objs), empty.changes) == {} && NeverEmpty({}, rounds)
    ensures var paid := hb * |Visits(hb, r, heart, [empty] + rounds)|;
            paid <= Found({}, rounds) < paid + hb
  {
    EmptyRound(hb, r, heart, empty, rounds, [empty] + rounds);
    ghost var none: seq<Ptr> := [];
    assert Elements(none) == {};
    VisitsExactly(hb, Ring(none, NULL), 0, rounds);
  }

  /** Collections between which nothing changes. */
  lemma {:induction false} FoundUnchanged(s: set<Ptr>, rounds: seq<Round>)
    requires forall i :: 0 <= i < |rounds| ==> rounds[i].changes == map[]
    ensures Found(s, rounds) == |s| * |rounds| && (s != {} ==> NeverEmpty(s, rounds))
    decreases |rounds|
  {
    if rounds == [] {
      assert |s| * |rounds| == 0;
    } else {
      assert Applied(s, rounds[0].changes) == s;
      FoundUnchanged(s, rounds[1..]);
      Distribute(|s|, 1, |rounds[1..]|);
    }
  }

  lemma FoundFresh(first: Round, later: seq<Round>, rounds: seq<Round>, s: set<Ptr>)
    requires rounds == [first] + later && s == Applied({}, first.changes) != {}
    requires forall i :: 0 <= i < |later| ==> later[i].changes == map[]
    ensures Found({}, rounds) == |s| * |rounds| && NeverEmpty({}, rounds)
  {
    assert rounds[0] == first && rounds[1..] == later;
    FoundUnchanged(s, later);
    Distribute(|s|, 1, |later|);
  }

  /** After the set was empty, t collections of the n objects inserted then make n * t / hb visits, rounded down. */
  lemma FreshStart(hb: nat, r: Ring, heart: nat, empty: Round, first: Round, later: seq<Round>, rounds: seq<Round>)
    requires hb > 0 && Sound(r) && rounds == [first] + later && AllAsserted(hb, r, heart, [empty] + rounds)
    requires Applied(Elements(r.objs), empty.changes) == {} && Applied({}, first.changes) != {}
    requires forall i :: 0 <= i < |later| ==> later[i].changes == map[]
    ensures var paid := hb * |Visits(hb, r, heart, [empty] + rounds)|;
            paid <= |Applied({}, first.changes)| * |rounds| < paid + hb
  {
    FoundFresh(first, later, rounds, Applied({}, first.changes));
    EmptyForfeits(hb, r, heart, empty, rounds);
  }
}
