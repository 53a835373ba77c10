/**
 The object manager itself. Insert and Remove only count in the change list; the
 heartbeat applies the list and collects this tick's share of the ring.
 */
module ObjectManager {
  import opened Sequences
  import opened ObjectRing
  import opened HeartbeatShare
  import opened ChangeList

  /** The collected objects: the type's insertor may leave idle ones out of the list. */
  function Awake(visits: seq<Ptr>, idle: set<Ptr>): seq<Ptr>
    decreases |visits|
  {
    if visits == [] then []
    else Awake(visits[..|visits| - 1], idle) +
         if visits[|visits| - 1] in idle then [] else [visits[|visits| - 1]]
  }

  /** Idle objects are left out, and of the others every visit is listed. */
  lemma {:induction false} AwakeExactly(visits: seq<Ptr>, idle: set<Ptr>, o: Ptr)
    ensures multiset(Awake(visits, idle))[o] == if o in idle then 0 else multiset(visits)[o]
    decreases |visits|
  {
    if visits != [] {
      ghost var n := |visits| - 1;
      AwakeExactly(visits[..n], idle, o);
      assert visits == visits[..n] + [visits[n]];
    }
  }

  /** In the order of the visits. */
  lemma {:induction false} AwakeJoins(a: seq<Ptr>, b: seq<Ptr>, idle: set<Ptr>)
    ensures Awake(a + b, idle) == Awake(a, idle) + Awake(b, idle)
    decreases |b|
  {
    if b == [] {
      assert a + b == a;
    } else {
      ghost var n := |b| - 1;
      assert (a + b)[..|a + b| - 1] == a + b[..n];
      AwakeJoins(a, b[..n], idle);
    }
  }

  lemma WalkNext(s: seq<Ptr>, c: nat, k: nat)
    requires c <= |s| && s != []
    ensures var t := Turn(|s|, Land(|s|, c, k));
            Walk(s, c, k + 1) == Walk(s, c, k) + [s[t]] && Land(|s|, c, k + 1) == t + 1
  {
    WalkSplit(s, c, k, 1);
    var d := Land(|s|, c, k);
    var t := Turn(|s|, d);
    assert Walk(s, d, 1) == [s[t]] + Walk(s, t + 1, 0);
    assert Land(|s|, d, 1) == Land(|s|, t + 1, 0);
  }

  lemma AwakeAppend(visits: seq<Ptr>, o: Ptr, idle: set<Ptr>)
    ensures Awake(visits + [o], idle) == Awake(visits, idle) + if o in idle then [] else [o]
  {
    assert (visits + [o])[..|visits|] == visits;
  }

  /** One more visit: where it goes, what it adds to the list, where the cursor ends up. */
  lemma AwakeNext(s: seq<Ptr>, c: nat, k: nat, idle: set<Ptr>, d: nat)
    requires c <= |s| && s != [] && d == Turn(|s|, Land(|s|, c, k))
    ensures Land(|s|, c, k + 1) == d + 1
    ensures Awake(Walk(s, c, k + 1), idle) == Awake(Walk(s, c, k), idle) + if s[d] in idle then [] else [s[d]]
  {
    WalkNext(s, c, k);
    AwakeAppend(Walk(s, c, k), s[d], idle);
  }

  /** What a tick over the ring `r` with `heart` in the accumulator comes to. */
  function TickVisits(hb: nat, r: Ring, heart: nat): seq<Ptr>
    requires hb > 0
  {
    if r.objs == [] then [] else Walk(r.objs, Index(r), Share(hb, heart, |r.objs|))
  }

  function TickRing(hb: nat, r: Ring, heart: nat): Ring
    requires hb > 0
  {
    if r.objs == [] then Ring([], NULL)
    else Ring(r.objs, At(r.objs, Land(|r.objs|, Index(r), Share(hb, heart, |r.objs|))))
  }

  function TickResidue(hb: nat, r: Ring, heart: nat): nat
    requires hb > 0
  {
    if r.objs == [] then 0 else Residue(hb, heart, |r.objs|)
  }

  /** A tick is as many visits of the ring as its share says. */
  lemma TickIsVisits(hb: nat, r: Ring, heart: nat)
    requires hb > 0 && Sound(r)
    ensures Sound(TickRing(hb, r, heart))
    ensures r.objs != [] ==> TickRing(hb, r, heart) == ApplyAll(r, Repeated(Share(hb, heart, |r.objs|)))
  {
    if r.objs != [] {
      WalkIsVisits(r, Share(hb, heart, |r.objs|));
      PositionFinds(r.objs, r.cur);
    }
  }

  lemma TickPaid(hb: nat, heart: nat, n: nat, done: nat, left: nat)
    requires left < hb && heart + n == hb * done + left
    ensures Share(hb, heart, n) == done && Residue(hb, heart, n) == left
  {
    QuotientUnique(hb, left / hb, 0, left % hb, left);
    DivideOut(hb, done, left, heart + n);
  }

  /** The tick as the collection loop leaves it after `done` visits with `left` to its credit. */
  lemma TickServed(hb: nat, r: Ring, heart: nat, done: nat, left: nat)
    requires Sound(r) && r.objs != [] && left < hb && heart + |r.objs| == hb * done + left
    ensures Sound(TickRing(hb, r, heart)) && TickResidue(hb, r, heart) == left
    ensures TickRing(hb, r, heart) == Ring(r.objs, At(r.objs, Land(|r.objs|, Index(r), done)))
    ensures TickVisits(hb, r, heart) == Walk(r.objs, Index(r), done)
  {
    TickPaid(hb, heart, |r.objs|, done, left);
    TickIsVisits(hb, r, heart);
  }

  lemma OneMore(hb: nat, done: nat)
    ensures hb * (done + 1) == hb * done + hb
  {
  }

  class Manager {
    const hb: nat           // ticks between two heartbeats of one object
    var objSet: seq<Ptr>
    var changeList: Changes
    var curObj: Ptr
    var heartObjCount: nat

    ghost function TheRing(): Ring reads this {
      Ring(objSet, curObj)
    }

    ghost function View(): Deferred reads this {
      Deferred(TheRing(), changeList)
    }

    ghost predicate Valid() reads this {
      hb > 0 && Sound(TheRing())
    }

    /** Cursor and residue start as static storage leaves them, null and zero. */
    constructor (hb: nat)
      requires hb > 0
      ensures Valid() && View() == Deferred(Ring([], NULL), map[]) && heartObjCount == 0 && this.hb == hb
      ensures Mirrors(View(), {})
    {
      this.hb := hb;
      objSet, changeList, curObj, heartObjCount := [], map[], NULL, 0;
    }

    method Insert(o: Ptr)
      modifies this`changeList
      ensures View() == RunDeferred(old(View()), [InsertCall(o)])
    {
      changeList := Bumped(changeList, o, 1);
    }

    method Remove(o: Ptr)
      modifies this`changeList
      ensures View() == RunDeferred(old(View()), [RemoveCall(o)])
    {
      changeList := Bumped(changeList, o, -1);
    }

    method Find(o: Ptr) returns (i: nat)
      ensures i == Position(objSet, o)
    {
      i := 0;
      while i < |objSet| && objSet[i] < o
        invariant i <= |objSet| && PositionFrom(objSet, o, i) == Position(objSet, o)
      {
        i := i + 1;
      }
    }

    method DoInsert(o: Ptr)
      requires Valid() && Legal(TheRing(), Inserted(o))
      modifies this`objSet
      ensures Valid() && TheRing() == Apply(old(TheRing()), Inserted(o))
    {
      InsertSound(TheRing(), o);
      var i := Find(o);
      objSet := Spliced(objSet, i, o);
    }

    method DoDelete(o: Ptr)
      requires Valid() && Legal(TheRing(), Deleted(o))
      modifies this`objSet, this`curObj
      ensures Valid() && TheRing() == Apply(old(TheRing()), Deleted(o))
    {
      DeleteSound(TheRing(), o);
      PositionFinds(objSet, o);
      var i := Find(o);
      if curObj == o {
        if i + 1 == |objSet| {
          curObj := NULL;
        } else {
          curObj := objSet[i + 1];
        }
      }
      objSet := Without(objSet, i);
    }

    /** Applies the list in address order; its assertions hold when they are all legal. */
    method DoChange()
      requires Valid() && Asserted(TheRing(), changeList)
      modifies this`objSet, this`curObj, this`changeList
      ensures Valid() && View() == RunDeferred(old(View()), [ChangeCall])
    {
      var todo := changeList;
      ghost var all := ApplyAll(TheRing(), ChangeEvents(changeList));
      while todo != map[]
        invariant Valid() && Asserted(TheRing(), todo)
        invariant ApplyAll(TheRing(), ChangeEvents(todo)) == all
        decreases |todo.Keys|
      {
        ghost var least := Least(todo.Keys);
        var o :| o in todo && forall p :: p in todo ==> o <= p;
        assert o == least;
        EventsUnfold(todo, o);
        if todo[o] > 0 {
          FirstEvent(TheRing(), Inserted(o), ChangeEvents(todo - {o}));
          DoInsert(o);
        } else if todo[o] < 0 {
          FirstEvent(TheRing(), Deleted(o), ChangeEvents(todo - {o}));
          DoDelete(o);
        }
        todo := todo - {o};
      }
      changeList := map[];
    }

    /**
     Applies the changes, adds the size of the set to the accumulator and goes on
     around the ring for as long as the accumulator can pay for a visit.
     */
    method CollectHeartbeatObject(idle: set<Ptr>) returns (list: seq<Ptr>)
      requires Valid() && Asserted(TheRing(), changeList)
      modifies this
      ensures Valid() && changeList == map[]
      ensures var r, heart := RunDeferred(old(View()), [ChangeCall]).ring, old(heartObjCount);
              && TheRing() == TickRing(hb, r, heart)
              && heartObjCount == TickResidue(hb, r, heart)
              && list == Awake(TickVisits(hb, r, heart), idle)
      ensures objSet == [] ==> heartObjCount == 0 && curObj == NULL && list == []
      ensures heartObjCount < hb
    {
      DoChange();
      var size := |objSet|;
      list := [];
      heartObjCount := heartObjCount + size;
      if size == 0 {
        heartObjCount := 0;
        curObj := NULL;
      } else {
        list := Collect(idle);
      }
    }

    /** The collection loop, from position `cursor` on. */
    method Serve(cursor: nat, idle: set<Ptr>) returns (list: seq<Ptr>, at: nat, ghost done: nat)
      requires hb > 0 && objSet != [] && cursor <= |objSet|
      modifies this`heartObjCount
      ensures heartObjCount < hb && old(heartObjCount) == hb * done + heartObjCount
      ensures at == Land(|objSet|, cursor, done) && at <= |objSet|
      ensures list == Awake(Walk(objSet, cursor, done), idle)
    {
      ghost var heart, paid := heartObjCount, 0;
      at, list, done := cursor, [], 0;
      while heartObjCount >= hb
        invariant heart == paid + heartObjCount && paid == hb * done
        invariant at <= |objSet| && at == Land(|objSet|, cursor, done)
        invariant list == Awake(Walk(objSet, cursor, done), idle)
        decreases heartObjCount
      {
        if at == |objSet| {
          at := 0;
        }
        AwakeNext(objSet, cursor, done, idle, at);
        if objSet[at] !in idle {
          list := list + [objSet[at]];
        }
        at := at + 1;
        OneMore(hb, done);
        done, paid := done + 1, paid + hb;
        heartObjCount := heartObjCount - hb;
      }
    }

    method Collect(idle: set<Ptr>) returns (list: seq<Ptr>)
      requires Valid() && |objSet| > 0 && heartObjCount >= |objSet|
      modifies this`curObj, this`heartObjCount
      ensures Valid()
      ensures var r, heart := old(TheRing()), old(heartObjCount) - |objSet|;
              && TheRing() == TickRing(hb, r, heart)
              && heartObjCount == TickResidue(hb, r, heart)
              && list == Awake(TickVisits(hb, r, heart), idle)
    {
      ghost var r, heart := TheRing(), heartObjCount - |objSet|;
      var cursor := |objSet|;
      if curObj != NULL {
        cursor := Find(curObj);
      }
      var at; ghost var done;
      list, at, done := Serve(cursor, idle);
      curObj := At(objSet, at);
      TickServed(hb, r, heart, done, heartObjCount);
    }
  }

  /** What each collection does is a run of ring events, so the laps stay fair. */
  lemma CollectionKeepsLapsFair(r: Ring, lap: Lap, changes: Changes, k: nat)
    requires Fair(r, lap) && Asserted(r, changes)
    ensures var r', lap' := ApplyAll(r, ChangeEvents(changes)), TrackAll(r, lap, ChangeEvents(changes));
            && Fair(r', lap')
            && (r'.objs != [] ==> Fair(ApplyAll(r', Repeated(k)), TrackAll(r', lap', Repeated(k))))
  {
    RunsFair(r, lap, ChangeEvents(changes));
    var r', lap' := ApplyAll(r, ChangeEvents(changes)), TrackAll(r, lap, ChangeEvents(changes));
    if r'.objs != [] {
      WalkIsVisits(r', k);
      RunsFair(r', lap', Repeated(k));
    }
  }

  /** What `ticks` collections without pending changes visit, one after the other. */
  function RingTicks(hb: nat, r: Ring, heart: nat, ticks: nat): seq<Ptr>
    requires hb > 0
    decreases ticks
  {
    if ticks == 0 then []
    else TickVisits(hb, r, heart) + RingTicks(hb, TickRing(hb, r, heart), TickResidue(hb, r, heart), ticks - 1)
  }

  lemma TickMoves(hb: nat, r: Ring, heart: nat)
    requires hb > 0 && Sound(r) && r.objs != []
    ensures Sound(TickRing(hb, r, heart))
    ensures Index(TickRing(hb, r, heart)) == Land(|r.objs|, Index(r), Share(hb, heart, |r.objs|))
  {
    TickIsVisits(hb, r, heart);
    var d := Land(|r.objs|, Index(r), Share(hb, heart, |r.objs|));
    if d < |r.objs| {
      PositionIs(r.objs, d);
    }
  }

  lemma {:induction false} RingTicksWalk(hb: nat, r: Ring, heart: nat, ticks: nat)
    requires hb > 0 && Sound(r) && r.objs != []
    ensures RingTicks(hb, r, heart, ticks) == TicksWalk(hb, r.objs, Index(r), heart, ticks)
    decreases ticks
  {
    if ticks > 0 {
      TickMoves(hb, r, heart);
      RingTicksWalk(hb, TickRing(hb, r, heart), TickResidue(hb, r, heart), ticks - 1);
    }
  }

  /**
   Fairness of the manager: `hb` consecutive collections without changes visit every
   object of the set exactly once, from the cursor around to it.
   */
  lemma HeartbeatFair(hb: nat, r: Ring, heart: nat)
    requires Sound(r) && heart < hb
    ensures var c := Index(r);
            RingTicks(hb, r, heart, hb) == r.objs[c..] + r.objs[..c]
    ensures multiset(RingTicks(hb, r, heart, hb)) == multiset(r.objs)
  {
    if r.objs == [] {
      NothingToVisit(hb, r, heart, hb);
    } else {
      RingTicksWalk(hb, r, heart, hb);
      EachOncePerRound(hb, r.objs, Index(r), heart);
    }
  }

  lemma {:induction false} NothingToVisit(hb: nat, r: Ring, heart: nat, ticks: nat)
    requires hb > 0 && r.objs == []
    ensures RingTicks(hb, r, heart, ticks) == []
    decreases ticks
  {
    if ticks > 0 {
      NothingToVisit(hb, TickRing(hb, r, heart), TickResidue(hb, r, heart), ticks - 1);
    }
  }
}
