/**
 The deferred change list: inserts and removals are counted per object and applied,
 in address order, before the next collection.
 */
module ChangeList {
  import opened ObjectRing

  type Changes = map<Ptr, int>

  function Pending(changes: Changes, o: Ptr): int {
    if o in changes then changes[o] else 0
  }

  function Bumped(changes: Changes, o: Ptr, delta: int): Changes {
    changes[o := Pending(changes, o) + delta]
  }

  lemma {:induction false} LeastExists(s: set<Ptr>) returns (least: Ptr)
    requires s != {}
    ensures least in s && forall o :: o in s ==> least <= o
    decreases |s|
  {
    least :| least in s;
    if s != {least} {
      var rest := s - {least};
      var other := LeastExists(rest);
      assert forall o :: o in s ==> o == least || o in rest;
      if other < least { least := other; }
    }
  }

  ghost function Least(s: set<Ptr>): (least: Ptr)
    requires s != {}
    ensures least in s && forall o :: o in s ==> least <= o
  {
    assert exists m :: m in s && forall o :: o in s ==> m <= o by {
      var m := LeastExists(s);
    }
    var m :| m in s && forall o :: o in s ==> m <= o;
    m
  }

  ghost function ChangeOf(o: Ptr, ref: int): seq<Event> {
    if ref > 0 then [Inserted(o)] else if ref < 0 then [Deleted(o)] else []
  }

  /** The changes the list stands for, in address order. */
  ghost function ChangeEvents(changes: Changes): seq<Event>
    decreases |changes.Keys|
  {
    if changes == map[] then [] else
      var o := Least(changes.Keys);
      assert (changes - {o}).Keys == changes.Keys - {o};
      ChangeOf(o, changes[o]) + ChangeEvents(changes - {o})
  }

  function Member(r: Ring, o: Ptr): int {
    if o in r.objs then 1 else 0
  }

  /** Membership and pending count of every object together say in or out. */
  ghost predicate Balanced(r: Ring, changes: Changes) {
    forall o :: o in changes ==> 0 <= Member(r, o) + changes[o] <= 1 && (o == NULL ==> changes[o] == 0)
  }

  /** The assertions that applying the list runs into, from the first change on. */
  ghost predicate Asserted(r: Ring, changes: Changes) {
    && (forall o :: o in changes ==> -1 <= changes[o] <= 1)
    && AllLegal(r, ChangeEvents(changes))
  }

  lemma StepElements(r: Ring, e: Event)
    requires Sound(r) && Legal(r, e)
    ensures Sound(Apply(r, e))
    ensures forall o :: o in Apply(r, e).objs <==>
              (o in r.objs && e != Deleted(o)) || e == Inserted(o)
  {
    match e {
      case Inserted(p) =>
        InsertSound(r, p);
        assert forall o :: o in Insert(r, p).objs <==> o in Elements(Insert(r, p).objs);
      case Deleted(p) =>
        DeleteSound(r, p);
        assert forall o :: o in Delete(r, p).objs <==> o in Elements(Delete(r, p).objs);
      case Visited => VisitSound(r);
    }
  }

  /** The objects of `t` are those that `r` and the list together say are in. */
  ghost predicate Leaves(r: Ring, changes: Changes, t: Ring) {
    Sound(t) && forall o :: Member(t, o) == Member(r, o) + Pending(changes, o)
  }

  /** One change of a balanced list is legal and leaves the rest balanced. */
  lemma BalancedStep(r: Ring, changes: Changes, o: Ptr)
    requires Sound(r) && Balanced(r, changes) && o in changes && changes[o] != 0
    ensures var e := ChangeOf(o, changes[o])[0];
            && Legal(r, e) && Sound(Apply(r, e)) && Balanced(Apply(r, e), changes - {o})
  {
    var e := ChangeOf(o, changes[o])[0];
    StepElements(r, e);
  }

  lemma LeavesStep(r: Ring, changes: Changes, o: Ptr, t: Ring)
    requires Sound(r) && Balanced(r, changes) && o in changes && changes[o] != 0
    requires Leaves(Apply(r, ChangeOf(o, changes[o])[0]), changes - {o}, t)
    ensures Leaves(r, changes, t)
  {
    var e := ChangeOf(o, changes[o])[0];
    StepElements(r, e);
    forall p ensures Member(t, p) == Member(r, p) + Pending(changes, p) {
      assert Member(t, p) == Member(Apply(r, e), p) + Pending(changes - {o}, p);
    }
  }

  lemma LeavesSkip(r: Ring, changes: Changes, o: Ptr, t: Ring)
    requires o in changes && changes[o] == 0 && Leaves(r, changes - {o}, t)
    ensures Leaves(r, changes, t)
  {
    forall p ensures Member(t, p) == Member(r, p) + Pending(changes, p) {
      assert Member(t, p) == Member(r, p) + Pending(changes - {o}, p);
    }
  }

  lemma EventsUnfold(changes: Changes, o: Ptr)
    requires changes != map[] && o == Least(changes.Keys)
    ensures |(changes - {o}).Keys| < |changes.Keys|
    ensures ChangeEvents(changes) == if changes[o] == 0 then ChangeEvents(changes - {o})
              else [ChangeOf(o, changes[o])[0]] + ChangeEvents(changes - {o})
  {
    assert (changes - {o}).Keys == changes.Keys - {o};
  }

  lemma FirstEvent(r: Ring, e: Event, es: seq<Event>)
    ensures ApplyAll(r, [e] + es) == ApplyAll(Apply(r, e), es)
    ensures AllLegal(r, [e] + es) <==> Legal(r, e) && AllLegal(Apply(r, e), es)
  {
    assert ([e] + es)[1..] == es;
  }

  /** Applying a balanced list leaves exactly the objects it says are in. */
  lemma {:induction false} BalancedApplies(r: Ring, changes: Changes)
    requires Sound(r) && Balanced(r, changes)
    ensures Asserted(r, changes)
    ensures Leaves(r, changes, ApplyAll(r, ChangeEvents(changes)))
    decreases |changes.Keys|
  {
    if changes != map[] {
      var o := Least(changes.Keys);
      EventsUnfold(changes, o);
      if changes[o] == 0 {
        BalancedApplies(r, changes - {o});
        LeavesSkip(r, changes, o, ApplyAll(r, ChangeEvents(changes)));
      } else {
        var e := ChangeOf(o, changes[o])[0];
        BalancedStep(r, changes, o);
        BalancedApplies(Apply(r, e), changes - {o});
        FirstEvent(r, e, ChangeEvents(changes - {o}));
        LeavesStep(r, changes, o, ApplyAll(r, ChangeEvents(changes)));
      }
    }
  }

  lemma {:induction false} AssertedBalanced(r: Ring, changes: Changes)
    requires Sound(r) && Asserted(r, changes)
    ensures Balanced(r, changes)
    decreases |changes.Keys|
  {
    if changes != map[] {
      var o := Least(changes.Keys);
      EventsUnfold(changes, o);
      if changes[o] == 0 {
        AssertedBalanced(r, changes - {o});
      } else {
        var e := ChangeOf(o, changes[o])[0];
        FirstEvent(r, e, ChangeEvents(changes - {o}));
        StepElements(r, e);
        AssertedBalanced(Apply(r, e), changes - {o});
      }
      forall p | p in changes
        ensures 0 <= Member(r, p) + changes[p] <= 1 && (p == NULL ==> changes[p] == 0)
      {
        if p != o { assert p in changes - {o}; }
      }
    }
  }

  /** The change list passes every assertion exactly when it is balanced. */
  lemma AssertionsExactly(r: Ring, changes: Changes)
    requires Sound(r)
    ensures Asserted(r, changes) <==> Balanced(r, changes)
  {
    if Balanced(r, changes) {
      BalancedApplies(r, changes);
    }
    if Asserted(r, changes) {
      AssertedBalanced(r, changes);
    }
  }

  datatype Call = InsertCall(o: Ptr) | RemoveCall(o: Ptr) | ChangeCall

  datatype Deferred = Deferred(ring: Ring, changes: Changes)

  ghost function RunDeferred(d: Deferred, calls: seq<Call>): Deferred
    decreases |calls|
  {
    if calls == [] then d else
      var d' := match calls[0]
        case InsertCall(o) => d.(changes := Bumped(d.changes, o, 1))
        case RemoveCall(o) => d.(changes := Bumped(d.changes, o, -1))
        case ChangeCall => Deferred(ApplyAll(d.ring, ChangeEvents(d.changes)), map[]);
      RunDeferred(d', calls[1..])
  }

  /** The set that applying each call at once would give. */
  function RunEager(s: set<Ptr>, calls: seq<Call>): set<Ptr>
    decreases |calls|
  {
    if calls == [] then s else
      var s' := match calls[0]
        case InsertCall(o) => s + {o}
        case RemoveCall(o) => s - {o}
        case ChangeCall => s;
      RunEager(s', calls[1..])
  }

  /** The calls about each object alternate between insert and remove. */
  ghost predicate Alternating(s: set<Ptr>, calls: seq<Call>)
    decreases |calls|
  {
    calls == [] ||
    match calls[0]
    case InsertCall(o) => o != NULL && o !in s && Alternating(s + {o}, calls[1..])
    case RemoveCall(o) => o in s && Alternating(s - {o}, calls[1..])
    case ChangeCall => Alternating(s, calls[1..])
  }

  ghost predicate Mirrors(d: Deferred, s: set<Ptr>) {
    && Sound(d.ring) && NULL !in s
    && forall o :: Member(d.ring, o) + Pending(d.changes, o) == if o in s then 1 else 0
  }

  /**
   The deferred list refines the eager set: along any alternating run membership plus
   pending count is the eager membership (so 0 or 1), applying the list never fails an
   assertion, and right after it the set is the eager set.
   */
  lemma {:induction false} DeferredRefinesEager(d: Deferred, s: set<Ptr>, calls: seq<Call>)
    requires Mirrors(d, s) && Alternating(s, calls)
    ensures var d', s' := RunDeferred(d, calls), RunEager(s, calls);
            && Mirrors(d', s')
            && Asserted(d'.ring, d'.changes)
            && Elements(ApplyAll(d'.ring, ChangeEvents(d'.changes)).objs) == s'
    decreases |calls|
  {
    BalancedApplies(d.ring, d.changes);
    var applied := ApplyAll(d.ring, ChangeEvents(d.changes));
    if calls == [] {
      forall o ensures o in applied.objs <==> o in s {
        assert Member(applied, o) == Member(d.ring, o) + Pending(d.changes, o);
      }
    } else {
      match calls[0] {
        case InsertCall(o) =>
          DeferredRefinesEager(d.(changes := Bumped(d.changes, o, 1)), s + {o}, calls[1..]);
        case RemoveCall(o) =>
          DeferredRefinesEager(d.(changes := Bumped(d.changes, o, -1)), s - {o}, calls[1..]);
        case ChangeCall =>
          assert Mirrors(Deferred(applied, map[]), s);
          DeferredRefinesEager(Deferred(applied, map[]), s, calls[1..]);
      }
    }
  }
}
