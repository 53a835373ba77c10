/**
 An ordered set of objects visited round-robin by a cursor that survives inserts
 and removals.

 Objects are pool addresses; 0 is the null pointer and, as a cursor, stands for the
 end of the set. The ordered set is an increasing sequence.
 */
module ObjectRing {
  import opened Sequences

  type Ptr = nat
  const NULL: Ptr := 0

  ghost predicate Increasing(s: seq<Ptr>) {
    forall i, j :: 0 <= i < j < |s| ==> s[i] < s[j]
  }

  ghost predicate IsSet(s: seq<Ptr>) {
    Increasing(s) && forall i :: 0 <= i < |s| ==> s[i] != NULL
  }

  function Elements(s: seq<Ptr>): set<Ptr> {
    set o | o in s
  }

  function PositionFrom(s: seq<Ptr>, o: Ptr, i: nat): (p: nat)
    requires i <= |s|
    ensures i <= p <= |s|
    ensures forall k :: i <= k < p ==> s[k] < o
    ensures p < |s| ==> o <= s[p]
    decreases |s| - i
  {
    if i == |s| || o <= s[i] then i else PositionFrom(s, o, i + 1)
  }

  /** The position of the first member that is not below `o`; |s| when there is none. */
  function Position(s: seq<Ptr>, o: Ptr): (p: nat)
    ensures p <= |s|
    ensures forall k :: 0 <= k < p ==> s[k] < o
    ensures p < |s| ==> o <= s[p]
  {
    PositionFrom(s, o, 0)
  }

  lemma PositionFinds(s: seq<Ptr>, o: Ptr)
    requires Increasing(s)
    ensures o in s <==> Position(s, o) < |s| && s[Position(s, o)] == o
  {
    var i := Position(s, o);
    if o in s {
      var k :| 0 <= k < |s| && s[k] == o;
      assert i <= k;
    }
  }

  /** The member at position `i`, or null at the end. */
  function At(s: seq<Ptr>, i: nat): Ptr
    requires i <= |s|
  {
    if i < |s| then s[i] else NULL
  }

  function Added(s: seq<Ptr>, o: Ptr): seq<Ptr> {
    Spliced(s, Position(s, o), o)
  }

  function Dropped(s: seq<Ptr>, o: Ptr): seq<Ptr> {
    var i := Position(s, o);
    if i < |s| && s[i] == o then Without(s, i) else s
  }

  lemma SplicedIncreasing(s: seq<Ptr>, i: nat, o: Ptr)
    requires Increasing(s) && i <= |s|
    requires (i > 0 ==> s[i - 1] < o) && (i < |s| ==> o < s[i])
    ensures Increasing(Spliced(s, i, o))
  {
    var t := Spliced(s, i, o);
    forall a, b | 0 <= a < b < |t| ensures t[a] < t[b] {
      if a < i - 1 { assert s[a] < s[i - 1]; }
      if i < b - 1 { assert s[i] < s[b - 1]; }
    }
  }

  lemma SplicedElements(s: seq<Ptr>, i: nat, o: Ptr)
    requires i <= |s|
    ensures Elements(Spliced(s, i, o)) == Elements(s) + {o}
  {
    var t := Spliced(s, i, o);
    forall x | x in s ensures x in t {
      var k :| 0 <= k < |s| && s[k] == x;
      assert t[if k < i then k else k + 1] == x;
    }
    assert t[i] == o;
  }

  lemma CutElements(s: seq<Ptr>, i: nat)
    requires Increasing(s) && i < |s|
    ensures Increasing(Without(s, i)) && Elements(Without(s, i)) == Elements(s) - {s[i]}
  {
    var t := Without(s, i);
    forall x | x in s && x != s[i] ensures x in t {
      var k :| 0 <= k < |s| && s[k] == x;
      assert t[if k < i then k else k - 1] == x;
    }
  }

  lemma AddedSet(s: seq<Ptr>, o: Ptr)
    requires IsSet(s) && o !in s && o != NULL
    ensures IsSet(Added(s, o)) && Elements(Added(s, o)) == Elements(s) + {o}
  {
    var i := Position(s, o);
    SplicedIncreasing(s, i, o);
    SplicedElements(s, i, o);
  }

  lemma DroppedSet(s: seq<Ptr>, o: Ptr)
    requires IsSet(s)
    ensures IsSet(Dropped(s, o)) && Elements(Dropped(s, o)) == Elements(s) - {o}
  {
    PositionFinds(s, o);
    if o in s {
      CutElements(s, Position(s, o));
    }
  }

  /** The set and the cursor. */
  datatype Ring = Ring(objs: seq<Ptr>, cur: Ptr)

  /** The cursor is null or a member. */
  ghost predicate Sound(r: Ring) {
    IsSet(r.objs) && (r.cur == NULL || r.cur in r.objs)
  }

  function Insert(r: Ring, o: Ptr): Ring {
    r.(objs := Added(r.objs, o))
  }

  /** Deleting the object under the cursor moves the cursor to its successor. */
  function Delete(r: Ring, o: Ptr): Ring {
    var cur := if r.cur != o then r.cur
               else var i := Position(r.objs, o);
                    if i < |r.objs| then At(r.objs, i + 1) else NULL;
    Ring(Dropped(r.objs, o), cur)
  }

  /** The object the next visit goes to. */
  function Upcoming(r: Ring): Ptr
    requires r.objs != []
  {
    if r.cur == NULL then r.objs[0] else r.cur
  }

  function Visit(r: Ring): Ring
    requires r.objs != []
  {
    var i := Position(r.objs, Upcoming(r));
    r.(cur := if i < |r.objs| then At(r.objs, i + 1) else NULL)
  }

  lemma InsertSound(r: Ring, o: Ptr)
    requires Sound(r) && o !in r.objs && o != NULL
    ensures Sound(Insert(r, o)) && Elements(Insert(r, o).objs) == Elements(r.objs) + {o}
  {
    AddedSet(r.objs, o);
    if r.cur != NULL { assert r.cur in Elements(r.objs); }
  }

  lemma DeleteSound(r: Ring, o: Ptr)
    requires Sound(r) && o in r.objs
    ensures Sound(Delete(r, o)) && Elements(Delete(r, o).objs) == Elements(r.objs) - {o}
  {
    DroppedSet(r.objs, o);
    PositionFinds(r.objs, o);
    var i := Position(r.objs, o);
    if r.cur == o {
      if i + 1 < |r.objs| {
        assert r.objs[i] < r.objs[i + 1];
        assert r.objs[i + 1] in Elements(r.objs);
      }
    } else if r.cur != NULL {
      assert r.cur in Elements(r.objs);
    }
  }

  lemma VisitSound(r: Ring)
    requires Sound(r) && r.objs != []
    ensures Sound(Visit(r)) && Upcoming(r) in r.objs
  {
    PositionFinds(r.objs, Upcoming(r));
  }

  // ---- Laps ----

  datatype Event = Inserted(o: Ptr) | Deleted(o: Ptr) | Visited

  /**
   The book-keeping of one lap: the objects that were in the set when it began and
   have stayed, and the objects visited so far.
   */
  datatype Lap = Lap(stayed: set<Ptr>, visits: seq<Ptr>)

  ghost predicate Legal(r: Ring, e: Event) {
    match e
    case Inserted(o) => o !in r.objs && o != NULL
    case Deleted(o) => o in r.objs
    case Visited => r.objs != []
  }

  function Apply(r: Ring, e: Event): Ring {
    match e
    case Inserted(o) => Insert(r, o)
    case Deleted(o) => Delete(r, o)
    case Visited => if r.objs == [] then r else Visit(r)
  }

  /** A visit from the null cursor opens a new lap. */
  function Track(r: Ring, lap: Lap, e: Event): Lap {
    match e
    case Inserted(_) => lap
    case Deleted(o) => lap.(stayed := lap.stayed - {o})
    case Visited =>
      if r.objs == [] then lap
      else if r.cur == NULL then Lap(Elements(r.objs), [Upcoming(r)])
      else lap.(visits := lap.visits + [Upcoming(r)])
  }

  /** Whether the cursor has gone past `o` in the current lap. */
  predicate Passed(r: Ring, o: Ptr) {
    r.cur == NULL || o < r.cur
  }

  /**
   The visits of a lap go strictly upwards, so none repeats, and of the objects that
   stayed in the set exactly those behind the cursor have been visited.
   */
  ghost predicate Fair(r: Ring, lap: Lap) {
    && Sound(r)
    && lap.stayed <= Elements(r.objs)
    && Increasing(lap.visits)
    && (forall i :: 0 <= i < |lap.visits| ==> Passed(r, lap.visits[i]))
    && (forall o :: o in lap.stayed ==> (o in lap.visits <==> Passed(r, o)))
  }

  lemma InsertFair(r: Ring, lap: Lap, o: Ptr)
    requires Fair(r, lap) && Legal(r, Inserted(o))
    ensures Fair(Insert(r, o), lap)
  {
    InsertSound(r, o);
  }

  lemma DeleteFair(r: Ring, lap: Lap, o: Ptr)
    requires Fair(r, lap) && Legal(r, Deleted(o))
    ensures Fair(Delete(r, o), Track(r, lap, Deleted(o)))
  {
    DeleteSound(r, o);
    if r.cur == o {
      forall x | x in r.objs && x != o ensures Passed(Delete(r, o), x) <==> Passed(r, x) {
        SamePassed(r, o, x);
      }
    }
  }

  /** When the object under the cursor goes, the cursor passes nobody by moving on. */
  lemma SamePassed(r: Ring, o: Ptr, x: Ptr)
    requires Sound(r) && o in r.objs && r.cur == o && x in r.objs && x != o
    ensures Passed(Delete(r, o), x) <==> Passed(r, x)
  {
    PositionFinds(r.objs, o);
    ghost var i := Position(r.objs, o);
    var k :| 0 <= k < |r.objs| && r.objs[k] == x;
    if i + 1 <= k { assert r.objs[i + 1] <= r.objs[k]; }
  }

  lemma VisitFair(r: Ring, lap: Lap)
    requires Fair(r, lap) && r.objs != []
    ensures Fair(Visit(r), Track(r, lap, Visited))
  {
    var u, r', lap' := Upcoming(r), Visit(r), Track(r, lap, Visited);
    VisitSound(r);
    PositionFinds(r.objs, u);
    var i := Position(r.objs, u);
    if i + 1 < |r.objs| { assert r.objs[i] < r.objs[i + 1]; }
    forall x | x in lap'.stayed ensures x in lap'.visits <==> Passed(r', x) {
      assert x in Elements(r.objs);
      var k :| 0 <= k < |r.objs| && r.objs[k] == x;
      if i < k && i + 1 < |r.objs| { assert r.objs[i + 1] <= r.objs[k]; }
      if k < i { assert r.objs[k] < r.objs[i]; }
    }
  }

  lemma StepFair(r: Ring, lap: Lap, e: Event)
    requires Fair(r, lap) && Legal(r, e)
    ensures Fair(Apply(r, e), Track(r, lap, e))
  {
    match e
    case Inserted(o) => InsertFair(r, lap, o);
    case Deleted(o) => DeleteFair(r, lap, o);
    case Visited => VisitFair(r, lap);
  }

  function ApplyAll(r: Ring, es: seq<Event>): Ring
    decreases |es|
  {
    if es == [] then r else ApplyAll(Apply(r, es[0]), es[1..])
  }

  function TrackAll(r: Ring, lap: Lap, es: seq<Event>): Lap
    decreases |es|
  {
    if es == [] then lap else TrackAll(Apply(r, es[0]), Track(r, lap, es[0]), es[1..])
  }

  ghost predicate AllLegal(r: Ring, es: seq<Event>)
    decreases |es|
  {
    es == [] || (Legal(r, es[0]) && AllLegal(Apply(r, es[0]), es[1..]))
  }

  lemma {:induction false} RunsFair(r: Ring, lap: Lap, es: seq<Event>)
    requires Fair(r, lap) && AllLegal(r, es)
    ensures Fair(ApplyAll(r, es), TrackAll(r, lap, es))
    decreases |es|
  {
    if es != [] {
      StepFair(r, lap, es[0]);
      RunsFair(Apply(r, es[0]), Track(r, lap, es[0]), es[1..]);
    }
  }

  /**
   However inserts, removals and visits are mixed: when a lap is over, every object
   that stayed in the set throughout it was visited, and no object was visited twice.
   */
  lemma NoObjectSkipped(r: Ring, es: seq<Event>)
    requires Sound(r) && r.cur == NULL && AllLegal(r, es)
    ensures var lap := TrackAll(r, Lap({}, []), es);
            && Sound(ApplyAll(r, es))
            && (forall i, j :: 0 <= i < j < |lap.visits| ==> lap.visits[i] != lap.visits[j])
            && (ApplyAll(r, es).cur == NULL ==> forall o :: o in lap.stayed ==> o in lap.visits)
  {
    RunsFair(r, Lap({}, []), es);
  }

  /** What is left to visit in the current lap, in order. */
  function RestOfLap(r: Ring): seq<Ptr> {
    if r.cur == NULL then [] else r.objs[Position(r.objs, r.cur)..]
  }

  lemma PositionIs(s: seq<Ptr>, i: nat)
    requires Increasing(s) && i < |s|
    ensures Position(s, s[i]) == i
  {
    PositionFinds(s, s[i]);
  }

  lemma CutAhead(s: seq<Ptr>, c: nat, i: nat)
    requires Increasing(s) && c < i < |s|
    ensures Position(Without(s, i), s[c]) == c
    ensures Without(s, i)[c..] == Dropped(s[c..], s[i])
  {
    CutElements(s, i);
    PositionIs(Without(s, i), c);
    ghost var rest := s[c..];
    assert rest[i - c] == s[i] && Increasing(rest);
    PositionIs(rest, i - c);
    assert Without(s, i)[c..] == Without(rest, i - c);
  }

  lemma CutHere(s: seq<Ptr>, i: nat)
    requires Increasing(s) && i < |s|
    ensures i + 1 < |s| ==> Position(Without(s, i), s[i + 1]) == i
    ensures Without(s, i)[i..] == s[i + 1..] == Dropped(s[i..], s[i])
  {
    CutElements(s, i);
    if i + 1 < |s| {
      PositionIs(Without(s, i), i);
    }
    PositionIs(s[i..], 0);
  }

  lemma CutBehind(s: seq<Ptr>, c: nat, i: nat)
    requires Increasing(s) && i < c < |s|
    ensures Position(Without(s, i), s[c]) == c - 1
    ensures Without(s, i)[c - 1..] == s[c..] == Dropped(s[c..], s[i])
  {
    CutElements(s, i);
    PositionIs(Without(s, i), c - 1);
    PositionFinds(s[c..], s[i]);
  }

  /** Removing any object leaves the rest of the lap as it was, without that object. */
  lemma DeleteKeepsLap(r: Ring, o: Ptr)
    requires Sound(r) && o in r.objs
    ensures RestOfLap(Delete(r, o)) == Dropped(RestOfLap(r), o)
  {
    var s, r', i := r.objs, Delete(r, o), Position(r.objs, o);
    PositionFinds(s, o);
    assert r'.objs == Without(s, i);
    if r.cur != NULL {
      PositionFinds(s, r.cur);
      var c := Position(s, r.cur);
      assert RestOfLap(r) == s[c..];
      if c < i {
        CutAhead(s, c, i);
        assert RestOfLap(r') == Without(s, i)[c..];
      } else if c == i {
        CutHere(s, i);
        assert r'.cur == At(s, i + 1);
        assert RestOfLap(r') == if i + 1 < |s| then Without(s, i)[i..] else [];
      } else {
        CutBehind(s, c, i);
        assert RestOfLap(r') == Without(s, i)[c - 1..];
      }
    }
  }
}
