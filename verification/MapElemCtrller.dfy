/**
 The controller object: three ordered sets of (boundary, controller) entries, the last
 call made for each controller, and two counters.
 */
module MapElemCtrller {
  import opened MapElem

  datatype Entry = Entry(at: int, who: Ctrl)

  const TICK_PER_SEC := 20

  /** The three lists hold exactly the entries that `places` says. */
  ghost predicate Lists(active: set<Entry>, waiting: set<Entry>, invalid: set<Entry>, places: Places) {
    && (forall e :: e in active <==> e.who in places && places[e.who] == Active(e.at))
    && (forall e :: e in waiting <==> e.who in places && places[e.who] == Waiting(e.at))
    && (forall e :: e in invalid <==> e.who in places && places[e.who] == Invalid && e.at == 0)
  }

  ghost predicate Has(list: set<Entry>, p: Ctrl) {
    exists e :: e in list && e.who == p
  }

  /** Each controller is in exactly one of the three lists, and once. */
  lemma OneListEach(active: set<Entry>, waiting: set<Entry>, invalid: set<Entry>, places: Places, p: Ctrl)
    requires Lists(active, waiting, invalid, places) && p in places
    ensures Has(active, p) || Has(waiting, p) || Has(invalid, p)
    ensures !(Has(active, p) && Has(waiting, p))
    ensures !(Has(active, p) && Has(invalid, p)) && !(Has(waiting, p) && Has(invalid, p))
    ensures forall e, f :: e in active + waiting + invalid && f in active + waiting + invalid && e.who == f.who ==>
              e == f
  {
    match places[p]
    case Active(at) => assert Entry(at, p) in active;
    case Waiting(at) => assert Entry(at, p) in waiting;
    case Invalid => assert Entry(0, p) in invalid;
  }

  function Whos(s: set<Entry>): set<Ctrl> {
    set e | e in s :: e.who
  }

  lemma {:induction false} OneEntryEach(s: set<Entry>)
    requires forall e, f :: e in s && f in s && e.who == f.who ==> e == f
    ensures |Whos(s)| == |s|
    decreases |s|
  {
    if s == {} {
      assert Whos(s) == {};
    } else {
      var e :| e in s;
      ghost var rest := s - {e};
      OneEntryEach(rest);
      assert Whos(s) == Whos(rest) + {e.who};
      assert e.who !in Whos(rest);
    }
  }

  /** The three lists together have one entry for each controller, as the source asserts. */
  lemma ListSizes(active: set<Entry>, waiting: set<Entry>, invalid: set<Entry>, places: Places)
    requires Lists(active, waiting, invalid, places)
    ensures |active| + |waiting| + |invalid| == |places|
  {
    OneEntryEach(active);
    OneEntryEach(waiting);
    OneEntryEach(invalid);
    ghost var a, w, i := Whos(active), Whos(waiting), Whos(invalid);
    forall p | p in places ensures p in a || p in w || p in i {
      OneListEach(active, waiting, invalid, places, p);
    }
    assert a !! w && (a + w) !! i;
    assert |a + w| == |a| + |w| && |a + w + i| == |a + w| + |i|;
    assert places.Keys == a + w + i;
  }

  ghost predicate Earliest(s: set<Entry>, first: Entry) {
    first in s && forall e :: e in s ==> first.at <= e.at
  }

  lemma {:induction false} EarliestExists(s: set<Entry>) returns (first: Entry)
    requires s != {}
    ensures Earliest(s, first)
    decreases |s|
  {
    first :| first in s;
    var rest := s - {first};
    if rest != {} {
      var other := EarliestExists(rest);
      forall e | e in s ensures (if other.at < first.at then other.at else first.at) <= e.at {
        assert e == first || e in rest;
      }
      if other.at < first.at { first := other; }
    }
  }

  /** All boundaries fit the 32-bit times the delay is computed with. */
  ghost predicate AtMost32(places: Places) {
    forall p :: p in places && !places[p].Invalid? ==> places[p].at <= INT32_MAX
  }

  /** Whether one pass of a check, over the active or the waiting list, takes `s` out. */
  predicate Expires(s: Spot, actives: bool, now: int) {
    Due(s, now) && s.Active? == actives
  }

  function Relisted(next: NextTime, places: Places, actives: bool, now: int): (r: Places)
    ensures r.Keys == places.Keys
  {
    map p | p in places :: if Expires(places[p], actives, now) then SpotOf(next(p, now), now) else places[p]
  }

  /**
   Half-way through a pass: what is still in `expired` is in no list, its last call is
   that of the list it left, and all else is already where the pass puts it.
   */
  ghost predicate MidPass(next: NextTime, start: Places, places: Places, on: map<Ctrl, bool>,
                          expired: set<Entry>, actives: bool, now: int) {
    && places.Keys <= start.Keys == on.Keys
    && (forall e :: e in expired ==>
          e.who in start && e.who !in places && start[e.who] == if actives then Active(e.at) else Waiting(e.at))
    && (forall p :: p in start ==> PassedOne(next, start, places, on, expired, actives, now, p))
  }

  ghost predicate PassedOne(next: NextTime, start: Places, places: Places, on: map<Ctrl, bool>,
                            expired: set<Entry>, actives: bool, now: int, p: Ctrl)
    requires p in start && p in on
  {
    if p in places then
      && (on[p] <==> places[p].Active?)
      && places[p] == if Expires(start[p], actives, now) then SpotOf(next(p, now), now) else start[p]
    else
      && on[p] == actives && Expires(start[p], actives, now)
      && Entry(start[p].at, p) in expired
  }

  lemma MidStep(next: NextTime, start: Places, places: Places, on: map<Ctrl, bool>, expired: set<Entry>,
                e: Entry, actives: bool, now: int, act: bool)
    requires MidPass(next, start, places, on, expired, actives, now) && e in expired
    requires act <==> SpotOf(next(e.who, now), now).Active?
    ensures MidPass(next, start, places[e.who := SpotOf(next(e.who, now), now)], on[e.who := act],
                    expired - {e}, actives, now)
  {
    var after := places[e.who := SpotOf(next(e.who, now), now)];
    assert PassedOne(next, start, places, on, expired, actives, now, e.who);
    forall p | p in start
      ensures PassedOne(next, start, after, on[e.who := act], expired - {e}, actives, now, p)
    {
      assert PassedOne(next, start, places, on, expired, actives, now, p);
    }
  }

  lemma MidDone(next: NextTime, start: Places, places: Places, on: map<Ctrl, bool>, actives: bool, now: int)
    requires MidPass(next, start, places, on, {}, actives, now)
    ensures places == Relisted(next, start, actives, now)
    ensures forall p :: p in places ==> (on[p] <==> places[p].Active?)
  {
    forall p | p in start
      ensures p in places && PassedOne(next, start, places, on, {}, actives, now, p)
    {
      assert PassedOne(next, start, places, on, {}, actives, now, p);
    }
  }

  /** What the first pass lists anew is not due in the second. */
  lemma TwoPasses(next: NextTime, places: Places, now: int)
    requires Contract(next)
    ensures Relisted(next, Relisted(next, places, true, now), false, now) == Checked(next, places, now)
    ensures AtMost32(places) ==> AtMost32(Checked(next, places, now))
    ensures forall p :: p in Checked(next, places, now) && !Checked(next, places, now)[p].Invalid? ==>
              now <= Checked(next, places, now)[p].at
  {
  }

  /** The nearest boundary in a list, or the end of time. */
  ghost predicate NearestIn(list: set<Entry>, at: int) {
    if list == {} then at == INT32_MAX else exists first :: Earliest(list, first) && first.at == at
  }

  lemma DelayFromLists(active: set<Entry>, waiting: set<Entry>, invalid: set<Entry>, places: Places,
                       now: int, nextEnd: int, nextStart: int)
    requires Lists(active, waiting, invalid, places) && now <= INT32_MAX && AtMost32(places)
    requires forall p :: p in places && !places[p].Invalid? ==> now <= places[p].at
    requires NearestIn(active, nextEnd) && NearestIn(waiting, nextStart)
    ensures var d := if nextStart - now > nextEnd - now then nextEnd - now else nextStart - now;
            DelayOk(places, now, if d > MAX_CHECKOUT then MAX_CHECKOUT else d)
  {
    forall p | p in places && !places[p].Invalid?
      ensures nextEnd <= places[p].at || nextStart <= places[p].at
    {
      assert Entry(places[p].at, p) in active || Entry(places[p].at, p) in waiting;
    }
  }

  class Controller {
    const next: NextTime
    var active: set<Entry>
    var waiting: set<Entry>
    var invalid: set<Entry>
    var on: map<Ctrl, bool>      // whether the last call for a controller was Activate
    var checkCountdown: int
    var hbTicker: int
    ghost var places: Places

    ghost predicate Listed() reads this {
      Lists(active, waiting, invalid, places)
    }

    ghost predicate Valid() reads this {
      && Contract(next) && Listed() && 0 <= hbTicker < TICK_PER_SEC
      && on.Keys == places.Keys && forall p :: p in places ==> (on[p] <==> places[p].Active?)
    }

    /**
     Start-up: every controller is listed, and activated or deactivated to match. Of the
     templates only those with a valid time segment become controllers, but the first
     countdown asks whether there is any template at all.
     */
    constructor (templates: set<Ctrl>, ctrls: set<Ctrl>, next: NextTime, now: int)
      requires Contract(next) && ctrls <= templates
      ensures Valid() && places == Built(next, ctrls, now) && this.next == next && FromSlots(next, places)
      ensures checkCountdown == (if templates == {} then INT32_MAX else 0) && hbTicker == 0
    {
      this.next := next;
      active, waiting, invalid, on, places := {}, {}, {}, map[], map[];
      hbTicker := 0;
      checkCountdown := if templates == {} then INT32_MAX else 0;
      new;
      BuildList(now, ctrls);
      BuiltFromSlots(next, ctrls, now);
      ListSizes(active, waiting, invalid, places);
      assert |active| + |waiting| + |invalid| == |places|;
    }

    /** Lists a controller that is in no list by what its slot says. */
    method InsertToList(now: int, p: Ctrl) returns (act: bool)
      requires Listed() && p !in places
      modifies this`active, this`waiting, this`invalid, this`places
      ensures places == old(places)[p := SpotOf(next(p, now), now)] && Listed()
      ensures act <==> places[p].Active?
    {
      places := places[p := SpotOf(next(p, now), now)];
      act := false;
      match next(p, now) {
        case Over => invalid := invalid + {Entry(0, p)};
        case Span(start, end) =>
          if now == start {
            active := active + {Entry(end, p)};
            act := true;
          } else {
            waiting := waiting + {Entry(start, p)};
          }
      }
    }

    method BuildList(now: int, ctrls: set<Ctrl>)
      requires Valid() && places == map[]
      modifies this`active, this`waiting, this`invalid, this`on, this`places
      ensures Valid() && places == Built(next, ctrls, now)
    {
      var todo := ctrls;
      while todo != {}
        invariant Valid() && todo <= ctrls
        invariant places == Built(next, ctrls - todo, now)
        decreases todo
      {
        var p :| p in todo;
        var act := InsertToList(now, p);
        on := on[p := act];
        todo := todo - {p};
      }
    }

    /** Takes out of a list the entries that have expired. */
    method TakeOut(now: int, actives: bool) returns (expired: set<Entry>)
      requires Valid()
      modifies this`active, this`waiting, this`places
      ensures Listed() && MidPass(next, old(places), places, on, expired, actives, now)
    {
      ghost var start := places;
      if actives {
        expired := set e | e in active && e.at <= now;
        active := active - expired;
      } else {
        expired := set e | e in waiting && e.at <= now;
        waiting := waiting - expired;
      }
      places := map p | p in start && !Expires(start[p], actives, now) :: start[p];
    }

    /** Lists the controller of one expired entry anew, and turns it off or on. */
    method Relist(now: int, actives: bool, e: Entry, ghost start: Places, ghost expired: set<Entry>)
      requires Listed() && e in expired && MidPass(next, start, places, on, expired, actives, now)
      modifies this`active, this`waiting, this`invalid, this`on, this`places
      ensures Listed() && MidPass(next, start, places, on, expired - {e}, actives, now)
    {
      ghost var before, lit := places, on;
      assert on[e.who] == actives;
      var act := InsertToList(now, e.who);
      if act != actives {
        on := on[e.who := act];
      }
      assert on == lit[e.who := act];
      MidStep(next, start, before, lit, expired, e, actives, now, act);
    }

    /**
     One pass: takes the expired entries out of a list, then lists each controller anew.
     A controller that leaves the active list is deactivated, one that enters it from
     the waiting list is activated.
     */
    method CheckPass(now: int, actives: bool)
      requires Valid()
      modifies this`active, this`waiting, this`invalid, this`on, this`places
      ensures Valid() && places == Relisted(next, old(places), actives, now)
    {
      ghost var start := places;
      var expired := TakeOut(now, actives);
      while expired != {}
        invariant Listed() && MidPass(next, start, places, on, expired, actives, now)
        decreases expired
      {
        ghost var first := EarliestExists(expired);
        var e :| e in expired && forall f :: f in expired ==> e.at <= f.at;
        Relist(now, actives, e, start, expired);
        expired := expired - {e};
      }
      MidDone(next, start, places, on, actives, now);
    }

    method Nearest(list: set<Entry>) returns (at: int)
      ensures NearestIn(list, at)
    {
      if list == {} {
        return INT32_MAX;
      }
      ghost var first := EarliestExists(list);
      var e :| e in list && forall f :: f in list ==> e.at <= f.at;
      assert Earliest(list, e);
      return e.at;
    }

    /** Brings the lists up to date and says how many seconds to leave them alone. */
    method CalcNextCheckoutTime(now: int) returns (delay: int)
      requires Valid() && now <= INT32_MAX && AtMost32(places) && FromSlots(next, places)
      modifies this`active, this`waiting, this`invalid, this`on, this`places
      ensures Valid() && places == Checked(next, old(places), now)
      ensures DelayOk(places, now, delay) && AtMost32(places) && FromSlots(next, places)
      ensures delay < MAX_CHECKOUT && delay < INT32_MAX - now ==> Boundary(next, places, now + delay)
    {
      ghost var start := places;
      CheckPass(now, true);
      CheckPass(now, false);
      TwoPasses(next, start, now);
      CheckedFromSlots(next, start, now);
      ListSizes(active, waiting, invalid, places);
      assert |active| + |waiting| + |invalid| == |places|;
      var nextEnd := Nearest(active);
      var nextStart := Nearest(waiting);
      DelayFromLists(active, waiting, invalid, places, now, nextEnd, nextStart);
      delay := nextStart - now;
      if delay > nextEnd - now {
        delay := nextEnd - now;
      }
      if delay > MAX_CHECKOUT {
        delay := MAX_CHECKOUT;
      }
      DelayReaches(next, places, now, delay);
    }

    /** Twenty ticks make a second; a second counts down, and a countdown that is through checks. */
    method HeartbeatTick(now: int)
      requires Valid() && now <= INT32_MAX && AtMost32(places) && FromSlots(next, places)
      modifies this
      ensures Valid() && AtMost32(places) && FromSlots(next, places)
      ensures var full := old(hbTicker) + 1 >= TICK_PER_SEC;
              && hbTicker == (if full then 0 else old(hbTicker) + 1)
              && (!full ==> places == old(places) && checkCountdown == old(checkCountdown))
              && (full ==> places == SecondPlaces(next, old(places), old(checkCountdown), now))
              && (full && old(checkCountdown) - 1 > 0 ==> checkCountdown == old(checkCountdown) - 1)
              && (full && old(checkCountdown) - 1 <= 0 ==> DelayOk(places, now, checkCountdown))
    {
      if hbTicker + 1 >= TICK_PER_SEC {
        checkCountdown := checkCountdown - 1;
        if checkCountdown <= 0 {
          checkCountdown := CalcNextCheckoutTime(now);
        }
        hbTicker := 0;
      } else {
        hbTicker := hbTicker + 1;
      }
    }
  }
}
