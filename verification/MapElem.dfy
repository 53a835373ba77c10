/**
 When map elements are on: each controller is in one of three lists, with the time of
 its next boundary, and a countdown says when to look at the lists again. The time
 slots are abstract; `next` is what a slot's GetNextTime returns.
 */
module MapElem {
  import opened Numbers

  type Ctrl = nat

  /** The nearest span at or after the time asked for, or the slot is over for good. */
  datatype Span = Over | Span(start: int, end: int)

  type NextTime = (Ctrl, int) -> Span

  const INT32_MAX := 0x7FFF_FFFF
  const MAX_CHECKOUT := 541

  predicate InSlot(next: NextTime, p: Ctrl, t: int) {
    next(p, t).Span? && next(p, t).start == t
  }

  /**
   The contract of GetNextTime: a span begins no earlier than the time asked for and
   is not empty; no time before it is in the slot; a span that begins now is in the
   slot up to its end; and what is over stays over.
   */
  ghost predicate Contract(next: NextTime) {
    forall p, t :: match next(p, t)
      case Over => forall u :: t <= u ==> !InSlot(next, p, u)
      case Span(start, end) =>
        && t <= start <= end <= INT32_MAX
        && (t < start ==> forall u :: t <= u < start ==> !InSlot(next, p, u))
        && (t == start ==> forall u :: t <= u <= end ==> InSlot(next, p, u))
  }

  /** Where a controller is: active until a time, waiting from a time, or done. */
  datatype Spot = Active(at: int) | Waiting(at: int) | Invalid

  type Places = map<Ctrl, Spot>

  /** Where a controller goes when it is looked at. */
  function SpotOf(s: Span, now: int): Spot {
    match s
    case Over => Invalid
    case Span(start, end) => if now == start then Active(end) else Waiting(start)
  }

  predicate Due(s: Spot, now: int) {
    !s.Invalid? && s.at <= now
  }

  /** A check looks again at every controller whose boundary has been reached. */
  function Checked(next: NextTime, places: Places, now: int): (r: Places)
    ensures r.Keys == places.Keys
  {
    map p | p in places :: if Due(places[p], now) then SpotOf(next(p, now), now) else places[p]
  }

  function Built(next: NextTime, ctrls: set<Ctrl>, now: int): Places {
    map p | p in ctrls :: SpotOf(next(p, now), now)
  }

  /** The delay a check returns never passes a boundary, the cap, or the end of time. */
  ghost predicate DelayOk(places: Places, now: int, delay: int) {
    && 0 <= delay <= MAX_CHECKOUT && delay <= INT32_MAX - now
    && (forall p :: p in places && !places[p].Invalid? ==> delay <= places[p].at - now)
    && (delay == MAX_CHECKOUT || delay == INT32_MAX - now ||
        exists p :: p in places && !places[p].Invalid? && delay == places[p].at - now)
  }

  /** One second: count down and check when the countdown is through. */
  function SecondPlaces(next: NextTime, places: Places, countdown: int, now: int): Places {
    if countdown - 1 <= 0 then Checked(next, places, now) else places
  }

  // ---- Elements are on exactly in their slots ----

  /**
   At time `last` with `countdown` seconds to go: every place says the truth about the
   slot from `last` up to its boundary, and no boundary comes before the next check.
   */
  ghost predicate Timely(next: NextTime, places: Places, countdown: int, last: int) {
    forall p :: p in places ==>
      match places[p]
      case Invalid => forall u :: last <= u ==> !InSlot(next, p, u)
      case Waiting(at) =>
        last + Max(1, countdown) <= at && forall u :: last <= u < at ==> !InSlot(next, p, u)
      case Active(at) =>
        && (last + Max(1, countdown) <= at || (at == last && countdown <= 1))
        && forall u :: last <= u <= at ==> InSlot(next, p, u)
  }

  /** In a timely state a controller is active exactly when the time is in its slot. */
  lemma TimelyIsRight(next: NextTime, places: Places, countdown: int, last: int)
    requires Timely(next, places, countdown, last)
    ensures forall p :: p in places ==> (places[p].Active? <==> InSlot(next, p, last))
  {
  }

  lemma BuiltTimely(next: NextTime, ctrls: set<Ctrl>, now: int)
    requires Contract(next)
    ensures Timely(next, Built(next, ctrls, now), 0, now)
  {
  }

  lemma CheckedTimely(next: NextTime, places: Places, countdown: int, last: int, now: int, delay: int)
    requires Contract(next) && Timely(next, places, countdown, last) && last <= now <= last + 1
    requires countdown <= 1 && DelayOk(Checked(next, places, now), now, delay)
    ensures Timely(next, Checked(next, places, now), delay, now)
  {
  }

  lemma CountedTimely(next: NextTime, places: Places, countdown: int, last: int, now: int)
    requires Timely(next, places, countdown, last) && last <= now <= last + 1 && countdown > 1
    ensures Timely(next, places, countdown - 1, now)
  {
  }

  /** What the seconds of a run see: the clock, and the delay if it came to a check. */
  datatype Second = Second(now: int, delay: int)

  function RunPlaces(next: NextTime, places: Places, countdown: int, run: seq<Second>): Places
    decreases |run|
  {
    if run == [] then places
    else
      RunPlaces(next, SecondPlaces(next, places, countdown, run[0].now),
                if countdown - 1 <= 0 then run[0].delay else countdown - 1, run[1..])
  }

  function LastTime(last: int, run: seq<Second>): int {
    if run == [] then last else run[|run| - 1].now
  }

  /** The clock goes on by at most one per second counted, and delays are those computed. */
  ghost predicate Steady(next: NextTime, places: Places, countdown: int, last: int, run: seq<Second>)
    decreases |run|
  {
    run == [] ||
    (&& last <= run[0].now <= last + 1
     && (countdown - 1 <= 0 ==> DelayOk(Checked(next, places, run[0].now), run[0].now, run[0].delay))
     && Steady(next, SecondPlaces(next, places, countdown, run[0].now),
               if countdown - 1 <= 0 then run[0].delay else countdown - 1, run[0].now, run[1..]))
  }

  lemma {:induction false} RunTimely(next: NextTime, places: Places, countdown: int, last: int, run: seq<Second>)
    requires Contract(next) && Timely(next, places, countdown, last) && Steady(next, places, countdown, last, run)
    ensures forall p :: p in RunPlaces(next, places, countdown, run) ==>
              (RunPlaces(next, places, countdown, run)[p].Active? <==> InSlot(next, p, LastTime(last, run)))
    decreases |run|
  {
    if run == [] {
      TimelyIsRight(next, places, countdown, last);
    } else {
      var now := run[0].now;
      if countdown - 1 <= 0 {
        CheckedTimely(next, places, countdown, last, now, run[0].delay);
        RunTimely(next, Checked(next, places, now), run[0].delay, now, run[1..]);
      } else {
        CountedTimely(next, places, countdown, last, now);
        RunTimely(next, places, countdown - 1, now, run[1..]);
      }
    }
  }

  /**
   From the start, at every second of every run under a steady clock: a controller is
   active exactly while the time is in its slot.
   */
  lemma OnExactlyInSlot(next: NextTime, ctrls: set<Ctrl>, start: int, run: seq<Second>)
    requires Contract(next) && Steady(next, Built(next, ctrls, start), 0, start, run)
    ensures forall p :: p in RunPlaces(next, Built(next, ctrls, start), 0, run) ==>
              (RunPlaces(next, Built(next, ctrls, start), 0, run)[p].Active? <==>
               InSlot(next, p, LastTime(start, run)))
  {
    BuiltTimely(next, ctrls, start);
    RunTimely(next, Built(next, ctrls, start), 0, start, run);
  }

  // ---- Whatever the clock does, a check puts everything right ----

  /** What the places say is true of the slots from `last` up to each boundary. */
  ghost predicate Truthful(next: NextTime, places: Places, last: int) {
    forall p :: p in places ==>
      match places[p]
      case Invalid => forall u :: last <= u ==> !InSlot(next, p, u)
      case Waiting(at) => forall u :: last <= u < at ==> !InSlot(next, p, u)
      case Active(at) => forall u :: last <= u <= at ==> InSlot(next, p, u)
  }

  function RunChecks(next: NextTime, places: Places, checks: seq<int>): Places
    decreases |checks|
  {
    if checks == [] then places else RunChecks(next, Checked(next, places, checks[0]), checks[1..])
  }

  predicate Ascending(last: int, checks: seq<int>)
    decreases |checks|
  {
    checks == [] || (last <= checks[0] && Ascending(checks[0], checks[1..]))
  }

  /**
   The clock may jump: as long as it never goes back, right after every check a
   controller is active exactly if the time is in its slot.
   */
  lemma {:induction false} RightAfterEveryCheck(next: NextTime, places: Places, last: int, checks: seq<int>, now: int)
    requires Contract(next) && Truthful(next, places, last) && Ascending(last, checks + [now])
    ensures forall p :: p in RunChecks(next, places, checks + [now]) ==>
              (RunChecks(next, places, checks + [now])[p].Active? <==> InSlot(next, p, now))
    decreases |checks|
  {
    var all := checks + [now];
    if checks == [] {
      assert all[1..] == [];
      assert RunChecks(next, places, all) == Checked(next, places, now);
    } else {
      assert all[1..] == checks[1..] + [now];
      CheckedTruthful(next, places, last, checks[0]);
      RightAfterEveryCheck(next, Checked(next, places, checks[0]), checks[0], checks[1..], now);
    }
  }

  lemma CheckedTruthful(next: NextTime, places: Places, last: int, now: int)
    requires Contract(next) && Truthful(next, places, last) && last <= now
    ensures Truthful(next, Checked(next, places, now), now)
  {
  }

  // ---- What the cap is for: no jump leaves things wrong for long ----

  function RunCountdown(countdown: int, run: seq<Second>): int
    decreases |run|
  {
    if run == [] then countdown
    else RunCountdown(if countdown - 1 <= 0 then run[0].delay else countdown - 1, run[1..])
  }

  /** The clock may jump forward by any amount in any second. */
  predicate Onward(last: int, run: seq<Second>)
    decreases |run|
  {
    run == [] || (last <= run[0].now && Onward(run[0].now, run[1..]))
  }

  lemma RecheckedTimely(next: NextTime, places: Places, last: int, now: int, delay: int)
    requires Contract(next) && Truthful(next, places, last) && last <= now
    requires DelayOk(Checked(next, places, now), now, delay)
    ensures Timely(next, Checked(next, places, now), delay, now)
  {
  }

  /** The countdown runs down second by second, and its last second checks. */
  lemma {:induction false} CheckedAtLast(next: NextTime, places: Places, countdown: int, run: seq<Second>)
    requires |run| == Max(1, countdown)
    ensures var s := run[|run| - 1];
            && RunPlaces(next, places, countdown, run) == Checked(next, places, s.now)
            && RunCountdown(countdown, run) == s.delay
    decreases |run|
  {
    if |run| == 1 {
      assert run[1..] == [];
    } else {
      CheckedAtLast(next, places, countdown - 1, run[1..]);
    }
  }

  lemma {:induction false} OnwardFrom(last: int, run: seq<Second>)
    requires Onward(last, run)
    ensures last <= LastTime(last, run)
    decreases |run|
  {
    if run != [] {
      OnwardFrom(run[0].now, run[1..]);
    }
  }

  lemma {:induction false} RunsJoin(next: NextTime, places: Places, countdown: int, run: seq<Second>, more: seq<Second>)
    ensures RunPlaces(next, places, countdown, run + more) ==
            RunPlaces(next, RunPlaces(next, places, countdown, run), RunCountdown(countdown, run), more)
    decreases |run|
  {
    if run == [] {
      assert run + more == more;
    } else {
      assert (run + more)[1..] == run[1..] + more;
      RunsJoin(next, SecondPlaces(next, places, countdown, run[0].now),
               if countdown - 1 <= 0 then run[0].delay else countdown - 1, run[1..], more);
    }
  }

  /**
   Whatever the clock jumps in the seconds up to the next check, which are at most 541
   once there has been a check, from that check on every controller is active exactly in
   its slot again for as long as the clock runs steadily.
   */
  lemma JumpsAreMended(next: NextTime, places: Places, countdown: int, last: int, run: seq<Second>, more: seq<Second>)
    requires Contract(next) && Truthful(next, places, last) && countdown <= MAX_CHECKOUT
    requires |run| == Max(1, countdown) && Onward(last, run)
    requires var s := run[|run| - 1];
             && DelayOk(Checked(next, places, s.now), s.now, s.delay)
             && Steady(next, Checked(next, places, s.now), s.delay, s.now, more)
    ensures |run| <= MAX_CHECKOUT && RunCountdown(countdown, run) <= MAX_CHECKOUT
    ensures var places' := RunPlaces(next, places, countdown, run + more);
            forall p :: p in places' ==> (places'[p].Active? <==> InSlot(next, p, LastTime(last, run + more)))
  {
    ghost var s := run[|run| - 1];
    OnwardFrom(last, run);
    CheckedAtLast(next, places, countdown, run);
    RecheckedTimely(next, places, last, s.now, s.delay);
    RunTimely(next, Checked(next, places, s.now), s.delay, s.now, more);
    RunsJoin(next, places, countdown, run, more);
    assert LastTime(s.now, more) == LastTime(last, run + more);
  }

  // ---- What is listed is what the slots said ----

  /** At time `t` the slot gave the span that `s` stands for. */
  predicate ListedBy(next: NextTime, p: Ctrl, s: Spot, t: int) {
    match s
    case Invalid => next(p, t).Over?
    case Waiting(at) => next(p, t).Span? && next(p, t).start == at && t < at
    case Active(at) => next(p, t).Span? && next(p, t).start == t && next(p, t).end == at
  }

  ghost predicate FromSlots(next: NextTime, places: Places) {
    forall p :: p in places ==> exists t :: ListedBy(next, p, places[p], t)
  }

  lemma SpotListed(next: NextTime, p: Ctrl, now: int)
    requires Contract(next)
    ensures ListedBy(next, p, SpotOf(next(p, now), now), now)
  {
  }

  lemma BuiltFromSlots(next: NextTime, ctrls: set<Ctrl>, now: int)
    requires Contract(next)
    ensures FromSlots(next, Built(next, ctrls, now))
  {
    ghost var built := Built(next, ctrls, now);
    forall p | p in ctrls ensures exists t :: ListedBy(next, p, built[p], t) {
      SpotListed(next, p, now);
      assert ListedBy(next, p, built[p], now);
    }
  }

  lemma CheckedFromSlots(next: NextTime, places: Places, now: int)
    requires Contract(next) && FromSlots(next, places)
    ensures FromSlots(next, Checked(next, places, now))
  {
    ghost var after := Checked(next, places, now);
    forall p | p in places ensures exists t :: ListedBy(next, p, after[p], t) {
      SpotListed(next, p, now);
    }
  }

  /** The second in which a delay ends is a start or an end that some slot gave. */
  ghost predicate Boundary(next: NextTime, places: Places, at: int) {
    exists p, t :: p in places && next(p, t).Span? &&
      (if next(p, t).start == t then at == next(p, t).end else t < at == next(p, t).start)
  }

  /** A delay that neither the cap nor the end of time cuts short reaches a boundary of a slot. */
  lemma DelayReaches(next: NextTime, places: Places, now: int, delay: int)
    requires FromSlots(next, places) && DelayOk(places, now, delay)
    ensures delay < MAX_CHECKOUT && delay < INT32_MAX - now ==> Boundary(next, places, now + delay)
  {
    if delay < MAX_CHECKOUT && delay < INT32_MAX - now {
      var p :| p in places && !places[p].Invalid? && delay == places[p].at - now;
      var t :| ListedBy(next, p, places[p], t);
      assert next(p, t).Span?;
    }
  }

  /** The times of the checks of a run. */
  function CheckTimes(countdown: int, run: seq<Second>): seq<int>
    decreases |run|
  {
    if run == [] then []
    else if countdown - 1 <= 0 then [run[0].now] + CheckTimes(run[0].delay, run[1..])
    else CheckTimes(countdown - 1, run[1..])
  }

  lemma {:induction false} RunIsChecks(next: NextTime, places: Places, countdown: int, run: seq<Second>)
    ensures RunPlaces(next, places, countdown, run) == RunChecks(next, places, CheckTimes(countdown, run))
    decreases |run|
  {
    if run != [] {
      RunIsChecks(next, SecondPlaces(next, places, countdown, run[0].now),
                  if countdown - 1 <= 0 then run[0].delay else countdown - 1, run[1..]);
    }
  }

  lemma {:induction false} OneMoreCheck(next: NextTime, places: Places, checks: seq<int>, now: int)
    ensures RunChecks(next, places, checks + [now]) == Checked(next, RunChecks(next, places, checks), now)
    decreases |checks|
  {
    ghost var all := checks + [now];
    if checks == [] {
      assert all[1..] == [];
    } else {
      assert all[1..] == checks[1..] + [now];
      OneMoreCheck(next, Checked(next, places, checks[0]), checks[1..], now);
    }
  }

  /** Where everybody is after the start-up and the first `n` checks. */
  function AfterChecks(next: NextTime, ctrls: set<Ctrl>, start: int, checks: seq<int>, n: nat): Places
    requires n <= |checks|
  {
    RunChecks(next, Built(next, ctrls, start), checks[..n])
  }

  lemma AfterNext(next: NextTime, ctrls: set<Ctrl>, start: int, checks: seq<int>, n: nat)
    requires n < |checks|
    ensures AfterChecks(next, ctrls, start, checks, n + 1) ==
            Checked(next, AfterChecks(next, ctrls, start, checks, n), checks[n])
  {
    assert checks[..n + 1] == checks[..n] + [checks[n]];
    OneMoreCheck(next, Built(next, ctrls, start), checks[..n], checks[n]);
  }

  /** The time of listing number `i`: the start-up, then the checks. */
  function When(start: int, checks: seq<int>, i: nat): int
    requires i <= |checks|
  {
    if i == 0 then start else checks[i - 1]
  }

  /**
   Whatever the clock does: where a controller is after any number of checks is what its
   slot said when it was last listed. That was at the start-up, or at the check that found
   the boundary before that one reached; no check since has found the new one reached.
   */
  lemma {:induction false} LastListed(next: NextTime, ctrls: set<Ctrl>, start: int, checks: seq<int>, n: nat, p: Ctrl)
    returns (i: nat)
    requires Contract(next) && n <= |checks| && p in ctrls
    ensures i <= n && p in AfterChecks(next, ctrls, start, checks, n)
    ensures var s := AfterChecks(next, ctrls, start, checks, n)[p];
            && ListedBy(next, p, s, When(start, checks, i))
            && forall j :: i <= j < n ==> s.Invalid? || checks[j] < s.at
    ensures i > 0 ==> p in AfterChecks(next, ctrls, start, checks, i - 1) &&
                      var was := AfterChecks(next, ctrls, start, checks, i - 1)[p];
                      !was.Invalid? && was.at <= checks[i - 1]
    decreases n
  {
    if n == 0 {
      i := 0;
      SpotListed(next, p, start);
    } else {
      i := LastListed(next, ctrls, start, checks, n - 1, p);
      ghost var now, before := checks[n - 1], AfterChecks(next, ctrls, start, checks, n - 1);
      AfterNext(next, ctrls, start, checks, n - 1);
      assert AfterChecks(next, ctrls, start, checks, n)[p] ==
             if Due(before[p], now) then SpotOf(next(p, now), now) else before[p];
      if Due(before[p], now) {
        i := n;
        SpotListed(next, p, now);
      }
    }
  }

  /** The same over every run of counted seconds. */
  lemma LastListedInRun(next: NextTime, ctrls: set<Ctrl>, start: int, run: seq<Second>, p: Ctrl) returns (i: nat)
    requires Contract(next) && p in ctrls
    ensures var checks, places := CheckTimes(0, run), RunPlaces(next, Built(next, ctrls, start), 0, run);
            && i <= |checks| && p in places && ListedBy(next, p, places[p], When(start, checks, i))
            && forall j :: i <= j < |checks| ==> places[p].Invalid? || checks[j] < places[p].at
  {
    ghost var checks := CheckTimes(0, run);
    RunIsChecks(next, Built(next, ctrls, start), 0, run);
    i := LastListed(next, ctrls, start, checks, |checks|, p);
    assert checks[..|checks|] == checks;
  }

  // ---- The contract can be met ----

  /** A slot that is open once, from 50 to 100. */
  function OpenOnce(p: Ctrl, t: int): Span {
    if t < 50 then Span(50, 100) else if t <= 100 then Span(t, 100) else Over
  }

  lemma OpenOnceMeetsContract()
    ensures Contract(OpenOnce) && InSlot(OpenOnce, 0, 75) && !InSlot(OpenOnce, 0, 101)
  {
  }
}
