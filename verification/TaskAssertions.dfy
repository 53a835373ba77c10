/**
 The assertions of the timed-task manager: all of them follow from the invariant but
 one. Cancelling an id that is active and already cancelled fails its assertion.
 */
module TaskAssertions {
  import opened TaskMachine
  import opened TaskCancel

  /** Erasing the ids of the entries from i on finds each of them. */
  predicate EachErased(active: set<Id>, s: seq<Entry>, i: nat)
    requires i <= |s|
    decreases |s| - i
  {
    i == |s| || (s[i].task.id in active && EachErased(active - {s[i].task.id}, s, i + 1))
  }

  /** What GetExpired asserts: the bound of what it takes, each erase, and the sizes. */
  predicate PopAsserts(m: Machine) {
    var k := Due(m.tasks, m.now);
    && (k == |m.tasks| || m.now < m.tasks[k].tick)
    && EachErased(m.active, m.tasks[..k], 0)
    && |m.active - Ids(m.tasks[..k])| == |m.tasks[k..]|
  }

  /** What a step asserts when it runs in state `m`. */
  predicate Asserts(m: Machine, e: Event) {
    match e
    case Enter(id) => id in m.inFlight ==> m.inFlight[id].task.id !in m.active
    case Cancel(id) => id in m.active ==> id !in m.canceled
    case Pop => m.phase == Popping && Due(m.tasks, m.now) > 0 ==> PopAsserts(m)
    case Act => m.phase == Firing && m.todo != [] && m.todo[0].task.times > 1 ==> m.todo[0].task.id !in m.active
    case _ => true
  }

  lemma {:induction false} ErasesFind(active: set<Id>, s: seq<Entry>, i: nat)
    requires i <= |s| && Distinct(s) && forall j :: i <= j < |s| ==> s[j].task.id in active
    ensures EachErased(active, s, i)
    decreases |s| - i
  {
    if i < |s| {
      ErasesFind(active - {s[i].task.id}, s, i + 1);
    }
  }

  lemma PopErases(m: Machine, k: nat, due: seq<Entry>)
    requires Inv(m) && k <= |m.tasks| && due == m.tasks[..k]
    ensures EachErased(m.active, due, 0)
  {
    forall j | 0 <= j < k ensures due[j].task.id in m.active {
      assert m.tasks[j] in m.tasks;
    }
    ErasesFind(m.active, due, 0);
  }

  lemma PopSizes(m: Machine, k: nat, due: seq<Entry>, rest: seq<Entry>)
    requires Inv(m) && k <= |m.tasks| && due == m.tasks[..k] && rest == m.tasks[k..]
    ensures |m.active - Ids(due)| == |rest|
  {
    SplitOk(m.tasks, k);
    IdsSize(rest);
  }

  lemma PopHolds(m: Machine)
    requires Inv(m)
    ensures PopAsserts(m)
  {
    ghost var k := Due(m.tasks, m.now);
    PopErases(m, k, m.tasks[..k]);
    PopSizes(m, k, m.tasks[..k], m.tasks[k..]);
  }

  /** In a state of the invariant only the second cancellation of an active id fails. */
  lemma StepAsserts(m: Machine, e: Event)
    requires Inv(m)
    ensures Asserts(m, e) <==> (e.Cancel? && e.id in m.active ==> e.id !in m.canceled)
  {
    match e
    case Pop => PopHolds(m);
    case Act =>
      if m.phase == Firing { DecidedInv(m); }
    case Enter(id) =>
      if id in m.inFlight { assert id !in Ids(m.tasks); }
    case _ =>
  }

  // ---- Over whole runs ----

  /** The state after the first n steps. */
  function After(start: Machine, es: seq<Event>, n: nat): Machine
    requires n <= |es|
  {
    Run(start, es[..n])
  }

  lemma AfterNext(start: Machine, es: seq<Event>, n: nat)
    requires n < |es|
    ensures After(start, es, n + 1) == Step(After(start, es, n), es[n])
  {
    ghost var last := [es[n]];
    assert es[..n + 1] == es[..n] + last;
    RunJoin(start, es[..n], last);
    assert last[1..] == [] && Run(Step(After(start, es, n), last[0]), last[1..]) == Step(After(start, es, n), last[0]);
  }

  /** Step i cancels `id` and finds it active. */
  predicate Cancels(start: Machine, es: seq<Event>, i: nat, id: Id)
    requires i < |es|
  {
    es[i] == Cancel(id) && id in After(start, es, i).active
  }

  /** Only a Cancel that finds its id active records it. */
  lemma RecordedBy(m: Machine, e: Event, id: Id)
    requires id in Step(m, e).canceled && id !in m.canceled
    ensures e == Cancel(id) && id in m.active
  {
  }

  /** A recorded cancellation goes back to a Cancel that found its id active. */
  lemma {:induction false} CanceledBefore(now: int, es: seq<Event>, n: nat, id: Id) returns (i: nat)
    requires n <= |es| && id in After(Initial(now), es, n).canceled
    ensures i < n && Cancels(Initial(now), es, i, id)
    decreases n
  {
    ghost var start := Initial(now);
    AfterNext(start, es, n - 1);
    if id in After(start, es, n - 1).canceled {
      i := CanceledBefore(now, es, n - 1, id);
    } else {
      RecordedBy(After(start, es, n - 1), es[n - 1], id);
      i := n - 1;
    }
  }

  lemma {:induction false} DoomedFrom(start: Machine, es: seq<Event>, i: nat, n: nat, id: Id)
    requires Inv(start) && i < n <= |es| && Cancels(start, es, i, id)
    ensures Doomed(After(start, es, n), id)
    decreases n
  {
    RunInv(start, es[..n - 1]);
    AfterNext(start, es, n - 1);
    if i < n - 1 {
      DoomedFrom(start, es, i, n - 1, id);
      DoomedStep(After(start, es, n - 1), id, es[n - 1]);
    } else {
      ghost var m := After(start, es, i);
      var e :| e in m.tasks && e.task.id == id;
      assert Live(e, m.highest);
    }
  }

  /**
   Over every run from the empty manager: all assertions of all steps hold if and only
   if no two cancellations of one id both find it active.
   */
  lemma AssertionsExactly(now: int, es: seq<Event>)
    ensures (forall n :: 0 <= n < |es| ==> Asserts(After(Initial(now), es, n), es[n])) <==>
            (forall i, n, id :: 0 <= i < n < |es| ==>
               !(Cancels(Initial(now), es, i, id) && Cancels(Initial(now), es, n, id)))
  {
    ghost var start := Initial(now);
    forall n | 0 <= n < |es| && !Asserts(After(start, es, n), es[n])
      ensures exists i, id :: 0 <= i < n && Cancels(start, es, i, id) && Cancels(start, es, n, id)
    {
      RunInv(start, es[..n]);
      StepAsserts(After(start, es, n), es[n]);
      var i := CanceledBefore(now, es, n, es[n].id);
      assert Cancels(start, es, n, es[n].id);
    }
    forall i, n, id | 0 <= i < n < |es| && Cancels(start, es, i, id) && Cancels(start, es, n, id)
      ensures !Asserts(After(start, es, n), es[n])
    {
      DoomedFrom(start, es, i, n, id);
    }
  }

  /** One task, cancelled twice before its tick comes. */
  lemma TwiceCancelled(info: Info)
    requires Accepted(info)
    ensures var m := Step(Step(Step(Initial(0), Allocate(info)), Enter(1)), Cancel(1));
            Inv(m) && !Asserts(m, Cancel(1))
  {
    ghost var m0 := Initial(0);
    StepInv(m0, Allocate(info));
    ghost var m1 := Step(m0, Allocate(info));
    StepInv(m1, Enter(1));
    StepInv(Step(m1, Enter(1)), Cancel(1));
  }

  // ---- A cancellation that comes too late ----

  /** A first task enters an empty set alone. */
  lemma EntersAlone(m: Machine, info: Info, id: Id, e: Entry)
    requires m == Initial(m.now) && Accepted(info) && id == m.highest + 1
    requires e == Step(m, Allocate(info)).inFlight[id]
    ensures Step(Step(m, Allocate(info)), Enter(id)) ==
            m.(tasks := [e], active := {id}, highest := id)
  {
    ghost var m1 := Step(m, Allocate(info));
    assert m1.inFlight - {id} == map[];
    assert Put([], e) == [e];
  }

  /** And is popped alone by the next tick, if it is due by then. */
  lemma PoppedAlone(m: Machine, id: Id, e: Entry)
    requires m.phase == Idle && m.tasks == [e] && m.active == {id} && e.task.id == id && e.tick <= m.now + 1
    ensures Step(Step(m, Advance), Pop) ==
            m.(now := m.now + 1, phase := Checking, todo := [e], tasks := [], active := {})
  {
    assert Ids([e]) == {id} by { assert e in [e]; }
  }

  /**
   A cancellation between the pop of a task and its turn: it finds the id inactive,
   changes nothing, and the task fires after it.
   */
  lemma CancelTooLate(now: int, info: Info) returns (es: seq<Event>)
    requires Accepted(info) && info.start + info.interval <= 1
    ensures var m := Step(Step(Step(Step(Initial(now), Allocate(info)), Enter(1)), Advance), Pop);
            && Inv(m) && Pending(m, 1) && 1 !in m.active
            && |FiresOf(Run(Step(m, Cancel(1)), es).log, 1)| == |FiresOf(m.log, 1)| + 1
  {
    ghost var start, id: Id := Initial(now), 1;
    ghost var e := Step(start, Allocate(info)).inFlight[id];
    ghost var m1 := Step(start, Allocate(info));
    ghost var m2 := Step(m1, Enter(id));
    ghost var m := Step(Step(m2, Advance), Pop);
    EntersAlone(start, info, id, e);
    PoppedAlone(m2, id, e);
    StepInv(start, Allocate(info));
    StepInv(m1, Enter(id));
    StepInv(m2, Advance);
    StepInv(Step(m2, Advance), Pop);
    assert e in m.todo;
    es := PoppedFires(m, id);
  }
}
