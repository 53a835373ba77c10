/**
 What Cancel guarantees: exactly when it finds its task active, no later step of any
 run emits for that task.
 */
module TaskCancel {
  import opened TaskMachine

  /** The decisions in the log that concern `id`. */
  function FiresOf(log: seq<Fire>, id: Id): seq<Fire>
    decreases |log|
  {
    if log == [] then []
    else FiresOf(log[..|log| - 1], id) +
         if log[|log| - 1].id == id then [log[|log| - 1]] else []
  }

  lemma FiresAppend(log: seq<Fire>, f: Fire, id: Id)
    ensures FiresOf(log + [f], id) == FiresOf(log, id) + if f.id == id then [f] else []
  {
    assert (log + [f])[..|log|] == log;
  }

  /** The task is gone, or whatever is left of it is marked as cancelled. */
  ghost predicate Doomed(m: Machine, id: Id) {
    && id <= m.highest && id !in m.inFlight
    && (id in m.active || id in Ids(m.todo) ==> id in m.canceled)
  }

  lemma DoomedStep(m: Machine, id: Id, e: Event)
    requires Inv(m) && Doomed(m, id)
    ensures Doomed(Step(m, e), id)
    ensures FiresOf(Step(m, e).log, id) == FiresOf(m.log, id)
  {
    match e
    case Allocate(_) =>
    case Enter(_) =>
    case Cancel(_) =>
    case Advance =>
    case Pop =>
      if m.phase == Popping {
        SplitOk(m.tasks, Due(m.tasks, m.now));
      }
    case Peek =>
    case Look =>
      if m.phase == Looking {
        HeadOk(m.todo);
      }
    case Act =>
      if m.phase == Firing {
        HeadOk(m.todo);
        var head := m.todo[0].task;
        FiresAppend(m.log, Fire(head.id, head.xid, head.param, m.now, head.times > 1, head.times - 1), id);
      }
  }

  lemma {:induction false} DoomedStaysSilent(m: Machine, id: Id, es: seq<Event>)
    requires Inv(m) && Doomed(m, id)
    ensures FiresOf(Run(m, es).log, id) == FiresOf(m.log, id)
    decreases |es|
  {
    if es != [] {
      DoomedStep(m, id, es[0]);
      StepInv(m, es[0]);
      DoomedStaysSilent(Step(m, es[0]), id, es[1..]);
    }
  }

  /** `id` is waiting in the set or was popped in the current tick, and is not cancelled. */
  ghost predicate Pending(m: Machine, id: Id) {
    (id in m.active || id in Ids(m.todo)) && id !in m.canceled
  }

  const ONE_ENTRY: seq<Event> := [Peek, Look, Act]

  lemma {:induction false} RunJoin(m: Machine, es: seq<Event>, fs: seq<Event>)
    ensures Run(m, es + fs) == Run(Run(m, es), fs)
    decreases |es|
  {
    if es == [] {
      assert es + fs == fs;
    } else {
      assert (es + fs)[1..] == es[1..] + fs;
      RunJoin(Step(m, es[0]), es[1..], fs);
    }
  }

  /** Peek and Look leave the head either to act on or dropped as cancelled. */
  lemma LookedAt(m: Machine)
    requires Inv(m) && m.todo != []
    ensures var m2 := Step(Step(m, Peek), Look);
            && Inv(m2) && m2.log == m.log
            && ((m2.phase == Firing && m2.todo == m.todo && m2.canceled == m.canceled) ||
                (m2.phase == Checking && m2.todo == m.todo[1..] && m.todo[0].task.id in m.canceled
                 && m2.canceled <= m.canceled))
  {
    StepInv(m, Peek);
    StepInv(Step(m, Peek), Look);
  }

  lemma OwnEntryDone(m: Machine, id: Id, looked: Machine, done: Machine)
    requires Inv(m) && m.todo != [] && m.todo[0].task.id == id && id !in m.canceled
    requires looked == Step(Step(m, Peek), Look) && done == Step(looked, Act)
    ensures Inv(done) && done.todo == m.todo[1..]
    ensures |FiresOf(done.log, id)| == |FiresOf(m.log, id)| + 1
  {
    LookedAt(m);
    StepInv(looked, Act);
    ghost var head := m.todo[0].task;
    FiresAppend(m.log, Fire(id, head.xid, head.param, m.now, head.times > 1, head.times - 1), id);
  }

  /** Acting on the entry of another task. */
  lemma OtherActs(m: Machine, id: Id, next: Machine)
    requires m.phase == Firing && m.todo != [] && m.todo[0].task.id != id && next == Step(m, Act)
    ensures next.todo == m.todo[1..] && next.canceled == m.canceled && FiresOf(next.log, id) == FiresOf(m.log, id)
  {
    FiresAppend(m.log, Decided(m).log[|m.log|], id);
  }

  lemma OtherEntryDone(m: Machine, id: Id, looked: Machine, done: Machine)
    requires Inv(m) && m.todo != [] && m.todo[0].task.id != id && id in Ids(m.todo) && id !in m.canceled
    requires looked == Step(Step(m, Peek), Look) && done == Step(looked, Act)
    ensures Inv(done) && done.todo == m.todo[1..]
    ensures id in Ids(done.todo) && id !in done.canceled && FiresOf(done.log, id) == FiresOf(m.log, id)
  {
    LookedAt(m);
    StepInv(looked, Act);
    HeadOk(m.todo);
    if looked.phase == Firing {
      OtherActs(looked, id, done);
    }
  }

  /** The three steps deal with the entry at the head of the popped ones, whatever the phase. */
  lemma OneEntryDone(m: Machine, id: Id)
    requires Inv(m) && m.todo != [] && id in Ids(m.todo) && id !in m.canceled
    ensures var m' := Run(m, ONE_ENTRY);
            && Inv(m') && m'.todo == m.todo[1..]
            && (m.todo[0].task.id == id ==> |FiresOf(m'.log, id)| == |FiresOf(m.log, id)| + 1)
            && (m.todo[0].task.id != id ==>
                  id in Ids(m'.todo) && id !in m'.canceled && FiresOf(m'.log, id) == FiresOf(m.log, id))
  {
    ghost var looked := Step(Step(m, Peek), Look);
    if m.todo[0].task.id == id {
      OwnEntryDone(m, id, looked, Step(looked, Act));
    } else {
      OtherEntryDone(m, id, looked, Step(looked, Act));
    }
  }

  /** A popped task that is not cancelled fires once the timer thread gets to it. */
  lemma {:induction false} PoppedFires(m: Machine, id: Id) returns (es: seq<Event>)
    requires Inv(m) && id in Ids(m.todo) && id !in m.canceled
    ensures |FiresOf(Run(m, es).log, id)| == |FiresOf(m.log, id)| + 1
    decreases |m.todo|
  {
    OneEntryDone(m, id);
    var m' := Run(m, ONE_ENTRY);
    if m.todo[0].task.id == id {
      es := ONE_ENTRY;
    } else {
      var rest := PoppedFires(m', id);
      es := ONE_ENTRY + rest;
      RunJoin(m, ONE_ENTRY, rest);
    }
  }

  /**
   For a task that is waiting or popped: Cancel silences it for good, in every run,
   exactly when it finds the id active. Between the pop and the re-entry it comes too
   late.
   */
  lemma CancelExactly(m: Machine, id: Id)
    requires Inv(m) && Pending(m, id)
    ensures (forall es :: FiresOf(Run(Step(m, Cancel(id)), es).log, id) == FiresOf(m.log, id))
            <==> id in m.active
  {
    var m' := Step(m, Cancel(id));
    StepInv(m, Cancel(id));
    if id in m.active {
      forall es ensures FiresOf(Run(m', es).log, id) == FiresOf(m.log, id) {
        var e :| e in m.tasks && e.task.id == id;
        assert Live(e, m.highest);
        DoomedStaysSilent(m', id, es);
      }
    } else {
      var es := PoppedFires(m', id);
      assert FiresOf(Run(m', es).log, id) != FiresOf(m.log, id);
    }
  }
}
