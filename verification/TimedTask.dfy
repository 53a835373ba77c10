/**
 The timed-task manager with its methods run one after the other. Each method is a run
 of the machine, so every theorem about runs holds for it.
 */
module TimedTask {
  import opened Sequences
  import opened TaskMachine
  import opened TaskCancel
  import opened TaskAssertions

  /** One popped entry dealt with: peek, look, act. */
  function Settled(m: Machine): Machine {
    Step(Step(Step(m, Peek), Look), Act)
  }

  lemma SettledShrinks(m: Machine)
    requires m.phase == Checking && m.todo != []
    ensures Settled(m).phase == Checking && Settled(m).todo == m.todo[1..]
  {
  }

  lemma SettledInv(m: Machine)
    requires Inv(m)
    ensures Inv(Settled(m))
    ensures m.todo != [] ==> m.todo[0].task.id !in m.active
  {
    assert m.todo != [] ==> m.todo[0] in m.todo;
    StepInv(m, Peek);
    StepInv(Step(m, Peek), Look);
    StepInv(Step(Step(m, Peek), Look), Act);
  }

  /** The timer thread carrying a tick to its end with nothing in between. */
  function Drain(m: Machine): Machine
    decreases |m.todo|
  {
    if m.phase != Checking then m
    else if m.todo == [] then Step(m, Peek)
    else
      SettledShrinks(m);
      Drain(Settled(m))
  }

  lemma {:induction false} DrainIsRun(m: Machine) returns (es: seq<Event>)
    ensures Run(m, es) == Drain(m)
    ensures forall i :: 0 <= i < |es| ==> es[i] in {Peek, Look, Act}
    decreases |m.todo|
  {
    if m.phase != Checking {
      es := [];
    } else if m.todo == [] {
      es := [Peek];
      assert Run(Step(m, Peek), es[1..]) == Step(m, Peek);
    } else {
      SettledShrinks(m);
      var rest := DrainIsRun(Settled(m));
      es := ONE_ENTRY + rest;
      RunJoin(m, ONE_ENTRY, rest);
    }
  }

  /** A whole uninterrupted tick is a run of the machine, and ends idle. */
  function WholeTick(m: Machine): Machine {
    Drain(Step(Step(m, Advance), Pop))
  }

  lemma {:induction false} DrainEndsIdle(m: Machine)
    requires m.phase in {Idle, Checking}
    ensures Drain(m).phase == Idle
    decreases |m.todo|
  {
    if m.phase == Checking && m.todo != [] {
      SettledShrinks(m);
      DrainEndsIdle(Settled(m));
    }
  }

  lemma WholeTickIsRun(m: Machine) returns (es: seq<Event>)
    requires m.phase == Idle
    ensures Run(m, es) == WholeTick(m) && WholeTick(m).phase == Idle
    ensures forall i :: 0 <= i < |es| ==> !es[i].Cancel?
  {
    var m2 := Step(Step(m, Advance), Pop);
    var rest := DrainIsRun(m2);
    DrainEndsIdle(m2);
    es := [Advance, Pop] + rest;
    RunJoin(m, [Advance, Pop], rest);
    assert [Advance, Pop][1..] == [Pop] && [Pop][1..] == [];
    assert Run(Step(m, Advance), [Pop]) == Run(m2, []);
  }

  function NewEntry(m: Machine, info: Info): Entry {
    Entry(m.now + info.start + info.interval, Task(m.highest + 1, info.xid, info.interval, info.times, info.param))
  }

  /** Adding a task without interference: a fresh id, in the set and in the index. */
  function Added(m: Machine, info: Info): Machine {
    if Accepted(info) then Inserted(m.(highest := m.highest + 1), NewEntry(m, info)) else m
  }

  lemma FreshId(m: Machine)
    requires Inv(m)
    ensures m.highest + 1 !in m.active
  {
    forall e | e in m.tasks ensures e.task.id <= m.highest {
      assert Live(e, m.highest);
    }
  }

  lemma AddIsRun(m: Machine, info: Info)
    requires Inv(m) && m.inFlight == map[]
    ensures Inv(Added(m, info))
    ensures Added(m, info) ==
            if Accepted(info) then Step(Step(m, Allocate(info)), Enter(m.highest + 1)) else m
  {
    if Accepted(info) {
      var id, m1 := m.highest + 1, Step(m, Allocate(info));
      assert m1.inFlight - {id} == m.inFlight;
      assert m1.(inFlight := m1.inFlight - {id}) == m.(highest := id);
      assert m1.inFlight[id] == NewEntry(m, info);
      assert Step(m1, Enter(id)) == Added(m, info);
      StepInv(m, Allocate(info));
      StepInv(m1, Enter(id));
    }
  }

  lemma TickOpens(m: Machine)
    requires m.phase == Idle && m.todo == []
    ensures var k, m' := Due(m.tasks, m.now + 1), Step(Step(m, Advance), Pop);
            if k == 0 then WholeTick(m) == m.(now := m.now + 1)
            else m' == m.(now := m.now + 1, phase := Checking, todo := m.tasks[..k], tasks := m.tasks[k..],
                          active := m.active - Ids(m.tasks[..k]))
                 && WholeTick(m) == Drain(m')
  {
  }

  lemma TickOpensInv(m: Machine)
    requires Inv(m)
    ensures Inv(Step(Step(m, Advance), Pop))
  {
    StepInv(m, Advance);
    StepInv(Step(m, Advance), Pop);
  }

  lemma TickCloses(m: Machine)
    requires m.phase == Checking && m.todo == []
    ensures Drain(m) == m.(phase := Idle)
  {
  }

  class TimedTaskManager {
    var tasksSet: seq<Entry>
    var activeTasks: set<Id>
    var canceledTasks: set<Id>
    var curHighestId: nat
    var sent: seq<Fire>   // what was handed to the runnable pool, in order

    ghost function View(now: int): Machine reads this {
      Machine(now, Idle, tasksSet, activeTasks, canceledTasks, curHighestId, map[], [], sent)
    }

    ghost function During(now: int, todo: seq<Entry>, queue: seq<Fire>): Machine reads this {
      Machine(now, Checking, tasksSet, activeTasks, canceledTasks, curHighestId, map[], todo, sent + queue)
    }

    constructor (now: int)
      ensures View(now) == Initial(now) && Inv(View(now))
    {
      tasksSet, activeTasks, canceledTasks, curHighestId, sent := [], {}, {}, 0, [];
    }

    method FindSlot(tick: int) returns (p: nat)
      ensures p == Slot(tasksSet, tick)
    {
      p := 0;
      while p < |tasksSet| && tasksSet[p].tick < tick
        invariant p <= |tasksSet| && SlotFrom(tasksSet, tick, p) == Slot(tasksSet, tick)
      {
        p := p + 1;
      }
    }

    method InsertToTaskSet(when: int, task: Task)
      requires task.id !in activeTasks
      modifies this`tasksSet, this`activeTasks
      ensures tasksSet == Put(old(tasksSet), Entry(when, task))
      ensures activeTasks == old(activeTasks) + {task.id}
    {
      var p := FindSlot(when);
      tasksSet := Spliced(tasksSet, p, Entry(when, task));
      activeTasks := activeTasks + {task.id};
    }

    method AddTimedTask(now: int, info: Info) returns (ok: bool, id: Id)
      requires Inv(View(now))
      modifies this
      ensures ok <==> info.interval >= 0 && info.times > 0 && info.start >= 0
      ensures Inv(View(now)) && View(now) == Added(old(View(now)), info)
      ensures !ok ==> View(now) == old(View(now))
      ensures ok ==> id == old(curHighestId) + 1
    {
      AddIsRun(View(now), info);
      if info.interval < 0 || info.times <= 0 || info.start < 0 {
        return false, 0;
      }
      FreshId(View(now));
      id := Allocate(now, info);
      ok := true;
    }

    method Allocate(now: int, info: Info) returns (id: Id)
      requires Accepted(info) && curHighestId + 1 !in activeTasks
      modifies this
      ensures View(now) == Added(old(View(now)), info) && id == old(curHighestId) + 1
    {
      ghost var m := View(now);
      curHighestId := curHighestId + 1;
      id := curHighestId;
      var when := now + info.start + info.interval;
      InsertToTaskSet(when, Task(id, info.xid, info.interval, info.times, info.param));
      assert View(now) == Inserted(m.(highest := m.highest + 1), NewEntry(m, info));
    }

    /** The source asserts that a recorded cancellation is new. */
    method Cancel(now: int, id: Id)
      requires Inv(View(now)) && (id in activeTasks ==> id !in canceledTasks)
      modifies this`canceledTasks
      ensures Inv(View(now)) && View(now) == Step(old(View(now)), Event.Cancel(id))
    {
      StepInv(View(now), Event.Cancel(id));
      if id in activeTasks {
        canceledTasks := canceledTasks + {id};
      }
    }

    method HasExpiredTasks(now: int) returns (b: bool)
      ensures b <==> Due(tasksSet, now) > 0
    {
      b := !(tasksSet == [] || now < tasksSet[0].tick);
    }

    /** Takes what is due out of the set and out of the index of active ids. */
    method GetExpired(now: int) returns (expired: seq<Entry>)
      requires Sorted(tasksSet) && Distinct(tasksSet) && activeTasks == Ids(tasksSet)
      modifies this`tasksSet, this`activeTasks
      ensures expired == old(tasksSet)[..Due(old(tasksSet), now)]
      ensures tasksSet == old(tasksSet)[Due(old(tasksSet), now)..]
      ensures activeTasks == old(activeTasks) - Ids(expired)
    {
      var k := FindSlot(now + 1);
      assert k == |tasksSet| || now < tasksSet[k].tick;
      SplitOk(tasksSet, k);
      expired := tasksSet[..k];
      tasksSet := tasksSet[k..];
      EraseActive(expired);
      IdsSize(tasksSet);
      assert |activeTasks| == |tasksSet|;
    }

    /** Erases the ids of the entries one by one, finding each. */
    method EraseActive(expired: seq<Entry>)
      requires Distinct(expired) && Ids(expired) <= activeTasks
      modifies this`activeTasks
      ensures activeTasks == old(activeTasks) - Ids(expired)
    {
      assert expired[..0] == [];
      for i := 0 to |expired|
        invariant activeTasks == old(activeTasks) - Ids(expired[..i])
      {
        assert expired[i].task.id in activeTasks;
        activeTasks := activeTasks - {expired[i].task.id};
      }
      assert expired[..|expired|] == expired;
    }

    /** The processing of one popped entry; says whether a message was decided. */
    method Settle(now: int, todo: seq<Entry>, queue: seq<Fire>) returns (queue': seq<Fire>)
      requires todo != [] && todo[0].task.id !in activeTasks
      modifies this`tasksSet, this`activeTasks, this`canceledTasks
      ensures During(now, todo[1..], queue') == Settled(old(During(now, todo, queue)))
    {
      var task := todo[0].task;
      queue' := queue;
      if canceledTasks != {} {
        if task.id in canceledTasks {
          canceledTasks := canceledTasks - {task.id};
          return;
        }
      }
      var left := task.times - 1;
      queue' := queue + [Fire(task.id, task.xid, task.param, now, left > 0, left)];
      assert sent + queue' == sent + queue + [Fire(task.id, task.xid, task.param, now, left > 0, left)];
      if left > 0 {
        InsertToTaskSet(now + task.interval, task.(times := left));
      }
    }

    method SettleHead(now: int, todo: seq<Entry>, queue: seq<Fire>) returns (queue': seq<Fire>)
      requires todo != [] && Inv(During(now, todo, queue))
      modifies this`tasksSet, this`activeTasks, this`canceledTasks
      ensures During(now, todo[1..], queue') == Settled(old(During(now, todo, queue)))
      ensures Inv(During(now, todo[1..], queue'))
    {
      ghost var before := During(now, todo, queue);
      SettledInv(before);
      queue' := Settle(now, todo, queue);
    }

    /** One tick, right after the tick counter has moved to `now`. */
    method Tick(now: int)
      requires Inv(View(now - 1))
      modifies this
      ensures Inv(View(now)) && View(now) == WholeTick(old(View(now - 1)))
    {
      ghost var before := View(now - 1);
      ghost var es := WholeTickIsRun(before);
      RunInv(before, es);
      TickOpens(before);
      TickOpensInv(before);
      var some := HasExpiredTasks(now);
      if !some {
        return;
      }
      var expired := GetExpired(now);
      var queue: seq<Fire> := [];
      assert sent + queue == sent;
      assert During(now, expired, queue) == Step(Step(before, Advance), Pop);
      while expired != []
        invariant Inv(During(now, expired, queue))
        invariant Drain(During(now, expired, queue)) == WholeTick(before)
        decreases |expired|
      {
        SettledShrinks(During(now, expired, queue));
        queue := SettleHead(now, expired, queue);
        expired := expired[1..];
      }
      TickCloses(During(now, expired, queue));
      sent := sent + queue;
    }
  }
}
