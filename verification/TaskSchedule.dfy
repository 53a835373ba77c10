/**
 When a task fires: from the moment it enters the set, an uncancelled task fires on a
 fixed schedule, whatever other tasks, cancels and additions interleave with it.
 */
module TaskSchedule {
  import opened Numbers
  import opened TaskMachine
  import opened TaskCancel

  /** The distance between two firings; a task with interval 0 fires on every tick. */
  function Gap(task: Task): int {
    Max(1, task.interval)
  }

  /** The tick whose pop comes next. */
  function NextPop(m: Machine): int {
    if m.phase == Popping then m.now else m.now + 1
  }

  /** The tick of firing number `k`, counted from 0. */
  function Nth(first: int, gap: int, k: nat): int {
    first + k * gap
  }

  lemma NthNext(first: int, gap: int, k: nat)
    ensures Nth(first, gap, k + 1) == Nth(first, gap, k) + gap
  {
  }

  /** A task with all its firings still to come, and the tick of the first. */
  datatype Plan = Plan(task: Task, first: int)

  function DueAt(p: Plan, k: nat): int {
    Nth(p.first, Gap(p.task), k)
  }

  /** The first `k` firings: repeats that count down, and an end for the last of all. */
  function Schedule(p: Plan, k: nat): (s: seq<Fire>)
    requires k <= p.task.times
    ensures |s| == k
    ensures forall j :: 0 <= j < k ==>
              s[j] == Fire(p.task.id, p.task.xid, p.task.param, DueAt(p, j), j + 1 < p.task.times, p.task.times - 1 - j)
  {
    if k == 0 then []
    else
      var left := p.task.times - k;
      Schedule(p, k - 1) + [Fire(p.task.id, p.task.xid, p.task.param, DueAt(p, k - 1), left > 0, left)]
  }

  /** What stands for the task after `k` firings. */
  function Left(p: Plan, k: nat, tick: int): Entry {
    Entry(tick, p.task.(times := p.task.times - k))
  }

  ghost predicate Waiting(m: Machine, p: Plan, k: nat, tick: int) {
    Left(p, k, tick) in m.tasks && Max(tick, NextPop(m)) == DueAt(p, k)
  }

  ghost predicate Popped(m: Machine, p: Plan, k: nat, tick: int) {
    Left(p, k, tick) in m.todo && m.now == DueAt(p, k)
  }

  /** `k` firings are done as scheduled; the next is in the set or popped and on time. */
  ghost predicate OnPlan(m: Machine, p: Plan, k: nat, tick: int) {
    && p.task.interval >= 0 && p.task.times >= k
    && p.task.id <= m.highest && p.task.id !in m.inFlight && p.task.id !in m.canceled
    && FiresOf(m.log, p.task.id) == Schedule(p, k)
    && (k > 0 ==> DueAt(p, k - 1) <= m.now)
    && (k == p.task.times ==> p.task.id !in m.active && p.task.id !in Ids(m.todo))
    && (k < p.task.times ==> Waiting(m, p, k, tick) || Popped(m, p, k, tick))
  }

  /** A pop takes the waiting entry out when it is due, and leaves it otherwise. */
  lemma PopWaiting(m: Machine, next: Machine, p: Plan, k: nat, tick: int)
    requires Inv(m) && m.phase == Popping && next == Step(m, Pop) && Waiting(m, p, k, tick)
    ensures Waiting(next, p, k, tick) || Popped(next, p, k, tick)
  {
  }

  /** An id that is not active is not popped. */
  lemma PopElsewhere(m: Machine, next: Machine, id: Id)
    requires Inv(m) && m.phase == Popping && next == Step(m, Pop) && id !in m.active
    ensures id !in next.active && id !in Ids(next.todo)
  {
    SplitOk(m.tasks, Due(m.tasks, m.now));
  }

  lemma PopOnPlan(m: Machine, p: Plan, k: nat, tick: int)
    requires Inv(m) && OnPlan(m, p, k, tick) && m.phase == Popping
    ensures OnPlan(Step(m, Pop), p, k, tick)
  {
    ghost var next := Step(m, Pop);
    if k < p.task.times {
      PopWaiting(m, next, p, k, tick);
    } else {
      PopElsewhere(m, next, p.task.id);
    }
  }

  lemma InsertOther(m: Machine, p: Plan, k: nat, tick: int, e: Entry)
    requires OnPlan(m, p, k, tick) && e.task.id != p.task.id
    ensures OnPlan(Inserted(m, e), p, k, tick)
  {
    PutElements(m.tasks, e);
  }

  lemma EnterElsewhere(m: Machine, p: Plan, k: nat, tick: int, id: Id)
    requires Inv(m) && OnPlan(m, p, k, tick)
    ensures OnPlan(Step(m, Enter(id)), p, k, tick)
  {
    if id in m.inFlight {
      InsertOther(m.(inFlight := m.inFlight - {id}), p, k, tick, m.inFlight[id]);
    }
  }

  /** The steps that leave the popped entries and the log alone. */
  lemma QuietOnPlan(m: Machine, p: Plan, k: nat, tick: int, e: Event)
    requires Inv(m) && OnPlan(m, p, k, tick) && e != Cancel(p.task.id)
    requires e.Allocate? || e.Enter? || e.Cancel? || e.Advance? || e.Peek?
    ensures OnPlan(Step(m, e), p, k, tick)
  {
    if e.Enter? {
      EnterElsewhere(m, p, k, tick, e.id);
    }
  }

  lemma LookOnPlan(m: Machine, p: Plan, k: nat, tick: int)
    requires Inv(m) && OnPlan(m, p, k, tick) && m.phase == Looking
    ensures OnPlan(Step(m, Look), p, k, tick)
  {
    HeadOk(m.todo);
  }

  lemma OtherFires(m: Machine, id: Id)
    requires m.phase == Firing && m.todo != [] && m.todo[0].task.id != id
    ensures FiresOf(Decided(m).log, id) == FiresOf(m.log, id)
  {
    FiresAppend(m.log, Decided(m).log[|m.log|], id);
  }

  lemma DecidedOther(m: Machine, p: Plan, k: nat, tick: int)
    requires Inv(m) && OnPlan(m, p, k, tick) && m.phase == Firing
    requires m.todo[0].task.id != p.task.id
    ensures OnPlan(Decided(m), p, k, tick)
  {
    HeadOk(m.todo);
    OtherFires(m, p.task.id);
  }

  lemma ActOther(m: Machine, p: Plan, k: nat, tick: int)
    requires Inv(m) && OnPlan(m, p, k, tick) && m.phase == Firing
    requires m.todo[0].task.id != p.task.id
    ensures OnPlan(Step(m, Act), p, k, tick)
  {
    DecidedOther(m, p, k, tick);
    if m.todo[0].task.times > 1 {
      InsertOther(Decided(m), p, k, tick, Again(m));
    }
  }

  /** When the head is the task's own, it is its next firing and on time. */
  lemma OwnHead(m: Machine, p: Plan, k: nat, tick: int)
    requires Inv(m) && OnPlan(m, p, k, tick) && m.phase == Firing
    requires m.todo[0].task.id == p.task.id
    ensures k < p.task.times && m.todo[0] == Left(p, k, tick) && m.now == DueAt(p, k)
  {
    var id, e := p.task.id, Left(p, k, tick);
    assert m.todo[0] in m.todo && id in Ids(m.todo);
    if k < p.task.times {
      assert e !in m.tasks by {
        assert id !in Ids(m.tasks);
      }
    }
  }

  lemma ActOwnLast(m: Machine, next: Machine, p: Plan, k: nat, tick: int)
    requires Inv(m) && OnPlan(m, p, k, tick) && m.phase == Firing && next == Step(m, Act)
    requires m.todo[0] == Left(p, k, tick) && m.now == DueAt(p, k) && k + 1 == p.task.times
    ensures OnPlan(next, p, k + 1, tick)
  {
    DecidedInv(m);
  }

  /** What re-enters the set is what the plan has left, due one gap later. */
  lemma AgainWaits(m: Machine, next: Machine, p: Plan, k: nat, tick: int)
    requires m.phase == Firing && m.todo != [] && next == Step(m, Act) && p.task.interval >= 0
    requires m.todo[0] == Left(p, k, tick) && m.now == DueAt(p, k) && k + 1 < p.task.times
    ensures Waiting(next, p, k + 1, m.now + p.task.interval)
  {
    PutElements(m.tasks, Again(m));
    assert Again(m) == Left(p, k + 1, m.now + p.task.interval);
    NthNext(p.first, Gap(p.task), k);
  }

  lemma ActOwnAgain(m: Machine, next: Machine, p: Plan, k: nat, tick: int)
    requires Inv(m) && OnPlan(m, p, k, tick) && m.phase == Firing && next == Step(m, Act)
    requires m.todo[0] == Left(p, k, tick) && m.now == DueAt(p, k) && k + 1 < p.task.times
    ensures OnPlan(next, p, k + 1, m.now + p.task.interval)
  {
    AgainWaits(m, next, p, k, tick);
  }

  lemma ActOwn(m: Machine, next: Machine, p: Plan, k: nat, tick: int)
    requires Inv(m) && OnPlan(m, p, k, tick) && m.phase == Firing && next == Step(m, Act)
    requires m.todo[0].task.id == p.task.id
    ensures OnPlan(next, p, k + 1, if k + 1 == p.task.times then tick else m.now + p.task.interval)
  {
    OwnHead(m, p, k, tick);
    if k + 1 == p.task.times {
      ActOwnLast(m, next, p, k, tick);
    } else {
      ActOwnAgain(m, next, p, k, tick);
    }
  }

  lemma StepOnPlan(m: Machine, p: Plan, k: nat, tick: int, e: Event) returns (k': nat, tick': int)
    requires Inv(m) && OnPlan(m, p, k, tick) && e != Cancel(p.task.id)
    ensures OnPlan(Step(m, e), p, k', tick')
  {
    k', tick' := k, tick;
    if e == Pop {
      if m.phase == Popping { PopOnPlan(m, p, k, tick); }
    } else if e == Look {
      if m.phase == Looking { LookOnPlan(m, p, k, tick); }
    } else if e == Act {
      if m.phase == Firing {
        if m.todo[0].task.id == p.task.id {
          ActOwn(m, Step(m, Act), p, k, tick);
          k' := k + 1;
          tick' := if k' == p.task.times then tick else m.now + p.task.interval;
        } else {
          ActOther(m, p, k, tick);
        }
      }
    } else {
      QuietOnPlan(m, p, k, tick, e);
    }
  }

  lemma {:induction false} RunOnPlan(m: Machine, p: Plan, k: nat, tick: int, es: seq<Event>)
    returns (k': nat, tick': int)
    requires Inv(m) && OnPlan(m, p, k, tick)
    requires forall i :: 0 <= i < |es| ==> es[i] != Cancel(p.task.id)
    ensures OnPlan(Run(m, es), p, k', tick')
    decreases |es|
  {
    if es == [] {
      k', tick' := k, tick;
    } else {
      StepInv(m, es[0]);
      k', tick' := StepOnPlan(m, p, k, tick, es[0]);
      k', tick' := RunOnPlan(Step(m, es[0]), p, k', tick', es[1..]);
    }
  }

  lemma {:induction false} NoFiresYet(log: seq<Fire>, id: Id)
    requires forall i :: 0 <= i < |log| ==> log[i].id != id
    ensures FiresOf(log, id) == []
    decreases |log|
  {
    if log != [] {
      NoFiresYet(log[..|log| - 1], id);
    }
  }

  /** The plan a task starts on when it enters the set. */
  function Entered(m: Machine, id: Id): Plan
    requires id in m.inFlight
  {
    Plan(m.inFlight[id].task, Max(m.inFlight[id].tick, NextPop(m)))
  }

  lemma EnterOnPlan(m: Machine, id: Id)
    requires Inv(m) && id in m.inFlight
    ensures OnPlan(Step(m, Enter(id)), Entered(m, id), 0, m.inFlight[id].tick)
  {
    PutElements(m.tasks, m.inFlight[id]);
    NoFiresYet(m.log, id);
    assert id !in Ids(m.tasks) && id !in Ids(m.todo);
  }

  /**
   Every uncancelled task, in every run after it entered: its firings are exactly the
   first k of its schedule. Whenever the timer thread is idle, k counts all scheduled
   ticks up to now, the id is active exactly while firings are left, and after the
   last one the task is in neither index.
   */
  lemma FiresOnSchedule(m: Machine, id: Id, es: seq<Event>) returns (k: nat)
    requires Inv(m) && id in m.inFlight
    requires forall i :: 0 <= i < |es| ==> es[i] != Cancel(id)
    ensures var p, m' := Entered(m, id), Run(Step(m, Enter(id)), es);
            var n := p.task.times;
            && k <= n
            && FiresOf(m'.log, id) == Schedule(p, k)
            && (k > 0 ==> DueAt(p, k - 1) <= m'.now)
            && (m'.phase == Idle && k < n ==> m'.now < DueAt(p, k))
            && (m'.phase == Idle ==> (id in m'.active <==> k < n))
            && (k == n ==> id !in m'.active && id !in m'.canceled && id !in Ids(m'.todo))
  {
    EnterOnPlan(m, id);
    StepInv(m, Enter(id));
    var tick;
    k, tick := RunOnPlan(Step(m, Enter(id)), Entered(m, id), 0, m.inFlight[id].tick, es);
    RunInv(Step(m, Enter(id)), es);
    var p, m' := Entered(m, id), Run(Step(m, Enter(id)), es);
    if m'.phase == Idle && k < p.task.times {
      assert Left(p, k, tick) in m'.tasks;
    }
  }

  /**
   A request made while the timer thread is idle at tick t is taken exactly if interval and
   start are not negative and there is something to fire. Its task is then due, with what
   the caller asked for, at t + start + interval, but at the next tick at the earliest, and
   from there on every interval, but at least every tick.
   */
  lemma AddedBetweenTicks(m: Machine, info: Info)
    requires Inv(m) && m.phase == Idle
    ensures var m', id := Step(m, Allocate(info)), m.highest + 1;
            if info.interval >= 0 && info.times > 0 && info.start >= 0 then
              && Inv(m') && id in m'.inFlight
              && var p := Entered(m', id);
                 && p.task == Task(id, info.xid, info.interval, info.times, info.param)
                 && (forall j: nat :: DueAt(p, j) ==
                       m.now + Max(info.start + info.interval, 1) + j * Max(info.interval, 1))
                 && (info.interval >= 1 ==> forall j: nat :: j >= 1 ==>
                       DueAt(p, j - 1) == m.now + info.start + j * info.interval)
            else m' == m
  {
    AllocateInv(m, info);
    if Accepted(info) {
      var p := Entered(Step(m, Allocate(info)), m.highest + 1);
      forall j: nat | j >= 1 && info.interval >= 1
        ensures DueAt(p, j - 1) == m.now + info.start + j * info.interval
      {
        assert j * info.interval == (j - 1) * info.interval + info.interval;
      }
    }
  }
}
