/**
 The timed-task manager as a state machine over its locked sections. Threads add and
 cancel tasks while the timer thread ticks; every step below is one section under a
 lock, one unlocked read, or one assignment of an id, and the theorems are about every
 sequence of steps. Steps go on where an assertion fails; TaskAssertions says when none does.
 */
module TaskMachine {
  import opened Sequences

  type Id = nat

  /** A task as the caller describes it. */
  datatype Info = Info(xid: int, interval: int, times: int, start: int, param: int)

  datatype Task = Task(id: Id, xid: int, interval: int, times: int, param: int)
  datatype Entry = Entry(tick: int, task: Task)

  /** A message decided by the timer thread; the last one of a task is its end message. */
  datatype Fire = Fire(id: Id, xid: int, param: int, tick: int, repeats: bool, left: int)

  datatype Phase = Idle | Popping | Checking | Looking | Firing

  /**
   `inFlight` holds tasks that have their id but not yet the lock to enter the task
   set; `todo` is what the current tick popped and has not dealt with yet.
   */
  datatype Machine = Machine(
    now: int, phase: Phase,
    tasks: seq<Entry>, active: set<Id>, canceled: set<Id>,
    highest: nat, inFlight: map<Id, Entry>,
    todo: seq<Entry>, log: seq<Fire>)

  datatype Event =
    | Allocate(info: Info)  // AddTimedTask up to the new id
    | Enter(id: Id)         // AddTimedTask under the task lock
    | Cancel(id: Id)        // Cancel, under both locks
    | Advance               // the timer's tick counter
    | Pop                   // Tick: take what is due out of the set
    | Peek                  // Tick: the unlocked look at the cancelled set
    | Look                  // Tick: the lookup under the cancel lock
    | Act                   // Tick: count down, re-enter the set or end

  predicate Accepted(info: Info) {
    info.interval >= 0 && info.times > 0 && info.start >= 0
  }

  function Ids(s: seq<Entry>): set<Id> {
    set e | e in s :: e.task.id
  }

  function SlotFrom(s: seq<Entry>, tick: int, i: nat): (p: nat)
    requires i <= |s|
    ensures i <= p <= |s|
    ensures forall k :: i <= k < p ==> s[k].tick < tick
    ensures p < |s| ==> tick <= s[p].tick
    decreases |s| - i
  {
    if i == |s| || tick <= s[i].tick then i else SlotFrom(s, tick, i + 1)
  }

  /** Where the ordered set puts an entry: before those due at the same tick or later. */
  function Slot(s: seq<Entry>, tick: int): (p: nat)
    ensures p <= |s|
    ensures forall k :: 0 <= k < p ==> s[k].tick < tick
    ensures p < |s| ==> tick <= s[p].tick
  {
    SlotFrom(s, tick, 0)
  }

  function Put(s: seq<Entry>, e: Entry): seq<Entry> {
    Spliced(s, Slot(s, e.tick), e)
  }

  /** How many entries at the front are due at tick `now`. */
  function Due(s: seq<Entry>, now: int): (p: nat)
    ensures p <= |s|
    ensures forall k :: 0 <= k < p ==> s[k].tick <= now
    ensures p < |s| ==> now < s[p].tick
  {
    Slot(s, now + 1)
  }

  /** InsertToTaskSet: the set and the index of active ids together. */
  function Inserted(m: Machine, e: Entry): Machine {
    m.(tasks := Put(m.tasks, e), active := m.active + {e.task.id})
  }

  /** The head decided and taken off the popped entries, before it may re-enter. */
  function Decided(m: Machine): Machine
    requires m.todo != []
  {
    var task := m.todo[0].task;
    m.(phase := Checking, todo := m.todo[1..],
       log := m.log + [Fire(task.id, task.xid, task.param, m.now, task.times > 1, task.times - 1)])
  }

  /** What a repeating task re-enters the set with. */
  function Again(m: Machine): Entry
    requires m.todo != []
  {
    var task := m.todo[0].task;
    Entry(m.now + task.interval, task.(times := task.times - 1))
  }

  function Step(m: Machine, e: Event): Machine {
    match e
    case Allocate(info) =>
      if !Accepted(info) then m else
        var id := m.highest + 1;
        var task := Task(id, info.xid, info.interval, info.times, info.param);
        m.(highest := id, inFlight := m.inFlight[id := Entry(m.now + info.start + info.interval, task)])
    case Enter(id) =>
      if id !in m.inFlight then m else
        Inserted(m.(inFlight := m.inFlight - {id}), m.inFlight[id])
    case Cancel(id) =>
      if id in m.active then m.(canceled := m.canceled + {id}) else m
    case Advance =>
      if m.phase == Idle then m.(now := m.now + 1, phase := Popping) else m
    case Pop =>
      if m.phase != Popping then m else
        var k := Due(m.tasks, m.now);
        if k == 0 then m.(phase := Idle) else
          m.(phase := Checking, todo := m.tasks[..k], tasks := m.tasks[k..],
             active := m.active - Ids(m.tasks[..k]))
    case Peek =>
      if m.phase != Checking then m
      else if m.todo == [] then m.(phase := Idle)
      else m.(phase := if m.canceled == {} then Firing else Looking)
    case Look =>
      if m.phase != Looking || m.todo == [] then m
      else if m.todo[0].task.id in m.canceled then
        m.(phase := Checking, canceled := m.canceled - {m.todo[0].task.id}, todo := m.todo[1..])
      else m.(phase := Firing)
    case Act =>
      if m.phase != Firing || m.todo == [] then m else
        if m.todo[0].task.times > 1 then Inserted(Decided(m), Again(m)) else Decided(m)
  }

  function Run(m: Machine, es: seq<Event>): Machine
    decreases |es|
  {
    if es == [] then m else Run(Step(m, es[0]), es[1..])
  }

  // ---- The invariant of every run ----

  ghost predicate Sorted(s: seq<Entry>) {
    forall i, j :: 0 <= i < j < |s| ==> s[i].tick <= s[j].tick
  }

  ghost predicate Distinct(s: seq<Entry>) {
    forall i, j :: 0 <= i < j < |s| ==> s[i].task.id != s[j].task.id
  }

  ghost predicate Live(e: Entry, highest: nat) {
    e.task.times > 0 && e.task.interval >= 0 && e.task.id <= highest
  }

  ghost predicate Inv(m: Machine) {
    && Sorted(m.tasks) && Distinct(m.tasks) && m.active == Ids(m.tasks)
    && Distinct(m.todo) && m.active !! Ids(m.todo)
    && m.canceled <= m.active + Ids(m.todo)
    && (forall e :: e in m.tasks || e in m.todo ==> Live(e, m.highest) && e.task.id !in m.inFlight)
    && (forall id :: id in m.inFlight ==> m.inFlight[id].task.id == id && Live(m.inFlight[id], m.highest))
    && (forall i :: 0 <= i < |m.log| ==> m.log[i].id <= m.highest && m.log[i].id !in m.inFlight)
    && (m.phase in {Idle, Popping} ==> m.todo == [])
    && (m.phase in {Looking, Firing} ==> m.todo != [])
    && (m.phase == Firing ==> m.todo[0].task.id !in m.canceled)
  }

  lemma PutElements(s: seq<Entry>, e: Entry)
    ensures forall x :: x in Put(s, e) <==> x in s || x == e
    ensures Ids(Put(s, e)) == Ids(s) + {e.task.id}
  {
    var t, p := Put(s, e), Slot(s, e.tick);
    forall x | x in s ensures x in t {
      var k :| 0 <= k < |s| && s[k] == x;
      assert t[if k < p then k else k + 1] == x;
    }
    assert t[p] == e;
  }

  lemma PutDistinct(s: seq<Entry>, e: Entry)
    requires Distinct(s) && e.task.id !in Ids(s)
    ensures Distinct(Put(s, e))
  {
    forall k | 0 <= k < |s| ensures s[k].task.id != e.task.id {
      assert s[k].task.id in Ids(s);
    }
  }

  lemma PutOk(s: seq<Entry>, e: Entry)
    requires Sorted(s) && Distinct(s) && e.task.id !in Ids(s)
    ensures Sorted(Put(s, e)) && Distinct(Put(s, e))
    ensures forall x :: x in Put(s, e) <==> x in s || x == e
    ensures Ids(Put(s, e)) == Ids(s) + {e.task.id}
  {
    PutElements(s, e);
    PutDistinct(s, e);
  }

  lemma SplitOk(s: seq<Entry>, k: nat)
    requires k <= |s| && Sorted(s) && Distinct(s)
    ensures Sorted(s[k..]) && Distinct(s[k..]) && Distinct(s[..k])
    ensures Ids(s[..k]) !! Ids(s[k..]) && Ids(s[k..]) == Ids(s) - Ids(s[..k])
    ensures forall x :: x in s <==> x in s[..k] || x in s[k..]
  {
    assert s == s[..k] + s[k..];
    forall x, y | x in s[..k] && y in s[k..] ensures x.task.id != y.task.id {
      var i :| 0 <= i < k && s[..k][i] == x;
      var j :| 0 <= j < |s| - k && s[k..][j] == y;
      assert s[i] == x && s[k + j] == y;
    }
  }

  lemma HeadOk(s: seq<Entry>)
    requires s != [] && Distinct(s)
    ensures Distinct(s[1..]) && s[0].task.id !in Ids(s[1..])
    ensures Ids(s) == Ids(s[1..]) + {s[0].task.id}
    ensures forall x :: x in s <==> x == s[0] || x in s[1..]
  {
    assert s == [s[0]] + s[1..];
  }

  lemma AllocateInv(m: Machine, info: Info)
    requires Inv(m)
    ensures Inv(Step(m, Allocate(info)))
  {
    if Accepted(info) {
      var m' := Step(m, Allocate(info));
      forall e | e in m.tasks || e in m.todo ensures e.task.id !in m'.inFlight {
        assert Live(e, m.highest);
      }
    }
  }

  /** Putting a live entry of a task that is nowhere else into the set. */
  lemma InsertInv(m: Machine, e: Entry)
    requires Inv(m) && Live(e, m.highest)
    requires e.task.id !in m.active && e.task.id !in Ids(m.todo) && e.task.id !in m.inFlight
    ensures Inv(Inserted(m, e))
  {
    PutOk(m.tasks, e);
  }

  lemma EnterInv(m: Machine, id: Id)
    requires Inv(m)
    ensures Inv(Step(m, Enter(id)))
  {
    if id in m.inFlight {
      assert id !in Ids(m.tasks) && id !in Ids(m.todo);
      InsertInv(m.(inFlight := m.inFlight - {id}), m.inFlight[id]);
    }
  }

  lemma PopInv(m: Machine)
    requires Inv(m)
    ensures Inv(Step(m, Pop))
  {
    if m.phase == Popping {
      SplitOk(m.tasks, Due(m.tasks, m.now));
    }
  }

  lemma LookInv(m: Machine)
    requires Inv(m)
    ensures Inv(Step(m, Look))
  {
    if m.phase == Looking {
      HeadOk(m.todo);
    }
  }

  lemma DecidedInv(m: Machine)
    requires Inv(m) && m.phase == Firing
    ensures Inv(Decided(m)) && Live(m.todo[0], m.highest)
    ensures var id := m.todo[0].task.id;
            id !in m.active && id !in Ids(m.todo[1..]) && id !in m.inFlight
  {
    HeadOk(m.todo);
    assert m.todo[0] in m.todo;
    assert m.todo[0].task.id in Ids(m.todo);
  }

  lemma ActInv(m: Machine)
    requires Inv(m)
    ensures Inv(Step(m, Act))
  {
    if m.phase == Firing {
      DecidedInv(m);
      if m.todo[0].task.times > 1 {
        InsertInv(Decided(m), Again(m));
      }
    }
  }

  lemma StepInv(m: Machine, e: Event)
    requires Inv(m)
    ensures Inv(Step(m, e))
  {
    match e
    case Allocate(info) => AllocateInv(m, info);
    case Enter(id) => EnterInv(m, id);
    case Cancel(id) =>
    case Advance =>
    case Pop => PopInv(m);
    case Peek =>
    case Look => LookInv(m);
    case Act => ActInv(m);
  }

  /**
   After every locked section of every run: the active ids are the ids in the task
   set, and the cancelled ids are active or popped in the current tick.
   */
  lemma {:induction false} RunInv(m: Machine, es: seq<Event>)
    requires Inv(m)
    ensures Inv(Run(m, es))
    decreases |es|
  {
    if es != [] {
      StepInv(m, es[0]);
      RunInv(Step(m, es[0]), es[1..]);
    }
  }

  function Initial(now: int): Machine {
    Machine(now, Idle, [], {}, {}, 0, map[], [], [])
  }

  lemma IndexesAgree(now: int, es: seq<Event>)
    ensures var m := Run(Initial(now), es);
            && m.active == Ids(m.tasks) && |m.active| == |m.tasks|
            && m.canceled <= m.active + Ids(m.todo)
            && m.active !! Ids(m.todo)
  {
    RunInv(Initial(now), es);
    IdsSize(Run(Initial(now), es).tasks);
  }

  lemma {:induction false} IdsSize(s: seq<Entry>)
    requires Distinct(s)
    ensures |Ids(s)| == |s|
  {
    if s == [] {
      assert Ids(s) == {};
    } else {
      HeadOk(s);
      IdsSize(s[1..]);
    }
  }
}
