/** The state of the executor and what each of its operations does to it, as functions. */
module Scheduler {
  import opened Prelude

  type TaskId = nat
  type Event = nat

  /** What a task can do to the executor while it is being polled. */
  datatype Action = Wake(id: TaskId) | Register(event: Event)

  /** One poll of a future: its actions in order, and whether it returns `Poll::Ready`. */
  datatype PollStep = PollStep(actions: seq<Action>, ready: bool)

  /** `behaviour(k)` is what the future does when polled for the (k+1)-th time. */
  type Behaviour = nat -> PollStep

  datatype Task = Task(behaviour: Behaviour, polls: nat) {
    function Next(): PollStep { behaviour(polls) }
    function Polled(): Task { Task(behaviour, polls + 1) }
  }

  datatype Entry = Entry(event: Event, task: TaskId)

  /** The fields of `Executor` and the statics it shares with its tasks. */
  datatype State = State(
    tasks: map<TaskId, Task>,
    runQueue: seq<TaskId>,
    registry: seq<Entry>,
    awake: seq<TaskId>,
    current: Option<TaskId>,
    staging: seq<Entry>,
    nextId: TaskId)

  const INITIAL := State(map[], [], [], [], None, [], 0)

  /** How a blocking wait ends: with these events signalled, or with an error status. */
  datatype Wait = Signalled(events: set<Event>) | Failed

  // ---- Sequence projections ----

  function Woken(actions: seq<Action>): seq<TaskId> {
    if actions == [] then []
    else
      var last := actions[|actions| - 1];
      Woken(actions[..|actions| - 1]) + if last.Wake? then [last.id] else []
  }

  function Registered(actions: seq<Action>): seq<Event> {
    if actions == [] then []
    else
      var last := actions[|actions| - 1];
      Registered(actions[..|actions| - 1]) + if last.Register? then [last.event] else []
  }

  function EntriesFor(id: TaskId, events: seq<Event>): seq<Entry> {
    seq(|events|, i requires 0 <= i < |events| => Entry(events[i], id))
  }

  function WithoutTask(entries: seq<Entry>, id: TaskId): seq<Entry> {
    if entries == [] then []
    else
      var last := entries[|entries| - 1];
      WithoutTask(entries[..|entries| - 1], id) + if last.task != id then [last] else []
  }

  function OfTask(entries: seq<Entry>, id: TaskId): seq<Entry> {
    if entries == [] then []
    else
      var last := entries[|entries| - 1];
      OfTask(entries[..|entries| - 1], id) + if last.task == id then [last] else []
  }

  function LiveOnly(ids: seq<TaskId>, tasks: map<TaskId, Task>): seq<TaskId> {
    if ids == [] then []
    else
      var last := ids[|ids| - 1];
      LiveOnly(ids[..|ids| - 1], tasks) + if last in tasks then [last] else []
  }

  function EventsOf(entries: seq<Entry>): seq<Event> {
    seq(|entries|, i requires 0 <= i < |entries| => entries[i].event)
  }

  function TasksOn(entries: seq<Entry>, event: Event): seq<TaskId> {
    if entries == [] then []
    else
      var last := entries[|entries| - 1];
      TasksOn(entries[..|entries| - 1], event) + if last.event == event then [last.task] else []
  }

  // ---- Operations ----

  function Spawn(s: State, behaviour: Behaviour): State {
    s.(tasks := s.tasks[s.nextId := Task(behaviour, 0)],
       runQueue := s.runQueue + [s.nextId],
       nextId := s.nextId + 1)
  }

  function WakeTask(s: State, id: TaskId): State {
    s.(awake := AddNew(s.awake, id))
  }

  /** Poll one task and settle its registrations. */
  function PollTask(s: State, id: TaskId): State {
    if id !in s.tasks then s
    else
      var task := s.tasks[id];
      var step := task.Next();
      var kept := WithoutTask(s.registry, id);
      var staged := AddAll(s.staging, EntriesFor(id, Registered(step.actions)));
      s.(tasks := if step.ready then s.tasks - {id} else s.tasks[id := task.Polled()],
         registry := if step.ready then WithoutTask(kept, id) else kept + OfTask(staged, id),
         awake := AddAll(s.awake, Woken(step.actions)),
         current := None,
         staging := WithoutTask(staged, id))
  }

  function PollAll(s: State, ids: seq<TaskId>): State {
    if ids == [] then s else PollTask(PollAll(s, ids[..|ids| - 1]), ids[|ids| - 1])
  }

  /** The ids that the next `run_once` polls, in order. */
  function RunList(s: State): seq<TaskId> {
    AddAll(s.runQueue, LiveOnly(s.awake, s.tasks))
  }

  /** The state in which the first of them is polled. */
  function Drained(s: State): State {
    s.(awake := [], runQueue := [])
  }

  function RunOnce(s: State): State {
    PollAll(Drained(s), RunList(s))
  }

  /** `WaitForEvent` reports the first signalled event of its argument (section 7.1 of the
      UEFI Specification 2.10); the length of the list stands for none. */
  function FirstSignalled(events: seq<Event>, signalled: set<Event>): (index: nat)
    ensures index <= |events|
    ensures forall i :: 0 <= i < index ==> events[i] !in signalled
    ensures index < |events| ==> events[index] in signalled
  {
    if events == [] then 0
    else if events[0] in signalled then 0
    else 1 + FirstSignalled(events[1..], signalled)
  }

  function WaitList(s: State): seq<Event> {
    AddAll([], EventsOf(s.registry))
  }

  /** Does `wait_for_events` reach the firmware call? */
  predicate Blocks(s: State) {
    s.tasks != map[] && s.awake == [] && s.registry != []
  }

  /** Does it only stall, having nothing to wait for? */
  predicate Stalls(s: State) {
    s.tasks != map[] && s.awake == [] && s.registry == []
  }

  /** Is that call answered with one of the awaited events? */
  predicate Fires(s: State, w: Wait) {
    w.Signalled? && FirstSignalled(WaitList(s), w.events) < |WaitList(s)|
  }

  function WaitForEvents(s: State, w: Wait): State {
    if Blocks(s) && Fires(s, w)
    then
      var event := WaitList(s)[FirstSignalled(WaitList(s), w.events)];
      s.(runQueue := AddAll(s.runQueue, TasksOn(s.registry, event)))
    else s
  }

  /** One iteration of the loop of `run`. */
  function Iteration(s: State, w: Wait): State {
    if s.tasks == map[] then s
    else if RunList(s) == [] then WaitForEvents(RunOnce(s), w)
    else RunOnce(s)
  }

  /** `n` iterations of `run`, the k-th wait being answered by `waits(k)`. */
  function Iterate(s: State, waits: nat -> Wait, n: nat): State {
    if n == 0 then s else Iteration(Iterate(s, waits, n - 1), waits(n - 1))
  }

  // ---- Traces ----

  datatype Op = DoSpawn(behaviour: Behaviour) | DoWake(id: TaskId) | DoRunOnce | DoWait(wait: Wait)

  function Apply(s: State, op: Op): State {
    match op
    case DoSpawn(b) => Spawn(s, b)
    case DoWake(id) => WakeTask(s, id)
    case DoRunOnce => RunOnce(s)
    case DoWait(w) => WaitForEvents(s, w)
  }

  function Exec(s: State, ops: seq<Op>): State {
    if ops == [] then s else Apply(Exec(s, ops[..|ops| - 1]), ops[|ops| - 1])
  }

  // ---- One more action ----

  lemma WokenStep(awake: seq<TaskId>, actions: seq<Action>, i: nat)
    requires i < |actions|
    ensures AddAll(awake, Woken(actions[..i + 1])) ==
            var before := AddAll(awake, Woken(actions[..i]));
            if actions[i].Wake? then AddNew(before, actions[i].id) else before
  {
    assert actions[..i + 1][..i] == actions[..i];
    var woken := Woken(actions[..i]);
    if actions[i].Wake? {
      AddAllStep(awake, woken, actions[i].id);
    } else {
      assert woken + [] == woken;
    }
  }

  lemma RegisteredStep(entries: seq<Entry>, id: TaskId, actions: seq<Action>, i: nat)
    requires i < |actions|
    ensures AddAll(entries, EntriesFor(id, Registered(actions[..i + 1]))) ==
            var before := AddAll(entries, EntriesFor(id, Registered(actions[..i])));
            if actions[i].Register? then AddNew(before, Entry(actions[i].event, id)) else before
  {
    assert actions[..i + 1][..i] == actions[..i];
    var registered := Registered(actions[..i]);
    if actions[i].Register? {
      var entry := Entry(actions[i].event, id);
      AddAllStep(entries, EntriesFor(id, registered), entry);
      assert EntriesFor(id, registered + [actions[i].event]) == EntriesFor(id, registered) + [entry];
    } else {
      assert registered + [] == registered;
    }
  }

  // ---- Membership in the projections ----

  lemma {:induction false} LiveOnlyFacts(ids: seq<TaskId>, tasks: map<TaskId, Task>)
    ensures forall id :: id in LiveOnly(ids, tasks) <==> id in ids && id in tasks
  {
    if ids != [] {
      LiveOnlyFacts(ids[..|ids| - 1], tasks);
      assert ids == ids[..|ids| - 1] + [ids[|ids| - 1]];
    }
  }

  lemma {:induction false} WithoutTaskFacts(entries: seq<Entry>, id: TaskId)
    ensures forall e :: e in WithoutTask(entries, id) <==> e in entries && e.task != id
    ensures NoDup(entries) ==> NoDup(WithoutTask(entries, id))
  {
    if entries != [] {
      var front, last := entries[..|entries| - 1], entries[|entries| - 1];
      WithoutTaskFacts(front, id);
      assert entries == front + [last];
      assert NoDup(entries) ==> last !in front;
    }
  }

  lemma {:induction false} TasksOnFacts(entries: seq<Entry>, event: Event)
    ensures forall id :: id in TasksOn(entries, event) <==> Entry(event, id) in entries
  {
    if entries != [] {
      TasksOnFacts(entries[..|entries| - 1], event);
      assert entries == entries[..|entries| - 1] + [entries[|entries| - 1]];
    }
  }

  lemma WaitListFacts(s: State)
    ensures NoDup(WaitList(s))
    ensures forall e :: e in WaitList(s) <==> exists i :: 0 <= i < |s.registry| && s.registry[i].event == e
  {
    AddAllFacts([], EventsOf(s.registry));
    forall e ensures e in EventsOf(s.registry) <==> exists i :: 0 <= i < |s.registry| && s.registry[i].event == e {
      if i :| 0 <= i < |s.registry| && s.registry[i].event == e {
        assert EventsOf(s.registry)[i] == e;
      }
    }
  }

  lemma WaitListEmpty(s: State)
    ensures WaitList(s) == [] <==> s.registry == []
  {
    WaitListFacts(s);
    if s.registry != [] {
      assert s.registry[0].event in WaitList(s);
    }
  }

  lemma {:induction false} WithoutTaskConcat(a: seq<Entry>, b: seq<Entry>, id: TaskId)
    ensures WithoutTask(a + b, id) == WithoutTask(a, id) + WithoutTask(b, id)
  {
    if b == [] {
      assert a + b == a;
    } else {
      assert (a + b)[..|a + b| - 1] == a + b[..|b| - 1];
      WithoutTaskConcat(a, b[..|b| - 1], id);
    }
  }

  lemma {:induction false} OfTaskConcat(a: seq<Entry>, b: seq<Entry>, id: TaskId)
    ensures OfTask(a + b, id) == OfTask(a, id) + OfTask(b, id)
  {
    if b == [] {
      assert a + b == a;
    } else {
      assert (a + b)[..|a + b| - 1] == a + b[..|b| - 1];
      OfTaskConcat(a, b[..|b| - 1], id);
    }
  }

  /** Filtering by owner when every entry has the same owner. */
  lemma {:induction false} SingleOwner(entries: seq<Entry>, owner: TaskId, id: TaskId)
    requires forall e :: e in entries ==> e.task == owner
    ensures WithoutTask(entries, id) == if owner == id then [] else entries
    ensures OfTask(entries, id) == if owner == id then entries else []
  {
    if entries != [] {
      var front, last := entries[..|entries| - 1], entries[|entries| - 1];
      assert entries == front + [last];
      SingleOwner(front, owner, id);
    }
  }
}
