/** The executor as the program runs it: one object holding the fields of `Executor` and the
    statics its wakers and futures reach, updated in place. */
module ExecutorObject {
  import opened Prelude
  import opened Scheduler
  import opened ExecutorInvariant
  import opened ExecutorTermination

  class Executor {
    var tasks: map<TaskId, Task>
    var runQueue: seq<TaskId>
    var eventRegistry: seq<Entry>
    var awakeTasks: seq<TaskId>
    var currentTask: Option<TaskId>
    var globalRegistry: seq<Entry>
    var nextId: TaskId

    ghost function Contents(): State
      reads this
    {
      State(tasks, runQueue, eventRegistry, awakeTasks, currentTask, globalRegistry, nextId)
    }

    constructor ()
      ensures Contents() == INITIAL
    {
      tasks, runQueue, eventRegistry := map[], [], [];
      awakeTasks, currentTask, globalRegistry, nextId := [], None, [], 0;
    }

    method Spawn(behaviour: Behaviour)
      modifies this
      ensures Contents() == Scheduler.Spawn(old(Contents()), behaviour)
      ensures tasks == old(tasks)[old(nextId) := Task(behaviour, 0)]
      ensures runQueue == old(runQueue) + [old(nextId)] && nextId == old(nextId) + 1
    {
      var id := nextId;
      nextId := nextId + 1;
      tasks := tasks[id := Task(behaviour, 0)];
      runQueue := runQueue + [id];
    }

    method WakeWaker(id: TaskId)
      modifies this`awakeTasks
      ensures awakeTasks == AddNew(old(awakeTasks), id)
    {
      if id !in awakeTasks {
        awakeTasks := awakeTasks + [id];
      }
    }

    method RegisterEventForCurrentTask(event: Event)
      modifies this`globalRegistry
      ensures globalRegistry ==
              if currentTask.Some? then AddNew(old(globalRegistry), Entry(event, currentTask.value))
              else old(globalRegistry)
    {
      if currentTask.Some? {
        var id := currentTask.value;
        if !(exists i :: 0 <= i < |globalRegistry| &&
                         globalRegistry[i].event == event && globalRegistry[i].task == id) {
          assert Entry(event, id) !in globalRegistry;
          globalRegistry := globalRegistry + [Entry(event, id)];
        }
      }
    }

    /** The body of the future: perform the actions of its current step in order. */
    method PollFuture(id: TaskId) returns (ready: bool)
      requires id in tasks && currentTask == Some(id)
      modifies this`tasks, this`awakeTasks, this`globalRegistry
      ensures tasks == old(tasks)[id := old(tasks)[id].Polled()]
      ensures ready == old(tasks)[id].Next().ready
      ensures awakeTasks == AddAll(old(awakeTasks), Woken(old(tasks)[id].Next().actions))
      ensures globalRegistry ==
              AddAll(old(globalRegistry), EntriesFor(id, Registered(old(tasks)[id].Next().actions)))
    {
      var step := tasks[id].Next();
      tasks := tasks[id := tasks[id].Polled()];
      PerformAll(id, step.actions);
      ready := step.ready;
    }

    method Perform(action: Action)
      modifies this`awakeTasks, this`globalRegistry
      ensures awakeTasks == if action.Wake? then AddNew(old(awakeTasks), action.id) else old(awakeTasks)
      ensures globalRegistry ==
              if action.Register? && currentTask.Some?
              then AddNew(old(globalRegistry), Entry(action.event, currentTask.value))
              else old(globalRegistry)
    {
      match action {
        case Wake(other) => WakeWaker(other);
        case Register(event) => RegisterEventForCurrentTask(event);
      }
    }

    method PerformAll(id: TaskId, actions: seq<Action>)
      requires currentTask == Some(id)
      modifies this`awakeTasks, this`globalRegistry
      ensures awakeTasks == AddAll(old(awakeTasks), Woken(actions))
      ensures globalRegistry == AddAll(old(globalRegistry), EntriesFor(id, Registered(actions)))
    {
      for i := 0 to |actions|
        invariant awakeTasks == AddAll(old(awakeTasks), Woken(actions[..i]))
        invariant globalRegistry == AddAll(old(globalRegistry), EntriesFor(id, Registered(actions[..i])))
      {
        WokenStep(old(awakeTasks), actions, i);
        RegisteredStep(old(globalRegistry), id, actions, i);
        Perform(actions[i]);
      }
      assert actions[..|actions|] == actions;
    }

    /** `event_registry.retain(|(_, tid)| *tid != id)` */
    method DropRegistrations(id: TaskId)
      modifies this`eventRegistry
      ensures eventRegistry == WithoutTask(old(eventRegistry), id)
    {
      var all := eventRegistry;
      eventRegistry := [];
      for i := 0 to |all|
        invariant eventRegistry == WithoutTask(all[..i], id)
      {
        assert all[..i + 1][..i] == all[..i];
        if all[i].task != id {
          eventRegistry := eventRegistry + [all[i]];
        }
      }
      assert all[..|all|] == all;
    }

    /** Move the staged registrations of `id` out of the global registry, keeping them only if
        that one is still pending. */
    method TakeStaged(id: TaskId, ready: bool)
      modifies this`eventRegistry, this`globalRegistry
      ensures globalRegistry == WithoutTask(old(globalRegistry), id)
      ensures eventRegistry ==
              old(eventRegistry) + if ready then [] else OfTask(old(globalRegistry), id)
    {
      var local := globalRegistry;
      globalRegistry := [];
      var retained := [];
      for i := 0 to |local|
        invariant retained == WithoutTask(local[..i], id)
        invariant eventRegistry == old(eventRegistry) + if ready then [] else OfTask(local[..i], id)
      {
        assert local[..i + 1][..i] == local[..i];
        if local[i].task == id {
          if !ready {
            eventRegistry := eventRegistry + [local[i]];
          }
        } else {
          retained := retained + [local[i]];
        }
      }
      assert local[..|local|] == local;
      globalRegistry := retained;
    }

    /** Everything but the removal of a finished task. */
    method PollAndSettle(id: TaskId) returns (ready: bool)
      requires id in tasks
      modifies this`tasks, this`eventRegistry, this`awakeTasks, this`currentTask, this`globalRegistry
      ensures
        var step := old(tasks)[id].Next();
        var staged := AddAll(old(globalRegistry), EntriesFor(id, Registered(step.actions)));
        && ready == step.ready
        && tasks == old(tasks)[id := old(tasks)[id].Polled()]
        && awakeTasks == AddAll(old(awakeTasks), Woken(step.actions))
        && currentTask == None
        && globalRegistry == WithoutTask(staged, id)
        && eventRegistry == WithoutTask(old(eventRegistry), id) + if ready then [] else OfTask(staged, id)
    {
      currentTask := Some(id);
      DropRegistrations(id);
      ready := PollFuture(id);
      currentTask := None;
      TakeStaged(id, ready);
    }

    method PollTask(id: TaskId)
      modifies this
      ensures id in old(tasks) ==> Contents() == Scheduler.PollTask(old(Contents()), id)
      ensures id !in old(tasks) ==> Contents() == old(Contents())
    {
      if id !in tasks {
        return;
      }
      var ready := PollAndSettle(id);
      if ready {
        assert eventRegistry == WithoutTask(old(eventRegistry), id);
        RemoveTask(id);
        assert tasks == old(tasks) - {id};
      }
    }

    method RemoveTask(id: TaskId)
      modifies this`tasks, this`eventRegistry
      ensures tasks == old(tasks) - {id}
      ensures eventRegistry == WithoutTask(old(eventRegistry), id)
    {
      tasks := tasks - {id};
      DropRegistrations(id);
    }

    /** Move the live woken ids to the end of the run queue. */
    method DrainAwake()
      modifies this`runQueue, this`awakeTasks
      ensures awakeTasks == []
      ensures runQueue == AddAll(old(runQueue), LiveOnly(old(awakeTasks), tasks))
    {
      var queue := awakeTasks;
      awakeTasks := [];
      for i := 0 to |queue|
        invariant awakeTasks == []
        invariant runQueue == AddAll(old(runQueue), LiveOnly(queue[..i], tasks))
      {
        assert queue[..i + 1][..i] == queue[..i];
        ghost var done := LiveOnly(queue[..i], tasks);
        if queue[i] in tasks {
          AddAllStep(old(runQueue), done, queue[i]);
          if queue[i] !in runQueue {
            runQueue := runQueue + [queue[i]];
          }
        } else {
          assert done + [] == done;
        }
      }
      assert queue[..|queue|] == queue;
    }

    method PollEach(runList: seq<TaskId>)
      modifies this
      ensures Contents() == PollAll(old(Contents()), runList)
    {
      for i := 0 to |runList|
        invariant Contents() == PollAll(old(Contents()), runList[..i])
      {
        assert runList[..i + 1][..i] == runList[..i];
        PollTask(runList[i]);
      }
      assert runList[..|runList|] == runList;
    }

    method RunOnce() returns (ranAny: bool)
      modifies this
      ensures Contents() == Scheduler.RunOnce(old(Contents()))
      ensures ranAny == (RunList(old(Contents())) != [])
    {
      DrainAwake();
      if runQueue == [] {
        return false;
      }
      var runList := runQueue;
      runQueue := [];
      PollEach(runList);
      return true;
    }

    /** The events to block on: those of the registry, each once, in order of first appearance. */
    method CollectEvents() returns (events: seq<Event>)
      ensures events == WaitList(Contents())
    {
      events := [];
      for i := 0 to |eventRegistry|
        invariant events == AddAll([], EventsOf(eventRegistry[..i]))
      {
        AddAllStep([], EventsOf(eventRegistry[..i]), eventRegistry[i].event);
        assert EventsOf(eventRegistry[..i + 1]) == EventsOf(eventRegistry[..i]) + [eventRegistry[i].event];
        if eventRegistry[i].event !in events {
          events := events + [eventRegistry[i].event];
        }
      }
      assert eventRegistry[..|eventRegistry|] == eventRegistry;
    }

    /** Queue every task registered on the signalled event. */
    method QueueTasksOn(signaledEvent: Event)
      modifies this`runQueue
      ensures runQueue == AddAll(old(runQueue), TasksOn(eventRegistry, signaledEvent))
    {
      for i := 0 to |eventRegistry|
        invariant runQueue == AddAll(old(runQueue), TasksOn(eventRegistry[..i], signaledEvent))
      {
        assert eventRegistry[..i + 1][..i] == eventRegistry[..i];
        var id := eventRegistry[i].task;
        ghost var done := TasksOn(eventRegistry[..i], signaledEvent);
        if eventRegistry[i].event == signaledEvent {
          AddAllStep(old(runQueue), done, id);
          if id !in runQueue {
            runQueue := runQueue + [id];
          }
        } else {
          assert done + [] == done;
        }
      }
      assert eventRegistry[..|eventRegistry|] == eventRegistry;
    }

    /** `wait` is the answer of the firmware, should it be asked. */
    method WaitForEvents(wait: Wait) returns (stalled: bool)
      modifies this`runQueue
      ensures Contents() == Scheduler.WaitForEvents(old(Contents()), wait)
      ensures stalled == (tasks != map[] && awakeTasks == [] && eventRegistry == [])
    {
      if tasks == map[] || awakeTasks != [] {
        return false;
      }
      var events := CollectEvents();
      WaitListEmpty(Contents());
      if events == [] {
        return true;
      }
      stalled := false;
      match wait {
        case Signalled(signalled) =>
          var index := FirstSignalled(events, signalled);
          if index < |events| {
            QueueTasksOn(events[index]);
          }
        case Failed =>
      }
    }

    method RunIteration(wait: Wait)
      requires tasks != map[]
      modifies this
      ensures Contents() == Iteration(old(Contents()), wait)
    {
      var ranAny := RunOnce();
      if !ranAny {
        var stalled := WaitForEvents(wait);
      }
    }

    /** The loop of `run`, broken off after `limit` iterations if it has not ended by then: whatever the
        tasks and the firmware do. `waits(k)` answers the firmware call of iteration `k`, if it makes
        one. */
    method RunFor(waits: nat -> Wait, limit: nat) returns (iterations: nat)
      modifies this
      ensures iterations <= limit
      ensures Contents() == Iterate(old(Contents()), waits, iterations)
      ensures forall i: nat :: i < iterations ==> !HaltedAt(old(Contents()), waits, i)
      ensures tasks == map[] || iterations == limit
    {
      ghost var s := Contents();
      iterations := 0;
      while tasks != map[] && iterations < limit
        invariant iterations <= limit
        invariant Contents() == Iterate(s, waits, iterations)
        invariant forall i: nat :: i < iterations ==> !HaltedAt(s, waits, i)
      {
        NextIterate(s, waits, iterations, Contents());
        RunIteration(waits(iterations));
        iterations := iterations + 1;
      }
    }

    /** `waits(k)` answers the firmware call of iteration `k`, if it makes one; `last` bounds the
        polls of each task. */
    method Run(waits: nat -> Wait, ghost last: TaskId -> nat) returns (iterations: nat)
      requires Valid(Contents()) && ReadyBy(Contents(), last)
      requires KeepsGoing(Contents(), waits)
      modifies this
      ensures tasks == map[]
      ensures Contents() == Iterate(old(Contents()), waits, iterations)
      ensures forall i: nat :: i < iterations ==> !HaltedAt(old(Contents()), waits, i)
      ensures iterations <= 2 * Remaining(old(Contents()), last)
    {
      ghost var s := Contents();
      ghost var limit := 2 * Remaining(s, last);
      iterations := 0;
      while tasks != map[]
        invariant Contents() == Iterate(s, waits, iterations)
        invariant forall i: nat :: i < iterations ==> !HaltedAt(s, waits, i)
        invariant iterations <= limit
        decreases limit - iterations
      {
        NotHaltedYet(s, waits, last, iterations);
        RunIteration(waits(iterations));
        iterations := iterations + 1;
      }
    }
  }

  /** One more iteration of a run that has come to the state `now`, where tasks are left. */
  lemma NextIterate(s: State, waits: nat -> Wait, n: nat, now: State)
    requires now == Iterate(s, waits, n) && now.tasks != map[]
    ensures !HaltedAt(s, waits, n) && Iterate(s, waits, n + 1) == Iteration(now, waits(n))
  {
  }
}
