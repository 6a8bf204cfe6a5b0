/** In which order tasks are queued, polled, woken and registered. */
module ExecutorQueue {
  import opened Prelude
  import opened Scheduler
  import opened ExecutorInvariant

  // ---- Appending what is new ----

  /** `rest` lists the elements of `xs` that are not in `s`, once each, in the order in which they
      first appear. */
  ghost predicate NewOnceInOrder<T(!new)>(rest: seq<T>, s: seq<T>, xs: seq<T>) {
    && (forall x :: x in rest <==> x in xs && x !in s)
    && (forall i, j :: 0 <= i < j < |rest| ==> FirstIndex(xs, rest[i]) < FirstIndex(xs, rest[j]))
  }

  lemma {:induction false} AddAllTail<T(!new)>(s: seq<T>, xs: seq<T>)
    ensures s <= AddAll(s, xs)
    ensures NewOnceInOrder(AddAll(s, xs)[|s|..], s, xs)
  {
    AddAllFacts(s, xs);
    if xs != [] {
      var front, last := xs[..|xs| - 1], xs[|xs| - 1];
      assert xs == front + [last];
      AddAllTail(s, front);
      AddAllFacts(s, front);
      AddNewTail(s, front, last, AddAll(s, front));
    }
  }

  lemma AddNewTail<T(!new)>(s: seq<T>, front: seq<T>, last: T, before: seq<T>)
    requires s <= before && NewOnceInOrder(before[|s|..], s, front)
    requires forall x :: x in before <==> x in s || x in front
    ensures s <= AddNew(before, last) && NewOnceInOrder(AddNew(before, last)[|s|..], s, front + [last])
  {
    var rest, xs := AddNew(before, last)[|s|..], front + [last];
    var known := before[|s|..];
    assert before == s + known;
    assert rest == if last in before then known else known + [last];
    forall i, j | 0 <= i < j < |rest| ensures FirstIndex(xs, rest[i]) < FirstIndex(xs, rest[j]) {
      assert rest[i] == known[i] && rest[i] in front;
      FirstIndexPrefix(front, last, rest[i]);
      if j < |known| {
        assert rest[j] == known[j] && rest[j] in front;
        FirstIndexPrefix(front, last, rest[j]);
      }
    }
  }

  lemma FirstIndexLast<T>(front: seq<T>, last: T)
    requires last !in front
    ensures FirstIndex(front + [last], last) == |front|
  {
    var all := front + [last];
    forall i | 0 <= i < |front| ensures all[i] != last {
      assert all[i] in front;
    }
    assert all[|front|] == last;
  }

  // ---- The queue ----

  /** Between two rounds the queue only grows at its end. */
  lemma {:induction false} QueueOnlyGrows(s: State, ops: seq<Op>)
    requires forall op :: op in ops ==> !op.DoRunOnce?
    ensures s.runQueue <= Exec(s, ops).runQueue
  {
    if ops != [] {
      var front, last := ops[..|ops| - 1], ops[|ops| - 1];
      assert ops == front + [last];
      QueueOnlyGrows(s, front);
      var before := Exec(s, front);
      assert last in ops;
      if last.DoWait? && Blocks(before) && Fires(before, last.wait) {
        AddAllFacts(before.runQueue, TasksOn(before.registry, WaitList(before)[
          FirstSignalled(WaitList(before), last.wait.events)]));
      }
    }
  }

  function Spawns(behaviours: seq<Behaviour>): seq<Op> {
    seq(|behaviours|, i requires 0 <= i < |behaviours| => DoSpawn(behaviours[i]))
  }

  /** Tasks get ascending ids, and their first round polls them in the order in which they were
      spawned. */
  lemma {:induction false} SpawnedInOrder(behaviours: seq<Behaviour>)
    ensures var s, n := Exec(INITIAL, Spawns(behaviours)), |behaviours|;
            && s.nextId == n && s.awake == [] && s.registry == []
            && s.runQueue == RunList(s) == seq(n, i => i)
            && (forall id: TaskId :: id in s.tasks <==> id < n)
            && (forall id :: 0 <= id < n ==> s.tasks[id] == Task(behaviours[id], 0))
  {
    if behaviours != [] {
      var front := behaviours[..|behaviours| - 1];
      SpawnedInOrder(front);
      assert Spawns(behaviours)[..|behaviours| - 1] == Spawns(front);
      var before := Exec(INITIAL, Spawns(front));
      assert Exec(INITIAL, Spawns(behaviours)) == Spawn(before, behaviours[|front|]);
      assert seq(|behaviours|, i => i) == seq(|front|, i => i) + [|front|];
    }
  }

  /** A round polls the queued tasks first, in the order of the queue, and then the live woken ones
      that were not queued, once each and in the order in which they were first woken. */
  lemma RunListOrder(s: State)
    ensures s.runQueue <= RunList(s)
    ensures var rest := RunList(s)[|s.runQueue|..];
            && (forall id :: id in rest <==> id in s.awake && id in s.tasks && id !in s.runQueue)
            && (forall i, j :: 0 <= i < j < |rest| ==> FirstIndex(s.awake, rest[i]) < FirstIndex(s.awake, rest[j]))
  {
    var live := LiveOnly(s.awake, s.tasks);
    AddAllTail(s.runQueue, live);
    LiveOnlyFacts(s.awake, s.tasks);
    var rest := RunList(s)[|s.runQueue|..];
    forall i, j | 0 <= i < j < |rest| ensures FirstIndex(s.awake, rest[i]) < FirstIndex(s.awake, rest[j]) {
      assert rest[i] in rest && rest[j] in rest;
      LiveOnlyOrder(s.awake, s.tasks, rest[i], rest[j]);
    }
  }

  lemma {:induction false} LiveOnlyOrder(ids: seq<TaskId>, tasks: map<TaskId, Task>, x: TaskId, y: TaskId)
    requires x in LiveOnly(ids, tasks) && y in LiveOnly(ids, tasks) && x in ids && y in ids
    requires FirstIndex(LiveOnly(ids, tasks), x) < FirstIndex(LiveOnly(ids, tasks), y)
    ensures FirstIndex(ids, x) < FirstIndex(ids, y)
  {
    var front, last := ids[..|ids| - 1], ids[|ids| - 1];
    var live := LiveOnly(front, tasks);
    assert ids == front + [last];
    LiveOnlyFacts(ids, tasks);
    LiveOnlyFacts(front, tasks);
    if y in front {
      FirstIndexPrefix(front, last, y);
      if last in tasks {
        FirstIndexPrefix(live, last, y);
      } else {
        assert live + [] == live;
      }
      assert LiveOnly(ids, tasks)[FirstIndex(LiveOnly(ids, tasks), x)] == live[FirstIndex(LiveOnly(ids, tasks), x)];
      assert x in live && x in front;
      if last in tasks {
        FirstIndexPrefix(live, last, x);
      }
      FirstIndexPrefix(front, last, x);
      LiveOnlyOrder(front, tasks, x, y);
    } else {
      assert y == last;
      FirstIndexLast(front, last);
      assert x != y;
    }
  }

  // ---- What a poll does, action by action ----

  lemma {:induction false} WokenConcat(a: seq<Action>, b: seq<Action>)
    ensures Woken(a + b) == Woken(a) + Woken(b)
  {
    if b == [] {
      assert a + b == a;
    } else {
      assert (a + b)[..|a + b| - 1] == a + b[..|b| - 1];
      WokenConcat(a, b[..|b| - 1]);
    }
  }

  lemma {:induction false} RegisteredConcat(a: seq<Action>, b: seq<Action>)
    ensures Registered(a + b) == Registered(a) + Registered(b)
  {
    if b == [] {
      assert a + b == a;
    } else {
      assert (a + b)[..|a + b| - 1] == a + b[..|b| - 1];
      RegisteredConcat(a, b[..|b| - 1]);
    }
  }

  /** Every wake and every registration of a poll counts, in order. */
  lemma ActionsInOrder(before: seq<Action>, action: Action, after: seq<Action>)
    ensures Woken(before + [action] + after) ==
            Woken(before) + (match action case Wake(id) => [id] case Register(_) => []) + Woken(after)
    ensures Registered(before + [action] + after) ==
            Registered(before) + (match action case Wake(_) => [] case Register(e) => [e]) + Registered(after)
  {
    WokenConcat(before + [action], after);
    WokenConcat(before, [action]);
    RegisteredConcat(before + [action], after);
    RegisteredConcat(before, [action]);
    assert [action][..0] == [];
    assert Woken([action]) == match action case Wake(id) => [id] case Register(_) => [];
    assert Registered([action]) == match action case Wake(_) => [] case Register(e) => [e];
  }

  /** The registrations of a task after a pending poll, one by one: its events, once each, in the order
      in which the poll first registered them. */
  lemma OwnRegistrations(s: State, id: TaskId)
    requires Valid(s) && id in s.tasks && !s.tasks[id].Next().ready
    ensures var own, events := OfTask(PollTask(s, id).registry, id), PollEvents(s, id);
            && OnceInOrder(events, Registered(s.tasks[id].Next().actions))
            && |own| == |events| && forall i :: 0 <= i < |own| ==> own[i] == Entry(events[i], id)
  {
    var kept, added := WithoutTask(s.registry, id), EntriesFor(id, PollEvents(s, id));
    PollRegistry(s, id);
    AddAllOnceInOrder(Registered(s.tasks[id].Next().actions));
    WithoutTaskFacts(s.registry, id);
    WithoutTaskIdentity(kept, id);
    SingleOwner(added, id, id);
    OfTaskConcat(kept, added, id);
    assert [] + added == added;
  }

  // ---- What a round leaves, in order ----

  /** What the next polls of some tasks wake, poll by poll. */
  function RoundWakes(s: State, ids: seq<TaskId>): seq<TaskId>
    requires forall id :: id in ids ==> id in s.tasks
  {
    if ids == [] then []
    else
      var last := ids[|ids| - 1];
      assert last in ids;
      RoundWakes(s, ids[..|ids| - 1]) + Woken(s.tasks[last].Next().actions)
  }

  /** The registrations that those which stay pending leave, poll by poll. */
  function RoundEntries(s: State, ids: seq<TaskId>): seq<Entry>
    requires forall id :: id in ids ==> id in s.tasks
  {
    if ids == [] then []
    else
      var last := ids[|ids| - 1];
      assert last in ids;
      RoundEntries(s, ids[..|ids| - 1]) +
      if s.tasks[last].Next().ready then [] else EntriesFor(last, PollEvents(s, last))
  }

  /** The registrations of all other tasks. */
  function WithoutTasks(entries: seq<Entry>, ids: seq<TaskId>): seq<Entry> {
    if entries == [] then []
    else (if entries[0].task in ids then [] else [entries[0]]) + WithoutTasks(entries[1..], ids)
  }

  lemma {:induction false} RoundEntriesOwners(s: State, ids: seq<TaskId>)
    requires forall id :: id in ids ==> id in s.tasks
    ensures forall e :: e in RoundEntries(s, ids) ==> e.task in ids
  {
    if ids != [] {
      RoundEntriesOwners(s, ids[..|ids| - 1]);
      assert ids == ids[..|ids| - 1] + [ids[|ids| - 1]];
    }
  }

  lemma {:induction false} WithoutTasksStep(entries: seq<Entry>, front: seq<TaskId>, last: TaskId)
    ensures WithoutTask(WithoutTasks(entries, front), last) == WithoutTasks(entries, front + [last])
  {
    if entries != [] {
      WithoutTasksStep(entries[1..], front, last);
      var first := if entries[0].task in front then [] else [entries[0]];
      WithoutTaskConcat(first, WithoutTasks(entries[1..], front), last);
      assert [entries[0]][..0] == [];
    }
  }

  lemma {:induction false} WithoutNoTasks(entries: seq<Entry>)
    ensures WithoutTasks(entries, []) == entries
  {
    if entries != [] {
      WithoutNoTasks(entries[1..]);
    }
  }

  lemma AddAllTwice<T>(s: seq<T>, xs: seq<T>, ys: seq<T>)
    ensures AddAll(AddAll(s, xs), ys) == AddAll(s, xs + ys)
  {
    if ys == [] {
      assert xs + ys == xs;
    } else {
      AddAllTwice(s, xs, ys[..|ys| - 1]);
      assert (xs + ys)[..|xs + ys| - 1] == xs + ys[..|ys| - 1];
    }
  }

  /** The registry and the wake list after polling some tasks in order. */
  lemma {:induction false} PollAllOrder(s: State, ids: seq<TaskId>)
    requires Valid(s) && s.runQueue == [] && NoDup(ids) && forall id :: id in ids ==> id in s.tasks
    ensures PollAll(s, ids).registry == WithoutTasks(s.registry, ids) + RoundEntries(s, ids)
    ensures PollAll(s, ids).awake == AddAll(s.awake, RoundWakes(s, ids))
  {
    if ids == [] {
      WithoutNoTasks(s.registry);
    } else {
      var front, last := ids[..|ids| - 1], ids[|ids| - 1];
      assert ids == front + [last];
      PollAllOrder(s, front);
      PollAllFacts(s, front);
      assert last in ids && last !in front;
      var before := PollAll(s, front);
      assert before.tasks[last] == s.tasks[last];
      PollRegistry(before, last);
      WithoutTaskConcat(WithoutTasks(s.registry, front), RoundEntries(s, front), last);
      RoundEntriesOwners(s, front);
      WithoutTaskIdentity(RoundEntries(s, front), last);
      WithoutTasksStep(s.registry, front, last);
      AddAllTwice(s.awake, RoundWakes(s, front), Woken(s.tasks[last].Next().actions));
      Associate(WithoutTasks(s.registry, ids), RoundEntries(s, front),
                if s.tasks[last].Next().ready then [] else EntriesFor(last, PollEvents(s, last)));
    }
  }

  /** After a round the registrations of the tasks that were not polled come first, as they were, and
      then those of the polled ones in the order in which they were polled; the woken tasks are those
      of its polls, in the order in which they were first woken. */
  lemma RoundOrder(s: State)
    requires Valid(s)
    ensures forall id :: id in RunList(s) ==> id in s.tasks
    ensures RunOnce(s).registry == WithoutTasks(s.registry, RunList(s)) + RoundEntries(s, RunList(s))
    ensures NewOnceInOrder(RunOnce(s).awake, [], RoundWakes(s, RunList(s)))
  {
    RunListFacts(s);
    PollAllOrder(Drained(s), RunList(s));
    SameRound(s, RunList(s));
    AddAllTail([], RoundWakes(s, RunList(s)));
  }

  lemma {:induction false} SameRound(s: State, ids: seq<TaskId>)
    requires forall id :: id in ids ==> id in s.tasks
    ensures RoundWakes(Drained(s), ids) == RoundWakes(s, ids)
    ensures RoundEntries(Drained(s), ids) == RoundEntries(s, ids)
  {
    if ids != [] {
      SameRound(s, ids[..|ids| - 1]);
    }
  }

  // ---- Waiting ----

  /** The loop asks the firmware only when nothing is runnable: otherwise its answer would make no
      difference. */
  lemma BlocksOnlyWhenIdle(s: State, w: Wait, w': Wait)
    ensures s.tasks == map[] ==> Iteration(s, w) == s
    ensures s.tasks != map[] && RunList(s) != [] ==> Iteration(s, w) == Iteration(s, w') == RunOnce(s)
    ensures s.tasks != map[] && RunList(s) == [] ==> Iteration(s, w) == WaitForEvents(Drained(s), w)
  {
  }

  /** A wait leaves everything as it is if no task is left, one is woken, none is registered, or the
      answer is an error or none of the events. */
  lemma WaitLeavesAlone(s: State, w: Wait)
    requires
      || s.tasks == map[] || s.awake != [] || s.registry == [] || w.Failed?
      || forall e :: e in s.registry ==> e.event !in w.events
    ensures WaitForEvents(s, w) == s
  {
    if Blocks(s) && w.Signalled? {
      WaitListFacts(s);
      var events := WaitList(s);
      forall i | 0 <= i < |events| ensures events[i] !in w.events {
        assert events[i] in events;
      }
    }
  }

  /** Otherwise the tasks registered on the reported event are queued behind the others, in the order
      of their registrations. */
  lemma WaitQueueOrder(s: State, w: Wait) returns (event: Event)
    requires Blocks(s) && Fires(s, w)
    ensures event in w.events
    ensures s.runQueue <= WaitForEvents(s, w).runQueue
    ensures var rest := WaitForEvents(s, w).runQueue[|s.runQueue|..];
            && (forall id :: id in rest <==> Entry(event, id) in s.registry && id !in s.runQueue)
            && (forall i, j :: 0 <= i < j < |rest| ==>
                  FirstIndex(s.registry, Entry(event, rest[i])) < FirstIndex(s.registry, Entry(event, rest[j])))
  {
    event := WaitList(s)[FirstSignalled(WaitList(s), w.events)];
    var ids := TasksOn(s.registry, event);
    AddAllTail(s.runQueue, ids);
    TasksOnFacts(s.registry, event);
    var rest := WaitForEvents(s, w).runQueue[|s.runQueue|..];
    forall i, j | 0 <= i < j < |rest|
      ensures FirstIndex(s.registry, Entry(event, rest[i])) < FirstIndex(s.registry, Entry(event, rest[j]))
    {
      assert rest[i] in rest && rest[j] in rest;
      TasksOnOrder(s.registry, event, rest[i], rest[j]);
    }
  }

  lemma {:induction false} TasksOnOrder(entries: seq<Entry>, event: Event, x: TaskId, y: TaskId)
    requires x in TasksOn(entries, event) && y in TasksOn(entries, event)
    requires Entry(event, x) in entries && Entry(event, y) in entries
    requires FirstIndex(TasksOn(entries, event), x) < FirstIndex(TasksOn(entries, event), y)
    ensures FirstIndex(entries, Entry(event, x)) < FirstIndex(entries, Entry(event, y))
  {
    var front, last := entries[..|entries| - 1], entries[|entries| - 1];
    var ids := TasksOn(front, event);
    assert entries == front + [last];
    TasksOnFacts(front, event);
    if Entry(event, y) in front {
      FirstIndexPrefix(front, last, Entry(event, y));
      if last.event == event {
        FirstIndexPrefix(ids, last.task, y);
      } else {
        assert ids + [] == ids;
      }
      assert TasksOn(entries, event)[FirstIndex(TasksOn(entries, event), x)] ==
             ids[FirstIndex(TasksOn(entries, event), x)];
      assert x in ids;
      if last.event == event {
        FirstIndexPrefix(ids, last.task, x);
      }
      FirstIndexPrefix(front, last, Entry(event, x));
      TasksOnOrder(front, event, x, y);
    } else {
      assert last == Entry(event, y);
      FirstIndexLast(front, last);
      assert x != y;
    }
  }
}
