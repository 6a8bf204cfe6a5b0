/** What holds of the executor between any two calls, and what one `run_once` does exactly. */
module ExecutorInvariant {
  import opened Prelude
  import opened Scheduler

  ghost predicate Valid(s: State) {
    && NoDup(s.runQueue)
    && NoDup(s.awake)
    && NoDup(s.registry)
    && (forall id :: id in s.runQueue ==> id in s.tasks)
    && (forall e :: e in s.registry ==> e.task in s.tasks)
    && (forall id :: id in s.tasks ==> id < s.nextId)
    && s.current == None
    && s.staging == []
  }

  // ---- Registrations of one poll ----

  ghost function FirstIndex<T>(xs: seq<T>, x: T): (i: nat)
    requires x in xs
    ensures i < |xs| && xs[i] == x
    ensures forall j :: 0 <= j < i ==> xs[j] != x
  {
    if xs[0] == x then 0 else 1 + FirstIndex(xs[1..], x)
  }

  /** `r` lists the elements of `xs`, once each, in the order in which they first appear. */
  ghost predicate OnceInOrder<T(!new)>(r: seq<T>, xs: seq<T>) {
    && (forall x :: x in r <==> x in xs)
    && (forall i, j :: 0 <= i < j < |r| ==> FirstIndex(xs, r[i]) < FirstIndex(xs, r[j]))
  }

  lemma FirstIndexPrefix<T>(front: seq<T>, last: T, x: T)
    requires x in front
    ensures FirstIndex(front + [last], x) == FirstIndex(front, x)
  {
    var i := FirstIndex(front, x);
    assert (front + [last])[i] == x;
    assert forall j :: 0 <= j < i ==> (front + [last])[j] == front[j];
  }

  lemma {:induction false} AddAllOnceInOrder<T(!new)>(xs: seq<T>)
    ensures OnceInOrder(AddAll([], xs), xs)
  {
    AddAllFacts([], xs);
    if xs != [] {
      var front, last := xs[..|xs| - 1], xs[|xs| - 1];
      AddAllOnceInOrder(front);
      var seen, r := AddAll([], front), AddAll([], xs);
      assert xs == front + [last];
      forall i, j | 0 <= i < j < |r| ensures FirstIndex(xs, r[i]) < FirstIndex(xs, r[j]) {
        assert r[i] in front && r[i] == seen[i];
        FirstIndexPrefix(front, last, r[i]);
        if j < |seen| {
          assert r[j] in front && r[j] == seen[j];
          FirstIndexPrefix(front, last, r[j]);
        }
      }
    }
  }

  lemma OrderReflected<T(!new)>(r: seq<T>, xs: seq<T>, i: nat, j: nat)
    requires OnceInOrder(r, xs) && i < |r| && j < |r|
    requires FirstIndex(xs, r[i]) < FirstIndex(xs, r[j])
    ensures i < j
  {
  }

  /** The events that a poll of `id` in state `s` registers, duplicates dropped. */
  function PollEvents(s: State, id: TaskId): seq<Event>
    requires id in s.tasks
  {
    AddAll([], Registered(s.tasks[id].Next().actions))
  }

  lemma {:induction false} EntriesAddAll(id: TaskId, events: seq<Event>)
    ensures AddAll([], EntriesFor(id, events)) == EntriesFor(id, AddAll([], events))
  {
    if events != [] {
      var front, last := events[..|events| - 1], events[|events| - 1];
      EntriesAddAll(id, front);
      assert EntriesFor(id, events)[..|events| - 1] == EntriesFor(id, front);
      var seen := AddAll([], front);
      if last in seen {
        assert EntriesFor(id, seen)[FirstIndex(seen, last)] == Entry(last, id);
      } else {
        assert EntriesFor(id, seen + [last]) == EntriesFor(id, seen) + [Entry(last, id)];
      }
    }
  }

  lemma WithoutTaskTwice(entries: seq<Entry>, id: TaskId)
    ensures WithoutTask(WithoutTask(entries, id), id) == WithoutTask(entries, id)
  {
    WithoutTaskFacts(entries, id);
    WithoutTaskIdentity(WithoutTask(entries, id), id);
  }

  lemma {:induction false} WithoutTaskIdentity(entries: seq<Entry>, id: TaskId)
    requires forall e :: e in entries ==> e.task != id
    ensures WithoutTask(entries, id) == entries
    ensures OfTask(entries, id) == []
  {
    if entries != [] {
      var front, last := entries[..|entries| - 1], entries[|entries| - 1];
      assert entries == front + [last];
      WithoutTaskIdentity(front, id);
    }
  }

  lemma {:induction false} OfOther(entries: seq<Entry>, id: TaskId, other: TaskId)
    requires other != id
    ensures OfTask(WithoutTask(entries, id), other) == OfTask(entries, other)
  {
    if entries != [] {
      var front, last := entries[..|entries| - 1], entries[|entries| - 1];
      OfOther(front, id, other);
      OfTaskConcat(WithoutTask(front, id), if last.task != id then [last] else [], other);
      assert [last][..0] == [];
    }
  }

  /** The registry after one poll, in closed form. */
  lemma PollRegistry(s: State, id: TaskId)
    requires s.staging == [] && id in s.tasks
    ensures var s' := PollTask(s, id);
            && s'.staging == []
            && s'.registry == WithoutTask(s.registry, id) +
                              if s.tasks[id].Next().ready then [] else EntriesFor(id, PollEvents(s, id))
  {
    var events := Registered(s.tasks[id].Next().actions);
    EntriesAddAll(id, events);
    SingleOwner(EntriesFor(id, PollEvents(s, id)), id, id);
    WithoutTaskTwice(s.registry, id);
  }

  /** Registry exactness: after a poll that stays pending, `id` is registered on exactly the
      events of that poll, once each and in order; after a ready one, on none. All other
      registrations keep their content and relative order. */
  lemma RegistryExact(s: State, id: TaskId)
    requires Valid(s) && id in s.tasks
    ensures var s' := PollTask(s, id);
            && (s.tasks[id].Next().ready ==> OfTask(s'.registry, id) == [])
            && (!s.tasks[id].Next().ready ==>
                  exists events ::
                    && OnceInOrder(events, Registered(s.tasks[id].Next().actions))
                    && OfTask(s'.registry, id) == EntriesFor(id, events))
            && WithoutTask(s'.registry, id) == WithoutTask(s.registry, id)
            && forall other :: other != id ==> OfTask(s'.registry, other) == OfTask(s.registry, other)
  {
    PollRegistry(s, id);
    var kept := WithoutTask(s.registry, id);
    var added := if s.tasks[id].Next().ready then [] else EntriesFor(id, PollEvents(s, id));
    AddAllOnceInOrder(Registered(s.tasks[id].Next().actions));
    WithoutTaskFacts(s.registry, id);
    WithoutTaskIdentity(kept, id);
    SingleOwner(added, id, id);
    OfTaskConcat(kept, added, id);
    WithoutTaskConcat(kept, added, id);
    assert kept + [] == kept;
    forall other | other != id ensures OfTask(kept + added, other) == OfTask(s.registry, other) {
      OfOther(s.registry, id, other);
      OfTaskConcat(kept, added, other);
      SingleOwner(added, id, other);
    }
  }

  // ---- The invariant is kept ----

  lemma NoDupConcat<T>(a: seq<T>, b: seq<T>)
    requires NoDup(a) && NoDup(b)
    requires forall x :: x in a ==> x !in b
    ensures NoDup(a + b)
  {
    forall i, j | 0 <= i < j < |a + b| ensures (a + b)[i] != (a + b)[j] {
      if i < |a| <= j {
        assert a[i] in a && b[j - |a|] in b;
      }
    }
  }

  lemma PollRegistryNoDup(s: State, id: TaskId)
    requires Valid(s) && id in s.tasks
    ensures NoDup(PollTask(s, id).registry)
  {
    PollRegistry(s, id);
    WithoutTaskFacts(s.registry, id);
    var kept, events := WithoutTask(s.registry, id), PollEvents(s, id);
    if s.tasks[id].Next().ready {
      assert kept + [] == kept;
    } else {
      AddAllFacts([], Registered(s.tasks[id].Next().actions));
      var added := EntriesFor(id, events);
      assert forall i :: 0 <= i < |added| ==> added[i].event == events[i];
      NoDupConcat(kept, added);
    }
  }

  lemma PollRegistryLive(s: State, id: TaskId)
    requires Valid(s) && id in s.tasks
    ensures forall e :: e in PollTask(s, id).registry ==> e.task in PollTask(s, id).tasks
  {
    PollRegistry(s, id);
    WithoutTaskFacts(s.registry, id);
  }

  lemma PollTaskValid(s: State, id: TaskId)
    requires Valid(s) && id !in s.runQueue
    ensures Valid(PollTask(s, id))
  {
    if id in s.tasks {
      PollRegistryNoDup(s, id);
      PollRegistryLive(s, id);
      assert PollTask(s, id).staging == [] by { PollRegistry(s, id); }
      AddAllFacts(s.awake, Woken(s.tasks[id].Next().actions));
    }
  }

  lemma RunListFacts(s: State)
    requires Valid(s)
    ensures NoDup(RunList(s))
    ensures forall id :: id in RunList(s) <==> id in s.tasks && (id in s.runQueue || id in s.awake)
  {
    LiveOnlyFacts(s.awake, s.tasks);
    AddAllFacts(s.runQueue, LiveOnly(s.awake, s.tasks));
  }

  /** Within `run_once`: the invariant after any prefix of the run list, and which tasks remain. */
  lemma {:induction false} PollAllFacts(s: State, ids: seq<TaskId>)
    requires Valid(s) && s.runQueue == []
    requires NoDup(ids)
    ensures var s' := PollAll(s, ids);
            && Valid(s') && s'.runQueue == [] && s'.nextId == s.nextId
            && (forall id :: id in s'.tasks <==>
                             id in s.tasks && !(id in ids && s.tasks[id].Next().ready))
            && (forall id :: id in s'.tasks ==>
                             s'.tasks[id] == if id in ids then s.tasks[id].Polled() else s.tasks[id])
  {
    if ids != [] {
      var front, last := ids[..|ids| - 1], ids[|ids| - 1];
      assert ids == front + [last];
      PollAllFacts(s, front);
      PollTaskValid(PollAll(s, front), last);
      assert last !in front;
    }
  }

  /** Every queued task is still live when its turn comes, so the `None => continue` arm of
      `run_once` is unreachable. */
  lemma RunListLive(s: State, i: nat)
    requires Valid(s) && i < |RunList(s)|
    ensures RunList(s)[i] in PollAll(Drained(s), RunList(s)[..i]).tasks
  {
    RunListFacts(s);
    PollAllFacts(Drained(s), RunList(s)[..i]);
    assert RunList(s)[i] in RunList(s);
  }

  /** One `run_once` polls each queued or woken live task exactly once and no other task; the
      tasks that go are exactly the polled ones whose poll was ready. */
  lemma RunOncePollsExactlyOnce(s: State)
    requires Valid(s)
    ensures Valid(RunOnce(s))
    ensures forall id :: id in RunOnce(s).tasks <==>
                         id in s.tasks && !((id in s.runQueue || id in s.awake) && s.tasks[id].Next().ready)
    ensures forall id :: id in RunOnce(s).tasks ==>
                         RunOnce(s).tasks[id].polls == s.tasks[id].polls +
                         if id in s.runQueue || id in s.awake then 1 else 0
  {
    RunListFacts(s);
    PollAllFacts(Drained(s), RunList(s));
  }

  lemma WaitForEventsValid(s: State, w: Wait)
    requires Valid(s)
    ensures Valid(WaitForEvents(s, w))
  {
    if Blocks(s) && Fires(s, w) {
      var event := WaitList(s)[FirstSignalled(WaitList(s), w.events)];
      TasksOnFacts(s.registry, event);
      AddAllFacts(s.runQueue, TasksOn(s.registry, event));
    }
  }

  /** What a successful wait does: it queues the tasks registered on one event, and that event is
      signalled and has an entry before those of all other signalled events. */
  lemma WaitQueuesExactly(s: State, w: Wait) returns (event: Event)
    requires Blocks(s) && Fires(s, w)
    ensures event in w.events
    ensures forall id :: id in WaitForEvents(s, w).runQueue <==> id in s.runQueue || Entry(event, id) in s.registry
    ensures s.runQueue <= WaitForEvents(s, w).runQueue
    ensures exists i :: 0 <= i < |s.registry| && s.registry[i].event == event &&
                        forall j :: 0 <= j < i ==> s.registry[j].event !in w.events
  {
    var index := FirstSignalled(WaitList(s), w.events);
    event := WaitList(s)[index];
    TasksOnFacts(s.registry, event);
    AddAllFacts(s.runQueue, TasksOn(s.registry, event));
    var events := EventsOf(s.registry);
    AddAllOnceInOrder(events);
    assert event in events;
    var i := FirstIndex(events, event);
    forall j | 0 <= j < i ensures s.registry[j].event !in w.events {
      var other := events[j];
      assert other in WaitList(s);
      var k :| 0 <= k < |WaitList(s)| && WaitList(s)[k] == other;
      assert FirstIndex(events, other) <= j;
      OrderReflected(WaitList(s), events, k, index);
    }
    assert s.registry[i].event == event;
  }

  lemma ApplyValid(s: State, op: Op)
    requires Valid(s)
    ensures Valid(Apply(s, op))
  {
    match op
    case DoSpawn(b) =>
      assert s.nextId !in s.runQueue;
      NoDupConcat(s.runQueue, [s.nextId]);
    case DoWake(id) => AddAllFacts(s.awake, [id]);
    case DoRunOnce => RunOncePollsExactlyOnce(s);
    case DoWait(w) => WaitForEventsValid(s, w);
  }

  lemma {:induction false} ExecValid(s: State, ops: seq<Op>)
    requires Valid(s)
    ensures Valid(Exec(s, ops))
  {
    if ops != [] {
      ExecValid(s, ops[..|ops| - 1]);
      ApplyValid(Exec(s, ops[..|ops| - 1]), ops[|ops| - 1]);
    }
  }

  /** The invariant holds after any calls to a new executor, whatever its tasks do. */
  lemma ReachableValid(ops: seq<Op>)
    ensures Valid(Exec(INITIAL, ops))
  {
    ExecValid(INITIAL, ops);
  }

  lemma IterationValid(s: State, w: Wait)
    requires Valid(s)
    ensures Valid(Iteration(s, w))
  {
    RunOncePollsExactlyOnce(s);
    WaitForEventsValid(RunOnce(s), w);
  }

  lemma {:induction false} IterateValid(s: State, waits: nat -> Wait, n: nat)
    requires Valid(s)
    ensures Valid(Iterate(s, waits, n))
  {
    if n > 0 {
      IterateValid(s, waits, n - 1);
      IterationValid(Iterate(s, waits, n - 1), waits(n - 1));
    }
  }
}
