/** When `run` halts, how soon, and what makes it stall for ever instead. */
module ExecutorTermination {
  import opened Prelude
  import opened Scheduler
  import opened ExecutorInvariant

  // ---- The remaining polls ----

  /** Every live task is ready at the latest in its poll number `last(id)`, counting from 0. */
  ghost predicate ReadyBy(s: State, last: TaskId -> nat) {
    forall id :: id in s.tasks ==> s.tasks[id].polls <= last(id) && s.tasks[id].behaviour(last(id)).ready
  }

  ghost function RemainingBelow(tasks: map<TaskId, Task>, last: TaskId -> nat, n: nat): nat
    requires forall id :: id in tasks ==> tasks[id].polls <= last(id)
  {
    if n == 0 then 0
    else RemainingBelow(tasks, last, n - 1) + if n - 1 in tasks then last(n - 1) + 1 - tasks[n - 1].polls else 0
  }

  /** The total number of polls that the live tasks can still need. */
  ghost function Remaining(s: State, last: TaskId -> nat): nat
    requires ReadyBy(s, last)
  {
    RemainingBelow(s.tasks, last, s.nextId)
  }

  lemma {:induction false} RemainingPositive(tasks: map<TaskId, Task>, last: TaskId -> nat, n: nat, id: TaskId)
    requires forall id :: id in tasks ==> tasks[id].polls <= last(id)
    requires id in tasks && id < n
    ensures RemainingBelow(tasks, last, n) >= 1
  {
    if id < n - 1 {
      RemainingPositive(tasks, last, n - 1, id);
    }
  }

  /** Tasks that go or are polled need fewer polls. */
  lemma {:induction false} RemainingShrinks(before: map<TaskId, Task>, after: map<TaskId, Task>,
                                            last: TaskId -> nat, n: nat, polled: set<TaskId>)
    requires forall id :: id in before ==> before[id].polls <= last(id)
    requires forall id :: id in after ==> id in before && after[id].polls <= last(id)
    requires forall id :: id in after ==>
               after[id].polls == before[id].polls + if id in polled then 1 else 0
    ensures RemainingBelow(after, last, n) <= RemainingBelow(before, last, n)
    ensures (exists id :: id in polled && id in before && id < n) ==>
              RemainingBelow(after, last, n) < RemainingBelow(before, last, n)
  {
    if n > 0 {
      RemainingShrinks(before, after, last, n - 1, polled);
    }
  }

  lemma RunOnceReady(s: State, last: TaskId -> nat)
    requires Valid(s) && ReadyBy(s, last)
    ensures ReadyBy(RunOnce(s), last)
  {
    RunListFacts(s);
    PollAllFacts(Drained(s), RunList(s));
    forall id | id in RunOnce(s).tasks
      ensures RunOnce(s).tasks[id].polls <= last(id)
    {
      assert s.tasks[id].Next() == s.tasks[id].behaviour(s.tasks[id].polls);
    }
  }

  lemma RunOnceShrinks(s: State, last: TaskId -> nat)
    requires Valid(s) && ReadyBy(s, last)
    ensures ReadyBy(RunOnce(s), last)
    ensures Remaining(RunOnce(s), last) <= Remaining(s, last)
    ensures RunList(s) != [] ==> Remaining(RunOnce(s), last) < Remaining(s, last)
  {
    RunOnceReady(s, last);
    RunListFacts(s);
    PollAllFacts(Drained(s), RunList(s));
    var polled := set id | id in RunList(s);
    RemainingShrinks(s.tasks, RunOnce(s).tasks, last, s.nextId, polled);
    if RunList(s) != [] {
      assert RunList(s)[0] in polled;
    }
  }

  // ---- Progress ----

  /** Nothing is runnable, and there is nothing to wait for either. */
  predicate Stuck(s: State) {
    s.tasks != map[] && RunList(s) == [] && s.registry == []
  }

  /** If `run` reaches a wait in state `s`, the firmware answers it with an awaited event. */
  ghost predicate Answered(s: State, w: Wait) {
    s.tasks != map[] && RunList(s) == [] && s.registry != [] ==> Fires(RunOnce(s), w)
  }

  /** A round that polls nothing is followed by one that polls some task. */
  lemma WaitMakesRunnable(s: State, w: Wait)
    requires Valid(s) && s.tasks != map[] && RunList(s) == []
    requires !Stuck(s) && Answered(s, w)
    ensures Iteration(s, w).tasks == s.tasks && RunList(Iteration(s, w)) != []
  {
    var drained := RunOnce(s);
    assert drained == Drained(s);
    assert Blocks(drained) && Fires(drained, w);
    var event := WaitList(drained)[FirstSignalled(WaitList(drained), w.events)];
    WaitListFacts(drained);
    assert event in WaitList(drained);
    var i :| 0 <= i < |drained.registry| && drained.registry[i].event == event;
    TasksOnFacts(drained.registry, event);
    assert drained.registry[i] == Entry(event, drained.registry[i].task);
    AddAllFacts(drained.runQueue, TasksOn(drained.registry, event));
    var after := Iteration(s, w);
    AddAllFacts(after.runQueue, LiveOnly(after.awake, after.tasks));
    assert drained.registry[i].task in after.runQueue;
  }

  /** Lexicographic in effect: remaining polls first, then whether something is runnable. */
  ghost function Measure(s: State, last: TaskId -> nat): int
    requires ReadyBy(s, last)
  {
    2 * Remaining(s, last) - if RunList(s) == [] then 0 else 1
  }

  lemma MeasurePositive(s: State, last: TaskId -> nat)
    requires Valid(s) && ReadyBy(s, last) && s.tasks != map[]
    ensures Measure(s, last) > 0
  {
    var id :| id in s.tasks;
    RemainingPositive(s.tasks, last, s.nextId, id);
  }

  lemma IterationShrinks(s: State, w: Wait, last: TaskId -> nat)
    requires Valid(s) && ReadyBy(s, last) && s.tasks != map[]
    requires !Stuck(s) && Answered(s, w)
    ensures Valid(Iteration(s, w)) && ReadyBy(Iteration(s, w), last)
    ensures Measure(Iteration(s, w), last) < Measure(s, last)
  {
    IterationValid(s, w);
    RunOnceShrinks(s, last);
    if RunList(s) == [] {
      WaitMakesRunnable(s, w);
    }
  }

  ghost predicate StuckAt(s: State, waits: nat -> Wait, i: nat) {
    Stuck(Iterate(s, waits, i))
  }

  ghost predicate AnsweredAt(s: State, waits: nat -> Wait, i: nat) {
    Answered(Iterate(s, waits, i), waits(i))
  }

  ghost predicate HaltedAt(s: State, waits: nat -> Wait, i: nat) {
    Iterate(s, waits, i).tasks == map[]
  }

  ghost predicate ReadyAt(s: State, waits: nat -> Wait, last: TaskId -> nat, i: nat) {
    Valid(Iterate(s, waits, i)) && ReadyBy(Iterate(s, waits, i), last)
  }

  lemma {:induction false} IterateReady(s: State, waits: nat -> Wait, last: TaskId -> nat, n: nat)
    requires Valid(s) && ReadyBy(s, last)
    ensures ReadyAt(s, waits, last, n)
  {
    if n > 0 {
      IterateReady(s, waits, last, n - 1);
      IterationValid(Iterate(s, waits, n - 1), waits(n - 1));
      RunOnceShrinks(Iterate(s, waits, n - 1), last);
    }
  }

  /** The measure plus the number of iterations so far. */
  ghost function Spent(s: State, waits: nat -> Wait, last: TaskId -> nat): nat -> int {
    (i: nat) => if ReadyAt(s, waits, last, i) then Measure(Iterate(s, waits, i), last) + i else 0
  }

  lemma SpentFalls(s: State, waits: nat -> Wait, last: TaskId -> nat, i: nat)
    requires Valid(s) && ReadyBy(s, last)
    requires !StuckAt(s, waits, i) && AnsweredAt(s, waits, i) && !HaltedAt(s, waits, i)
    ensures Falls(Spent(s, waits, last), i)
  {
    IterateReady(s, waits, last, i);
    IterationShrinks(Iterate(s, waits, i), waits(i), last);
  }

  /** `run` never gets stuck, and each of its waits is answered. */
  ghost predicate KeepsGoing(s: State, waits: nat -> Wait) {
    forall i: nat :: !StuckAt(s, waits, i) && AnsweredAt(s, waits, i)
  }

  /** With N polls to go, `run` has halted after 2N iterations, if it is never stuck and its waits
      are answered. */
  lemma RunHalts(s: State, waits: nat -> Wait, last: TaskId -> nat)
    requires Valid(s) && ReadyBy(s, last)
    requires KeepsGoing(s, waits)
    ensures HaltedAt(s, waits, 2 * Remaining(s, last))
  {
    var n := 2 * Remaining(s, last);
    if !HaltedAt(s, waits, n) {
      forall i: nat | i < n ensures Falls(Spent(s, waits, last), i) {
        if HaltedAt(s, waits, i) {
          HaltedForever(s, waits, i, n);
        } else {
          assert !StuckAt(s, waits, i) && AnsweredAt(s, waits, i);
          SpentFalls(s, waits, last, i);
        }
      }
      NonIncreasing(Spent(s, waits, last), n);
      IterateReady(s, waits, last, n);
      IterateReady(s, waits, last, 0);
      assert Iterate(s, waits, 0) == s;
      MeasurePositive(Iterate(s, waits, n), last);
    }
  }

  lemma NotHaltedYet(s: State, waits: nat -> Wait, last: TaskId -> nat, i: nat)
    requires Valid(s) && ReadyBy(s, last) && KeepsGoing(s, waits)
    requires !HaltedAt(s, waits, i)
    ensures i < 2 * Remaining(s, last)
  {
    RunHalts(s, waits, last);
    if i >= 2 * Remaining(s, last) {
      HaltedForever(s, waits, 2 * Remaining(s, last), i);
    }
  }

  // ---- Being stuck is for ever ----

  lemma StuckStep(s: State, w: Wait)
    requires Stuck(s)
    ensures Stuck(Iteration(s, w)) && Iteration(s, w).tasks == s.tasks
  {
    AddAllFacts(s.runQueue, LiveOnly(s.awake, s.tasks));
    assert s.runQueue == [];
    assert Iteration(s, w) == Drained(s);
  }

  lemma {:induction false} StuckForever(s: State, waits: nat -> Wait, k: nat, n: nat)
    requires k <= n && StuckAt(s, waits, k)
    ensures Iterate(s, waits, n).tasks == Iterate(s, waits, k).tasks && StuckAt(s, waits, n)
  {
    if k < n {
      StuckForever(s, waits, k, n - 1);
      StuckStep(Iterate(s, waits, n - 1), waits(n - 1));
    }
  }

  lemma {:induction false} HaltedForever(s: State, waits: nat -> Wait, k: nat, n: nat)
    requires k <= n && HaltedAt(s, waits, k)
    ensures HaltedAt(s, waits, n)
  {
    if k < n {
      HaltedForever(s, waits, k, n - 1);
    }
  }

  /** Provided that the tasks are finite and the waits are answered, `run` halts if and only if it
      never gets stuck. */
  lemma RunHaltsIffNeverStuck(s: State, waits: nat -> Wait, last: TaskId -> nat)
    requires Valid(s) && ReadyBy(s, last)
    requires forall i: nat :: AnsweredAt(s, waits, i)
    ensures (exists n: nat :: HaltedAt(s, waits, n)) <==> (forall k: nat :: !StuckAt(s, waits, k))
  {
    if forall k: nat :: !StuckAt(s, waits, k) {
      RunHalts(s, waits, last);
    }
    forall n: nat, k: nat | HaltedAt(s, waits, n) ensures !StuckAt(s, waits, k) {
      if StuckAt(s, waits, k) {
        if n <= k {
          HaltedForever(s, waits, n, k);
        } else {
          StuckForever(s, waits, k, n);
        }
      }
    }
  }

  // ---- Tasks that always leave a way to be resumed ----

  ghost predicate HasEntry(registry: seq<Entry>, id: TaskId) {
    exists e :: e in registry && e.task == id
  }

  /** Every live task is queued, woken, registered on an event, or in `todo`. */
  ghost predicate Covered(s: State, todo: set<TaskId>) {
    forall id :: id in s.tasks ==> id in todo || id in s.runQueue || id in s.awake || HasEntry(s.registry, id)
  }

  ghost predicate NoOrphans(s: State) {
    Covered(s, {})
  }

  /** From poll number `from` on, a pending poll registers an event or wakes its own task. */
  ghost predicate Arms(behaviour: Behaviour, id: TaskId, from: nat) {
    forall k: nat :: from <= k && !behaviour(k).ready ==>
      Registered(behaviour(k).actions) != [] || id in Woken(behaviour(k).actions)
  }

  ghost predicate AllArm(s: State) {
    forall id :: id in s.tasks ==> Arms(s.tasks[id].behaviour, id, s.tasks[id].polls)
  }

  lemma PollCovers(s: State, id: TaskId, todo: set<TaskId>)
    requires Valid(s) && s.runQueue == [] && Covered(s, todo)
    requires id in s.tasks && Arms(s.tasks[id].behaviour, id, s.tasks[id].polls)
    ensures Covered(PollTask(s, id), todo - {id})
  {
    var s', step := PollTask(s, id), s.tasks[id].Next();
    PollRegistry(s, id);
    WithoutTaskFacts(s.registry, id);
    AddAllFacts(s.awake, Woken(step.actions));
    AddAllFacts([], Registered(step.actions));
    forall other | other in s'.tasks
      ensures other in todo - {id} || other in s'.awake || HasEntry(s'.registry, other)
    {
      if other == id {
        if Registered(step.actions) != [] {
          assert Registered(step.actions)[0] in PollEvents(s, id);
          var added := EntriesFor(id, PollEvents(s, id));
          assert added[0] in s'.registry;
        }
      } else if HasEntry(s.registry, other) {
        var e :| e in s.registry && e.task == other;
        assert e in s'.registry;
      }
    }
  }

  lemma {:induction false} PollAllCovers(s: State, ids: seq<TaskId>, todo: set<TaskId>)
    requires Valid(s) && s.runQueue == [] && Covered(s, todo) && AllArm(s)
    requires NoDup(ids) && forall id :: id in ids ==> id in s.tasks
    ensures Covered(PollAll(s, ids), todo - set id | id in ids)
  {
    if ids != [] {
      var front, last := ids[..|ids| - 1], ids[|ids| - 1];
      assert ids == front + [last];
      PollAllCovers(s, front, todo);
      PollAllFacts(s, front);
      assert last in ids && last !in front;
      PollCovers(PollAll(s, front), last, todo - set id | id in front);
    }
  }

  lemma RunOnceCovers(s: State)
    requires Valid(s) && NoOrphans(s) && AllArm(s)
    ensures NoOrphans(RunOnce(s)) && AllArm(RunOnce(s))
  {
    RunListFacts(s);
    PollAllFacts(Drained(s), RunList(s));
    var todo := set id | id in RunList(s);
    assert Covered(Drained(s), todo);
    PollAllCovers(Drained(s), RunList(s), todo);
  }

  lemma WaitCovers(s: State, w: Wait)
    requires Valid(s) && NoOrphans(s)
    ensures NoOrphans(WaitForEvents(s, w))
  {
    if Blocks(s) && Fires(s, w) {
      AddAllFacts(s.runQueue, TasksOn(s.registry, WaitList(s)[FirstSignalled(WaitList(s), w.events)]));
    }
  }

  /** A task can then never be stuck: if nothing is runnable there is an event to wait for. */
  lemma NoOrphansNotStuck(s: State)
    requires Valid(s) && NoOrphans(s)
    ensures !Stuck(s)
  {
    RunListFacts(s);
    if s.tasks != map[] && RunList(s) == [] {
      var id :| id in s.tasks;
      assert id !in RunList(s);
      assert HasEntry(s.registry, id);
    }
  }

  lemma {:induction false} IterateCovers(s: State, waits: nat -> Wait, n: nat)
    requires Valid(s) && NoOrphans(s) && AllArm(s)
    ensures Valid(Iterate(s, waits, n)) && NoOrphans(Iterate(s, waits, n)) && AllArm(Iterate(s, waits, n))
  {
    IterateValid(s, waits, n);
    if n > 0 {
      IterateCovers(s, waits, n - 1);
      var before := Iterate(s, waits, n - 1);
      IterateValid(s, waits, n - 1);
      RunOncePollsExactlyOnce(before);
      RunOnceCovers(before);
      WaitCovers(RunOnce(before), waits(n - 1));
    }
  }

  /** Finite tasks that arm themselves at every pending poll: `run` never stalls, and it halts
      within 2N iterations if every wait it makes is answered. */
  lemma ArmedTasksHalt(s: State, waits: nat -> Wait, last: TaskId -> nat)
    requires Valid(s) && ReadyBy(s, last) && NoOrphans(s) && AllArm(s)
    requires forall i: nat :: AnsweredAt(s, waits, i)
    ensures forall i: nat :: !StuckAt(s, waits, i)
    ensures HaltedAt(s, waits, 2 * Remaining(s, last))
  {
    forall i: nat ensures !StuckAt(s, waits, i) {
      IterateCovers(s, waits, i);
      NoOrphansNotStuck(Iterate(s, waits, i));
    }
    RunHalts(s, waits, last);
  }

  // ---- Which tasks are left behind ----

  /** A live task that nothing is going to resume: it is not queued, woken or registered. */
  ghost predicate Orphan(s: State, id: TaskId) {
    id in s.tasks && id !in s.runQueue && id !in s.awake && !HasEntry(s.registry, id)
  }

  /** One of the next polls of the tasks `ids` wakes `id`. */
  ghost predicate SomeWakes(s: State, ids: seq<TaskId>, id: TaskId) {
    exists t :: t in ids && t in s.tasks && id in Woken(s.tasks[t].Next().actions)
  }

  lemma OwnEntryIff(s: State, id: TaskId)
    requires Valid(s) && id in s.tasks
    ensures HasEntry(PollTask(s, id).registry, id) <==>
            !s.tasks[id].Next().ready && Registered(s.tasks[id].Next().actions) != []
  {
    PollRegistry(s, id);
    WithoutTaskFacts(s.registry, id);
    AddAllFacts([], Registered(s.tasks[id].Next().actions));
    var events := PollEvents(s, id);
    assert Registered(s.tasks[id].Next().actions) != [] ==>
        Registered(s.tasks[id].Next().actions)[0] in events;
    if events != [] && !s.tasks[id].Next().ready {
      assert EntriesFor(id, events)[0] in PollTask(s, id).registry;
    }
  }

  lemma OtherEntryIff(s: State, polled: TaskId, id: TaskId)
    requires Valid(s) && polled in s.tasks && polled != id
    ensures HasEntry(PollTask(s, polled).registry, id) <==> HasEntry(s.registry, id)
  {
    PollRegistry(s, polled);
    WithoutTaskFacts(s.registry, polled);
    if HasEntry(s.registry, id) {
      var e :| e in s.registry && e.task == id;
      assert e in PollTask(s, polled).registry;
    }
  }

  lemma SomeWakesStep(s: State, front: seq<TaskId>, last: TaskId, id: TaskId)
    requires last in s.tasks
    ensures SomeWakes(s, front + [last], id) <==>
            SomeWakes(s, front, id) || id in Woken(s.tasks[last].Next().actions)
  {
    if t :| t in front && t in s.tasks && id in Woken(s.tasks[t].Next().actions) {
      assert t in front + [last];
    }
    assert last in front + [last];
  }

  /** What the polls of a round leave of one task. */
  lemma {:induction false} PollAllLeaves(s: State, ids: seq<TaskId>, id: TaskId)
    requires Valid(s) && s.runQueue == [] && NoDup(ids) && forall t :: t in ids ==> t in s.tasks
    ensures id in PollAll(s, ids).awake <==> id in s.awake || SomeWakes(s, ids, id)
    ensures HasEntry(PollAll(s, ids).registry, id) <==>
            if id in ids then !s.tasks[id].Next().ready && Registered(s.tasks[id].Next().actions) != []
            else HasEntry(s.registry, id)
  {
    if ids != [] {
      var front, last := ids[..|ids| - 1], ids[|ids| - 1];
      assert ids == front + [last];
      PollAllLeaves(s, front, id);
      PollAllFacts(s, front);
      assert last in ids && last !in front;
      var before := PollAll(s, front);
      assert before.tasks[last] == s.tasks[last];
      if last == id {
        OwnEntryIff(before, id);
      } else {
        OtherEntryIff(before, last, id);
      }
      AddAllFacts(before.awake, Woken(s.tasks[last].Next().actions));
      SomeWakesStep(s, front, last, id);
    }
  }

  /** Exactly which tasks a round leaves behind, whatever the tasks do: those still live that no poll
      of it woke and that registered nothing in their own poll or, if not polled, before. */
  lemma OrphanAfterRoundIff(s: State, id: TaskId)
    requires Valid(s) && id in s.tasks && id in RunOnce(s).tasks
    ensures Orphan(RunOnce(s), id) <==>
            && !SomeWakes(s, RunList(s), id)
            && (if id in RunList(s) then Registered(s.tasks[id].Next().actions) == []
                else !HasEntry(s.registry, id))
  {
    RunListFacts(s);
    PollAllFacts(Drained(s), RunList(s));
    PollAllLeaves(Drained(s), RunList(s), id);
    assert SomeWakes(Drained(s), RunList(s), id) <==> SomeWakes(s, RunList(s), id);
  }

  /** No other live task ever wakes `id`. */
  ghost predicate NobodyWakes(s: State, id: TaskId) {
    forall t, k: nat :: t in s.tasks && t != id ==> id !in Woken(s.tasks[t].behaviour(k).actions)
  }

  lemma OrphanStays(s: State, w: Wait, id: TaskId)
    requires Valid(s) && Orphan(s, id) && NobodyWakes(s, id)
    ensures Orphan(Iteration(s, w), id) && NobodyWakes(Iteration(s, w), id)
    ensures Iteration(s, w).tasks[id] == s.tasks[id]
  {
    RunListFacts(s);
    PollAllFacts(Drained(s), RunList(s));
    assert id !in RunList(s);
    assert !SomeWakes(s, RunList(s), id);
    OrphanAfterRoundIff(s, id);
    var polled := RunOnce(s);
    assert NobodyWakes(polled, id);
    if Blocks(polled) && Fires(polled, w) {
      var event := WaitList(polled)[FirstSignalled(WaitList(polled), w.events)];
      TasksOnFacts(polled.registry, event);
      AddAllFacts(polled.runQueue, TasksOn(polled.registry, event));
    }
  }

  /** A task left behind that no other task wakes is never polled again, and `run` never halts. */
  lemma {:induction false} OrphanForever(s: State, waits: nat -> Wait, id: TaskId, n: nat)
    requires Valid(s) && Orphan(s, id) && NobodyWakes(s, id)
    ensures var s' := Iterate(s, waits, n);
            Valid(s') && Orphan(s', id) && NobodyWakes(s', id) && s'.tasks[id] == s.tasks[id]
  {
    IterateValid(s, waits, n);
    if n > 0 {
      OrphanForever(s, waits, id, n - 1);
      OrphanStays(Iterate(s, waits, n - 1), waits(n - 1), id);
    }
  }

  // ---- The same over traces of calls ----

  ghost predicate Registers(behaviour: Behaviour) {
    forall k: nat :: !behaviour(k).ready ==> Registered(behaviour(k).actions) != []
  }

  /** If every spawned future registers an event at each pending poll, no reachable state has an
      orphan, and `wait_for_events` never finds its list of events empty unless a task is queued. */
  lemma {:induction false} ReachableNoOrphans(ops: seq<Op>)
    requires forall op :: op in ops && op.DoSpawn? ==> Registers(op.behaviour)
    ensures var s := Exec(INITIAL, ops);
            NoOrphans(s) && AllArm(s) && (Stalls(s) ==> s.runQueue != [])
  {
    var s := Exec(INITIAL, ops);
    ReachableValid(ops);
    if ops != [] {
      var front, op := ops[..|ops| - 1], ops[|ops| - 1];
      assert ops == front + [op];
      ReachableNoOrphans(front);
      ReachableValid(front);
      var before := Exec(INITIAL, front);
      assert op in ops;
      match op
      case DoSpawn(b) =>
      case DoWake(id) =>
      case DoRunOnce => RunOnceCovers(before);
      case DoWait(w) => WaitCovers(before, w);
    }
    if Stalls(s) {
      var id :| id in s.tasks;
      assert id in s.runQueue;
    }
  }
}
