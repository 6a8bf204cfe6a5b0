/** The sleep futures, and why tasks that await them are never orphaned. */
module SleepFutures {
  import opened Prelude
  import opened Scheduler
  import opened ExecutorInvariant
  import opened ExecutorTermination
  import opened ExecutorObject

  /** `NetworkSleepFuture`, `SlintSleepFuture` and `TimerSleepFuture` with their durations. */
  datatype Sleep = Network | Slint(nanos: nat) | Timer(nanos: nat)

  /** The events the firmware can supply at a first poll; `timer` is `None` if it cannot create one. */
  datatype Sources = Sources(packet: Option<Event>, key: Option<Event>, mice: seq<Option<Event>>, timer: Option<Event>)

  const U64 := 0x1_0000_0000_0000_0000

  /** `(duration.as_nanos() / 100) as u64`, the cast dropping the high bits. */
  function Ticks(nanos: nat): nat {
    nanos / 100 % U64
  }

  /** Is a timer created at the first poll? */
  predicate Counts(sleep: Sleep) {
    sleep.Network? || Ticks(sleep.nanos) > 0
  }

  /** What a first poll registers, in order. */
  function FirstPollEvents(sleep: Sleep, sources: Sources): seq<Event> {
    match sleep
    case Network => OneOf(sources.packet) + OneOf(sources.timer)
    case Slint(nanos) =>
      OneOf(sources.key) + Somes(sources.mice) + if Counts(sleep) then OneOf(sources.timer) else []
    case Timer(nanos) => if Counts(sleep) then OneOf(sources.timer) else []
  }

  class SleepFuture {
    const sleep: Sleep
    var timerEvent: Option<Event>
    var isStarted: bool

    constructor (sleep: Sleep)
      ensures this.sleep == sleep && timerEvent == None && !isStarted
    {
      this.sleep := sleep;
      timerEvent, isStarted := None, false;
    }

    method RegisterIfSome(event: Option<Event>, executor: Executor)
      requires executor.currentTask.Some?
      modifies executor`globalRegistry
      ensures executor.globalRegistry ==
              AddAll(old(executor.globalRegistry), EntriesFor(executor.currentTask.value, OneOf(event)))
    {
      if event.Some? {
        executor.RegisterEventForCurrentTask(event.value);
        var id := executor.currentTask.value;
        assert EntriesFor(id, [event.value]) == [] + [Entry(event.value, id)];
        AddAllStep(old(executor.globalRegistry), [], Entry(event.value, id));
      }
    }

    method RegisterMice(mice: seq<Option<Event>>, executor: Executor)
      requires executor.currentTask.Some?
      modifies executor`globalRegistry
      ensures executor.globalRegistry ==
              AddAll(old(executor.globalRegistry), EntriesFor(executor.currentTask.value, Somes(mice)))
    {
      var id := executor.currentTask.value;
      for i := 0 to |mice|
        invariant executor.globalRegistry ==
                  AddAll(old(executor.globalRegistry), EntriesFor(id, Somes(mice[..i])))
      {
        assert mice[..i + 1][..i] == mice[..i];
        AddEntriesConcat(old(executor.globalRegistry), id, Somes(mice[..i]), OneOf(mice[i]));
        RegisterIfSome(mice[i], executor);
      }
      assert mice[..|mice|] == mice;
    }

    /** The first poll starts the timer, registers its events for the current task and is pending;
        the second is ready and registers nothing. */
    method Poll(executor: Executor, sources: Sources) returns (ready: bool)
      requires executor.currentTask.Some?
      modifies this, executor`globalRegistry
      ensures isStarted
      ensures ready == old(isStarted)
      ensures ready ==> executor.globalRegistry == old(executor.globalRegistry) && timerEvent == old(timerEvent)
      ensures !ready ==>
                timerEvent == if Counts(sleep) && sources.timer.Some? then sources.timer else old(timerEvent)
      ensures !ready ==>
                executor.globalRegistry ==
                AddAll(old(executor.globalRegistry),
                       EntriesFor(executor.currentTask.value, FirstPollEvents(sleep, sources)))
    {
      if isStarted {
        return true;
      }
      isStarted := true;
      ghost var id, before := executor.currentTask.value, executor.globalRegistry;
      ghost var events: seq<Event> := [];
      var timed := true;
      match sleep {
        case Network =>
          RegisterIfSome(sources.packet, executor);
          events := OneOf(sources.packet);
        case Slint(nanos) =>
          RegisterIfSome(sources.key, executor);
          RegisterMice(sources.mice, executor);
          AddEntriesConcat(before, id, OneOf(sources.key), Somes(sources.mice));
          events := OneOf(sources.key) + Somes(sources.mice);
          timed := Ticks(nanos) > 0;
        case Timer(nanos) =>
          timed := Ticks(nanos) > 0;
      }
      if timed {
        if sources.timer.Some? {
          timerEvent := sources.timer;
        }
        RegisterIfSome(sources.timer, executor);
        AddEntriesConcat(before, id, events, OneOf(sources.timer));
      }
      assert events + [] == events;
      return false;
    }
  }

  lemma {:induction false} AddEntriesConcat(entries: seq<Entry>, id: TaskId, a: seq<Event>, b: seq<Event>)
    ensures AddAll(AddAll(entries, EntriesFor(id, a)), EntriesFor(id, b)) == AddAll(entries, EntriesFor(id, a + b))
  {
    if b == [] {
      assert a + b == a;
    } else {
      var front, last := b[..|b| - 1], b[|b| - 1];
      AddEntriesConcat(entries, id, a, front);
      assert EntriesFor(id, b) == EntriesFor(id, front) + [Entry(last, id)];
      assert EntriesFor(id, a + b) == EntriesFor(id, a + front) + [Entry(last, id)];
      AddAllStep(AddAll(entries, EntriesFor(id, a)), EntriesFor(id, front), Entry(last, id));
      AddAllStep(entries, EntriesFor(id, a + front), Entry(last, id));
    }
  }

  // ---- Tasks that await sleeps ----

  /** An async block: before its (k+1)-th await it performs `work(k)`, then it awaits `sleeps(k)`;
      it returns after `work(n)` if `awaits == Some(n)`, and otherwise runs for ever. */
  datatype Plan = Plan(work: nat -> seq<Action>, sleeps: nat -> Sleep, sources: nat -> Sources, awaits: Option<nat>)

  function Registrations(events: seq<Event>): seq<Action> {
    seq(|events|, i requires 0 <= i < |events| => Register(events[i]))
  }

  /** Does poll number k reach another await? */
  predicate Awaits(plan: Plan, k: nat) {
    plan.awaits.None? || k < plan.awaits.value
  }

  function SleepEvents(plan: Plan, k: nat): seq<Event> {
    FirstPollEvents(plan.sleeps(k), plan.sources(k))
  }

  /** Poll number k finishes the await before, works, and makes the first poll of the next sleep. */
  function PlanStep(plan: Plan, k: nat): PollStep {
    if Awaits(plan, k) then PollStep(plan.work(k) + Registrations(SleepEvents(plan, k)), false)
    else PollStep(plan.work(k), true)
  }

  function PlanBehaviour(plan: Plan): Behaviour {
    (k: nat) => PlanStep(plan, k)
  }

  /** Each await is reached with an event registered, by the sleep itself or by the work before. */
  ghost predicate AlwaysRegistered(plan: Plan) {
    forall k: nat :: Awaits(plan, k) ==> Registered(plan.work(k)) + SleepEvents(plan, k) != []
  }

  /** What a sleep of each kind can register: a network sleep the packet event and then its timer, a
      user-interface sleep the key event, the mice in order and then its timer, the others their timer
      only; a timer counts only if its duration, cut to 64 bits, has a tick of 100 ns. */
  function Offers(sleep: Sleep, sources: Sources): seq<Option<Event>> {
    match sleep
    case Network => [sources.packet, sources.timer]
    case Slint(nanos) =>
      [sources.key] + sources.mice + if nanos / 100 % 0x1_0000_0000_0000_0000 > 0 then [sources.timer] else []
    case Timer(nanos) => if nanos / 100 % 0x1_0000_0000_0000_0000 > 0 then [sources.timer] else []
  }

  /** A first poll registers everything that its sleep can register and the firmware supplies, in this
      order, and nothing else. */
  lemma FirstPollMeaning(sleep: Sleep, sources: Sources) returns (places: seq<nat>)
    ensures ListsAll(FirstPollEvents(sleep, sources), Offers(sleep, sources), places)
  {
    var offers := Offers(sleep, sources);
    places := SomesLists(offers);
    SomesOne(sources.timer);
    match sleep
    case Network =>
      SomesOne(sources.packet);
      SomesConcat([sources.packet], [sources.timer]);
      assert offers == [sources.packet] + [sources.timer];
    case Slint(nanos) =>
      SomesOne(sources.key);
      SomesConcat([sources.key], sources.mice);
      SomesConcat([sources.key] + sources.mice, if Counts(sleep) then [sources.timer] else []);
    case Timer(nanos) =>
  }

  /** For instance: with a key event, one mouse and a timer, all three are registered. */
  lemma FirstPollExample()
    ensures FirstPollEvents(Slint(50000000), Sources(None, Some(1), [Some(2)], Some(3))) == [1, 2, 3]
  {
    SomesOne(Some(2));
    assert Ticks(50000000) == 500000;
  }

  /** When the first poll of a sleep registers nothing: if the firmware has none of its events to
      supply and, where the sleep counts ticks, no timer or no tick. */
  lemma NothingRegisteredIff(sleep: Sleep, sources: Sources)
    ensures FirstPollEvents(sleep, sources) == [] <==>
            && (sleep.Network? ==> sources.packet.None?)
            && (sleep.Slint? ==> sources.key.None? && forall i :: 0 <= i < |sources.mice| ==> sources.mice[i].None?)
            && (sources.timer.None? || (!sleep.Network? && Ticks(sleep.nanos) == 0))
  {
    SomesNone(sources.mice);
  }

  lemma {:induction false} RegisteredAppend(actions: seq<Action>, events: seq<Event>)
    ensures Registered(actions + Registrations(events)) == Registered(actions) + events
    ensures Woken(actions + Registrations(events)) == Woken(actions)
  {
    if events == [] {
      assert actions + Registrations(events) == actions;
    } else {
      var front := events[..|events| - 1];
      assert (actions + Registrations(events))[..|actions| + |events| - 1] == actions + Registrations(front);
      RegisteredAppend(actions, front);
    }
  }

  lemma StepActions(plan: Plan, k: nat)
    requires Awaits(plan, k)
    ensures var step := PlanStep(plan, k);
            && Registered(step.actions) == Registered(plan.work(k)) + SleepEvents(plan, k)
            && Woken(step.actions) == Woken(plan.work(k))
  {
    RegisteredAppend(plan.work(k), SleepEvents(plan, k));
  }

  /** An async block registers an event at each pending poll if and only if each of its awaits is
      reached with one. */
  lemma PlanRegistersIff(plan: Plan)
    ensures Registers(PlanBehaviour(plan)) <==> AlwaysRegistered(plan)
  {
    var behaviour := PlanBehaviour(plan);
    forall k: nat
      ensures !behaviour(k).ready <==> Awaits(plan, k)
      ensures Awaits(plan, k) ==>
                Registered(behaviour(k).actions) == Registered(plan.work(k)) + SleepEvents(plan, k)
    {
      if Awaits(plan, k) {
        StepActions(plan, k);
      }
    }
  }

  /** No orphaned task: in every state reached by an executor all of whose tasks reach each of their
      awaits with an event registered, each live task is queued, woken or registered, and the stall
      on an empty list of events is never entered with nothing queued. */
  lemma SleepTasksNeverOrphaned(ops: seq<Op>)
    requires forall op :: op in ops && op.DoSpawn? ==>
               exists plan :: AlwaysRegistered(plan) && op.behaviour == PlanBehaviour(plan)
    ensures var s := Exec(INITIAL, ops);
            NoOrphans(s) && !Stuck(s) && (Stalls(s) ==> s.runQueue != [])
  {
    forall op | op in ops && op.DoSpawn? ensures Registers(op.behaviour) {
      var plan :| AlwaysRegistered(plan) && op.behaviour == PlanBehaviour(plan);
      PlanRegistersIff(plan);
    }
    ReachableNoOrphans(ops);
    ReachableValid(ops);
    NoOrphansNotStuck(Exec(INITIAL, ops));
  }

  /** Short of wrapping the 64-bit tick count, a duration has ticks exactly from 100 ns on. */
  lemma TicksPositive(nanos: nat)
    requires nanos < 100 * U64
    ensures Ticks(nanos) > 0 <==> nanos >= 100
  {
    assert 0 <= nanos / 100 < U64;
  }

  // ---- Tasks that are left behind ----

  /** Poll number k of task `id` awaits without having registered an event or woken itself. */
  ghost predicate Idle(plan: Plan, id: TaskId, k: nat) {
    Awaits(plan, k) && Registered(plan.work(k)) + SleepEvents(plan, k) == [] && id !in Woken(plan.work(k))
  }

  /** With any number of tasks that wake no other task: after a round, a task that it polled and that
      is still live is neither queued, woken nor registered if and only if that poll was idle. */
  lemma PolledTaskOrphanedIff(s: State, id: TaskId, plan: Plan, k: nat)
    requires Valid(s) && id in s.tasks && id in RunList(s) && id in RunOnce(s).tasks
    requires s.tasks[id] == Task(PlanBehaviour(plan), k)
    requires NobodyWakes(s, id)
    ensures Orphan(RunOnce(s), id) <==> Idle(plan, id, k)
  {
    RunListFacts(s);
    RunOncePollsExactlyOnce(s);
    assert s.tasks[id].Next() == PlanStep(plan, k);
    StepActions(plan, k);
    OrphanAfterRoundIff(s, id);
    SomeWakesItself(s, RunList(s), id);
  }

  lemma SomeWakesItself(s: State, ids: seq<TaskId>, id: TaskId)
    requires id in ids && id in s.tasks && NobodyWakes(s, id)
    ensures SomeWakes(s, ids, id) <==> id in Woken(s.tasks[id].Next().actions)
  {
    forall t | t in s.tasks && t != id ensures id !in Woken(s.tasks[t].Next().actions) {
      assert s.tasks[t].Next() == s.tasks[t].behaviour(s.tasks[t].polls);
    }
  }

  // ---- A lone task ----

  /** The only task is live after k polls. */
  ghost predicate Alone(s: State, plan: Plan, k: nat) {
    Valid(s) && s.tasks == map[0 := Task(PlanBehaviour(plan), k)]
  }

  /** The only task is about to be polled for the (k+1)-th time. */
  ghost predicate Lone(s: State, plan: Plan, k: nat) {
    Alone(s, plan, k) && RunList(s) == [0]
  }

  lemma LoneRunOnce(s: State, plan: Plan, k: nat)
    requires Lone(s, plan, k)
    ensures RunOnce(s) == PollTask(Drained(s), 0)
    ensures Drained(s).tasks[0].Next() == PlanStep(plan, k)
    ensures Valid(Drained(s)) && WithoutTask(s.registry, 0) == []
  {
    assert [0][..|[0]| - 1] == [];
    assert PollAll(Drained(s), [0]) == PollTask(PollAll(Drained(s), []), 0);
    SingleOwner(s.registry, 0, 0);
  }

  lemma LonePoll(s: State, plan: Plan, k: nat)
    requires Lone(s, plan, k)
    ensures var s' := RunOnce(s);
            && Valid(s') && s'.runQueue == []
            && (!Awaits(plan, k) ==> s'.tasks == map[])
            && (Awaits(plan, k) ==>
                  && s'.tasks == map[0 := Task(PlanBehaviour(plan), k + 1)]
                  && s'.awake == AddAll([], Woken(plan.work(k)))
                  && s'.registry == EntriesFor(0, AddAll([], Registered(plan.work(k)) + SleepEvents(plan, k))))
  {
    var start := Drained(s);
    LoneRunOnce(s, plan, k);
    PollTaskValid(start, 0);
    PollRegistry(start, 0);
    if Awaits(plan, k) {
      StepActions(plan, k);
      var entries := EntriesFor(0, PollEvents(start, 0));
      assert [] + entries == entries;
    }
  }

  lemma OnlyZero(ids: seq<TaskId>)
    requires forall i :: 0 <= i < |ids| ==> ids[i] == 0
    requires |ids| > 1 ==> ids[0] != ids[1]
    ensures ids == if 0 in ids then [0] else []
  {
  }

  lemma AloneRunList(s: State, plan: Plan, k: nat)
    requires Alone(s, plan, k)
    ensures RunList(s) == if 0 in s.runQueue || 0 in s.awake then [0] else []
  {
    var ids := RunList(s);
    RunListFacts(s);
    assert forall i :: 0 <= i < |ids| ==> ids[i] in ids;
    OnlyZero(ids);
  }

  lemma LoneRunList(s: State, plan: Plan, k: nat)
    requires Lone(s, plan, k) && Awaits(plan, k)
    ensures Alone(RunOnce(s), plan, k + 1)
    ensures RunList(RunOnce(s)) == if 0 in Woken(plan.work(k)) then [0] else []
  {
    LonePoll(s, plan, k);
    AloneRunList(RunOnce(s), plan, k + 1);
    AddAllFacts([], Woken(plan.work(k)));
  }

  lemma RegistersSome(events: seq<Event>)
    ensures EntriesFor(0, AddAll([], events)) == [] <==> events == []
  {
    AddAllFacts([], events);
    assert events != [] ==> events[0] in AddAll([], events);
  }

  /** After a poll, a lone task is stuck if and only if that poll leaves nothing that could resume
      it. */
  lemma LonePollStuckIff(s: State, plan: Plan, k: nat)
    requires Lone(s, plan, k)
    ensures Stuck(RunOnce(s)) <==> Idle(plan, 0, k)
  {
    LonePoll(s, plan, k);
    if Awaits(plan, k) {
      assert 0 in RunOnce(s).tasks;
      LoneRunList(s, plan, k);
      RegistersSome(Registered(plan.work(k)) + SleepEvents(plan, k));
    }
  }

  ghost predicate LoneAt(s: State, waits: nat -> Wait, plan: Plan, i: nat, k: nat) {
    Lone(Iterate(s, waits, i), plan, k)
  }

  lemma LoneWakesItself(s: State, w: Wait, plan: Plan, k: nat)
    requires Lone(s, plan, k) && Awaits(plan, k) && 0 in Woken(plan.work(k))
    ensures Lone(Iteration(s, w), plan, k + 1)
  {
    LonePoll(s, plan, k);
    LoneRunList(s, plan, k);
  }

  lemma LoneResumes(s: State, w: Wait, plan: Plan, k: nat)
    requires Alone(s, plan, k) && RunList(s) == [] && !Stuck(s) && Answered(s, w)
    ensures Lone(Iteration(s, w), plan, k)
  {
    assert 0 in s.tasks;
    WaitMakesRunnable(s, w);
    IterationValid(s, w);
    AloneRunList(Iteration(s, w), plan, k);
  }

  lemma LonePolled(s: State, w: Wait, plan: Plan, k: nat)
    requires Lone(s, plan, k) && Awaits(plan, k) && !Idle(plan, 0, k) && 0 !in Woken(plan.work(k))
    ensures var s' := Iteration(s, w);
            Alone(s', plan, k + 1) && RunList(s') == [] && !Stuck(s')
  {
    LoneRunList(s, plan, k);
    LonePollStuckIff(s, plan, k);
    assert 0 in s.tasks;
  }

  /** Poll number k is pending and leaves a way to be resumed. */
  ghost predicate Resumable(plan: Plan, k: nat) {
    Awaits(plan, k) && !Idle(plan, 0, k)
  }

  ghost predicate AllAnswered(s: State, waits: nat -> Wait) {
    forall n: nat :: AnsweredAt(s, waits, n)
  }

  /** Then the task is polled again within two iterations. */
  lemma LoneAdvances(s: State, waits: nat -> Wait, plan: Plan, i: nat, k: nat) returns (j: nat)
    requires AllAnswered(s, waits) && LoneAt(s, waits, plan, i, k) && Resumable(plan, k)
    ensures LoneAt(s, waits, plan, j, k + 1)
  {
    var now := Iterate(s, waits, i);
    var next := Iterate(s, waits, i + 1);
    assert next == Iteration(now, waits(i));
    if 0 in Woken(plan.work(k)) {
      LoneWakesItself(now, waits(i), plan, k);
      j := i + 1;
    } else {
      LonePolled(now, waits(i), plan, k);
      assert AnsweredAt(s, waits, i + 1);
      LoneResumes(next, waits(i + 1), plan, k + 1);
      assert Iterate(s, waits, i + 2) == Iteration(next, waits(i + 1));
      j := i + 2;
    }
  }

  lemma SpawnedLone(plan: Plan)
    ensures Lone(Spawn(INITIAL, PlanBehaviour(plan)), plan, 0)
  {
    var s := Spawn(INITIAL, PlanBehaviour(plan));
    assert s.tasks == map[0 := Task(PlanBehaviour(plan), 0)];
    assert RunList(s) == [0];
  }

  ghost predicate Reaches(s: State, waits: nat -> Wait, plan: Plan, k: nat) {
    exists i: nat :: LoneAt(s, waits, plan, i, k)
  }

  lemma ReachesNext(s: State, waits: nat -> Wait, plan: Plan, k: nat)
    requires AllAnswered(s, waits) && Reaches(s, waits, plan, k) && Resumable(plan, k)
    ensures Reaches(s, waits, plan, k + 1)
  {
    var i: nat :| LoneAt(s, waits, plan, i, k);
    var j := LoneAdvances(s, waits, plan, i, k);
  }

  ghost predicate ResumableBefore(plan: Plan, k: nat) {
    forall m: nat :: m < k ==> Resumable(plan, m)
  }

  /** A lone task comes to its (k+1)-th poll if it could be resumed after each one before. */
  lemma {:induction false} LoneReaches(waits: nat -> Wait, plan: Plan, k: nat)
    requires AllAnswered(Spawn(INITIAL, PlanBehaviour(plan)), waits) && ResumableBefore(plan, k)
    ensures Reaches(Spawn(INITIAL, PlanBehaviour(plan)), waits, plan, k)
  {
    var s := Spawn(INITIAL, PlanBehaviour(plan));
    if k == 0 {
      SpawnedLone(plan);
      assert LoneAt(s, waits, plan, 0, 0);
    } else {
      LoneReaches(waits, plan, k - 1);
      ReachesNext(s, waits, plan, k - 1);
    }
  }

  lemma IdleGetsStuck(s: State, waits: nat -> Wait, plan: Plan, k: nat)
    requires Reaches(s, waits, plan, k) && Idle(plan, 0, k)
    ensures exists i: nat :: StuckAt(s, waits, i)
  {
    var i: nat :| LoneAt(s, waits, plan, i, k);
    LonePollStuckIff(Iterate(s, waits, i), plan, k);
    assert 0 in Iterate(s, waits, i).tasks;
    assert StuckAt(s, waits, i + 1);
  }

  lemma {:induction false} FirstIdle(plan: Plan, k: nat) returns (m: nat)
    requires Idle(plan, 0, k)
    ensures m <= k && Idle(plan, 0, m)
    ensures forall l: nat :: l < m ==> !Idle(plan, 0, l)
  {
    if l: nat :| l < k && Idle(plan, 0, l) {
      m := FirstIdle(plan, l);
    } else {
      m := k;
    }
  }

  lemma NeverIdleNeverStuck(waits: nat -> Wait, plan: Plan, i: nat)
    requires forall k: nat :: !Idle(plan, 0, k)
    ensures !StuckAt(Spawn(INITIAL, PlanBehaviour(plan)), waits, i)
  {
    var s := Spawn(INITIAL, PlanBehaviour(plan));
    SpawnedLone(plan);
    assert 0 in s.runQueue;
    forall k: nat | Awaits(plan, k)
      ensures Registered(PlanStep(plan, k).actions) != [] || 0 in Woken(PlanStep(plan, k).actions)
    {
      StepActions(plan, k);
      assert !Idle(plan, 0, k);
    }
    IterateCovers(s, waits, i);
    NoOrphansNotStuck(Iterate(s, waits, i));
  }

  /** The condition is exact, at every await. A lone task whose waits are answered gets stuck, and
      then stays so for ever, if and only if one of its awaits is reached with no event registered,
      by the sleep or by the work before, and without having woken itself. */
  lemma LoneTaskStuckIff(waits: nat -> Wait, plan: Plan)
    requires AllAnswered(Spawn(INITIAL, PlanBehaviour(plan)), waits)
    ensures (exists i: nat :: StuckAt(Spawn(INITIAL, PlanBehaviour(plan)), waits, i)) <==>
            (exists k: nat :: Idle(plan, 0, k))
  {
    var s := Spawn(INITIAL, PlanBehaviour(plan));
    if k: nat :| Idle(plan, 0, k) {
      var m := FirstIdle(plan, k);
      LoneReaches(waits, plan, m);
      IdleGetsStuck(s, waits, plan, m);
    } else {
      forall i: nat ensures !StuckAt(s, waits, i) {
        NeverIdleNeverStuck(waits, plan, i);
      }
    }
  }

  /** The inputs that fail: a task that only awaits timers of 50 ns, less than a tick, on a machine
      that does create timers. */
  function TinyTimers(): Plan {
    Plan((k: nat) => [], (k: nat) => Timer(50), (k: nat) => Sources(None, None, [], Some(7)), None)
  }

  /** Whatever the firmware answers, it is stuck from its first poll on. */
  lemma TinyTimersStuck(waits: nat -> Wait, n: nat)
    requires n > 0
    ensures StuckAt(Spawn(INITIAL, PlanBehaviour(TinyTimers())), waits, n)
    ensures !HaltedAt(Spawn(INITIAL, PlanBehaviour(TinyTimers())), waits, n)
  {
    var plan := TinyTimers();
    var s := Spawn(INITIAL, PlanBehaviour(plan));
    SpawnedLone(plan);
    assert Idle(plan, 0, 0);
    LonePollStuckIff(s, plan, 0);
    assert 0 in s.tasks;
    assert Iterate(s, waits, 1) == Iteration(Iterate(s, waits, 0), waits(0)) == RunOnce(s);
    assert StuckAt(s, waits, 1);
    StuckForever(s, waits, 1, n);
  }
}
