/** Bounded bypass: no task waiting on a signalled event is overtaken for ever. */
module ExecutorFairness {
  import opened Prelude
  import opened Scheduler
  import opened ExecutorInvariant

  /** The entries that precede `target`. */
  ghost function Preceding(entries: seq<Entry>, target: Entry): seq<Entry> {
    if entries == [] || entries[0] == target then []
    else [entries[0]] + Preceding(entries[1..], target)
  }

  ghost function Owners(entries: seq<Entry>): set<TaskId> {
    set e | e in entries :: e.task
  }

  /** The other tasks that have an entry ahead of `target`. */
  ghost function Ahead(entries: seq<Entry>, target: Entry): set<TaskId> {
    Owners(Preceding(entries, target)) - {target.task}
  }

  ghost function Ids(ids: seq<TaskId>): set<TaskId> {
    set id | id in ids
  }

  lemma {:induction false} PrecedingSplit(entries: seq<Entry>, target: Entry) returns (rest: seq<Entry>)
    requires target in entries
    ensures entries == Preceding(entries, target) + [target] + rest
    ensures target !in Preceding(entries, target)
  {
    if entries[0] == target {
      rest := entries[1..];
    } else {
      rest := PrecedingSplit(entries[1..], target);
      assert entries == [entries[0]] + entries[1..];
    }
  }

  lemma {:induction false} PrecedingUnique(before: seq<Entry>, target: Entry, rest: seq<Entry>)
    requires target !in before
    ensures Preceding(before + [target] + rest, target) == before
  {
    if before == [] {
      assert (before + [target] + rest)[0] == target;
    } else {
      assert (before + [target] + rest)[1..] == before[1..] + [target] + rest;
      PrecedingUnique(before[1..], target, rest);
    }
  }

  lemma OwnersWithout(entries: seq<Entry>, id: TaskId)
    ensures Owners(WithoutTask(entries, id)) == Owners(entries) - {id}
  {
    WithoutTaskFacts(entries, id);
    forall other | other in Owners(entries) - {id} ensures other in Owners(WithoutTask(entries, id)) {
      var e :| e in entries && e.task == other;
      assert e in WithoutTask(entries, id);
    }
  }

  lemma MoveSplit(before: seq<Entry>, target: Entry, rest: seq<Entry>, id: TaskId, added: seq<Entry>)
    requires id != target.task
    ensures WithoutTask(before + [target] + rest, id) + added ==
            WithoutTask(before, id) + [target] + (WithoutTask(rest, id) + added)
  {
    var kept, keptRest := WithoutTask(before, id), WithoutTask(rest, id);
    assert WithoutTask(before + [target] + rest, id) == kept + [target] + keptRest by {
      WithoutTaskConcat(before + [target], rest, id);
      WithoutTaskConcat(before, [target], id);
      SingleOwner([target], target.task, id);
    }
    Associate(kept + [target], keptRest, added);
  }

  /** Removing the entries of one task and appending others: what is then ahead of the target. */
  lemma AheadAfterMove(entries: seq<Entry>, id: TaskId, added: seq<Entry>, target: Entry)
    requires target in entries && id != target.task
    ensures target in WithoutTask(entries, id) + added
    ensures Ahead(WithoutTask(entries, id) + added, target) == Ahead(entries, target) - {id}
  {
    var rest := PrecedingSplit(entries, target);
    var before := Preceding(entries, target);
    MoveSplit(before, target, rest, id, added);
    assert target !in WithoutTask(before, id) by { WithoutTaskFacts(before, id); }
    PrecedingUnique(WithoutTask(before, id), target, WithoutTask(rest, id) + added);
    OwnersWithout(before, id);
  }

  /** Polling another task keeps the target's entry and takes that task, and no other, out of the
      way: its entries are dropped, and any new ones go behind. */
  lemma PollOther(s: State, id: TaskId, target: Entry)
    requires Valid(s) && target in s.registry && id in s.tasks && id != target.task
    ensures var s' := PollTask(s, id);
            target in s'.registry && Ahead(s'.registry, target) == Ahead(s.registry, target) - {id}
  {
    PollRegistry(s, id);
    var added := if s.tasks[id].Next().ready then [] else EntriesFor(id, PollEvents(s, id));
    AheadAfterMove(s.registry, id, added, target);
  }

  lemma {:induction false} PollOthers(s: State, ids: seq<TaskId>, target: Entry)
    requires Valid(s) && s.runQueue == [] && target in s.registry
    requires NoDup(ids) && target.task !in ids
    requires forall id :: id in ids ==> id in s.tasks
    ensures var s' := PollAll(s, ids);
            target in s'.registry && Ahead(s'.registry, target) == Ahead(s.registry, target) - Ids(ids)
  {
    if ids == [] {
      assert Ids(ids) == {};
    } else {
      var front, last := ids[..|ids| - 1], ids[|ids| - 1];
      assert ids == front + [last];
      PollOthers(s, front, target);
      PollAllFacts(s, front);
      assert last in ids && last !in front;
      PollOther(PollAll(s, front), last, target);
      assert Ids(ids) == Ids(front) + {last};
    }
  }

  /** A wait that fires while the target's event is signalled queues the target, or a task that
      is ahead of it. */
  lemma WaitPicksAhead(s: State, w: Wait, target: Entry)
    requires Valid(s) && target in s.registry
    requires Blocks(s) && Fires(s, w) && target.event in w.events
    ensures var queued := WaitForEvents(s, w).runQueue;
            target.task in queued || exists id :: id in queued && id in Ahead(s.registry, target)
  {
    var index := FirstSignalled(WaitList(s), w.events);
    var event := WaitList(s)[index];
    TasksOnFacts(s.registry, event);
    AddAllFacts(s.runQueue, TasksOn(s.registry, event));
    if event == target.event {
      assert Entry(event, target.task) in s.registry;
    } else {
      var e := PickedEntryPrecedes(s.registry, target, event, w.events, index);
      assert Entry(event, e.task) in s.registry;
      assert e.task in Owners(Preceding(s.registry, target));
    }
  }

  /** If another event is reported although the target's is signalled, then it has an entry that
      precedes the target's. */
  lemma PickedEntryPrecedes(entries: seq<Entry>, target: Entry, event: Event, signalled: set<Event>, index: nat)
    returns (e: Entry)
    requires target in entries && target.event in signalled && event != target.event
    requires var list := AddAll([], EventsOf(entries));
             && index < |list| && list[index] == event
             && forall i :: 0 <= i < index ==> list[i] !in signalled
    ensures e in Preceding(entries, target) && e in entries && e.event == event
  {
    var rest := PrecedingSplit(entries, target);
    var before := Preceding(entries, target);
    var events, list := EventsOf(entries), AddAll([], EventsOf(entries));
    AddAllOnceInOrder(events);
    var position := |before|;
    assert events[position] == target.event;
    assert event in events && target.event in events;
    assert FirstIndex(events, target.event) <= position;
    var j :| 0 <= j < |list| && list[j] == target.event;
    assert index < j;
    assert FirstIndex(events, list[index]) < FirstIndex(events, list[j]);
    var i := FirstIndex(events, event);
    assert i < position;
    e := entries[i];
    assert before[i] == e;
  }

  /** Is iteration `k` a wait that the firmware answers with an awaited event? */
  ghost predicate WaitsSuccessfully(s: State, w: Wait) {
    s.tasks != map[] && RunList(s) == [] && Blocks(RunOnce(s)) && Fires(RunOnce(s), w)
  }

  /** The number of successful waits among the first `n` iterations. */
  ghost function WaitRounds(s: State, waits: nat -> Wait, n: nat): nat {
    if n == 0 then 0
    else WaitRounds(s, waits, n - 1) +
         if WaitsSuccessfully(Iterate(s, waits, n - 1), waits(n - 1)) then 1 else 0
  }

  /** The tasks ahead of the target that are not about to be polled. */
  ghost function Overtaking(s: State, target: Entry): set<TaskId> {
    Ahead(s.registry, target) - Ids(RunList(s))
  }

  lemma OvertakingShrinks(s: State, w: Wait, target: Entry)
    requires Valid(s) && target in s.registry
    requires w.Signalled? ==> target.event in w.events
    requires target.task !in RunList(s)
    ensures var s' := Iteration(s, w);
            && target in s'.registry
            && Overtaking(s', target) <= Overtaking(s, target)
            && (WaitsSuccessfully(s, w) && target.task !in RunList(s') ==>
                  Overtaking(s', target) < Overtaking(s, target))
  {
    RunListFacts(s);
    PollOthers(Drained(s), RunList(s), target);
    var s' := Iteration(s, w);
    if s.tasks != map[] && RunList(s) == [] {
      assert RunOnce(s) == Drained(s);
      assert Ids(RunList(s)) == {};
      if WaitsSuccessfully(s, w) {
        RunOncePollsExactlyOnce(s);
        WaitPicksAhead(Drained(s), w, target);
        WaitForEventsValid(Drained(s), w);
        RunListFacts(s');
      }
    }
  }

  lemma OvertakingStep(s: State, w: Wait, target: Entry)
    requires Valid(s) && target in s.registry
    requires w.Signalled? ==> target.event in w.events
    requires target.task !in RunList(s) && target.task !in RunList(Iteration(s, w))
    ensures target in Iteration(s, w).registry
    ensures (if WaitsSuccessfully(s, w) then 1 else 0) + |Overtaking(Iteration(s, w), target)|
            <= |Overtaking(s, target)|
  {
    OvertakingShrinks(s, w, target);
    SubsetSize(Overtaking(Iteration(s, w), target), Overtaking(s, target));
  }

  /** Iteration `i` of `run` polls `id`. */
  ghost predicate PolledAt(s: State, waits: nat -> Wait, i: nat, id: TaskId) {
    id in RunList(Iterate(s, waits, i))
  }

  ghost predicate NeverPolled(s: State, waits: nat -> Wait, n: nat, id: TaskId) {
    forall i: nat :: i <= n ==> !PolledAt(s, waits, i, id)
  }

  lemma OvertakingStepAt(s: State, waits: nat -> Wait, n: nat, target: Entry)
    requires Valid(s)
    requires target in Iterate(s, waits, n).registry
    requires waits(n).Signalled? ==> target.event in waits(n).events
    requires target.task !in RunList(Iterate(s, waits, n))
    requires target.task !in RunList(Iteration(Iterate(s, waits, n), waits(n)))
    ensures target in Iterate(s, waits, n + 1).registry
    ensures WaitRounds(s, waits, n + 1) + |Overtaking(Iterate(s, waits, n + 1), target)|
            <= WaitRounds(s, waits, n) + |Overtaking(Iterate(s, waits, n), target)|
  {
    var now := Iterate(s, waits, n);
    assert Valid(now) by { IterateValid(s, waits, n); }
    OvertakingStep(now, waits(n), target);
  }

  lemma {:induction false} TargetStays(s: State, waits: nat -> Wait, n: nat, target: Entry)
    requires Valid(s) && target in s.registry
    requires forall i: nat :: i < n && waits(i).Signalled? ==> target.event in waits(i).events
    requires NeverPolled(s, waits, n, target.task)
    ensures target in Iterate(s, waits, n).registry
  {
    if n > 0 {
      TargetStays(s, waits, n - 1, target);
      TargetStaysOne(s, waits, n - 1, target);
    }
  }

  lemma TargetStaysOne(s: State, waits: nat -> Wait, i: nat, target: Entry)
    requires Valid(s) && target in Iterate(s, waits, i).registry
    requires waits(i).Signalled? ==> target.event in waits(i).events
    requires NeverPolled(s, waits, i + 1, target.task)
    ensures target in Iterate(s, waits, i + 1).registry
  {
    assert !PolledAt(s, waits, i, target.task) && !PolledAt(s, waits, i + 1, target.task);
    OvertakingStepAt(s, waits, i, target);
  }

  ghost function Budget(s: State, waits: nat -> Wait, target: Entry): nat -> int {
    (i: nat) => WaitRounds(s, waits, i) + |Overtaking(Iterate(s, waits, i), target)|
  }

  lemma BudgetFalls(s: State, waits: nat -> Wait, i: nat, target: Entry)
    requires Valid(s) && target in Iterate(s, waits, i).registry
    requires waits(i).Signalled? ==> target.event in waits(i).events
    requires NeverPolled(s, waits, i + 1, target.task)
    ensures Falls(Budget(s, waits, target), i)
  {
    assert !PolledAt(s, waits, i, target.task) && !PolledAt(s, waits, i + 1, target.task);
    OvertakingStepAt(s, waits, i, target);
  }

  /** What the tasks that are ahead can still do to a target that is not polled. */
  lemma OvertakingBudget(s: State, waits: nat -> Wait, n: nat, target: Entry)
    requires Valid(s) && target in s.registry
    requires forall i: nat :: i < n && waits(i).Signalled? ==> target.event in waits(i).events
    requires NeverPolled(s, waits, n, target.task)
    ensures WaitRounds(s, waits, n) <= |Overtaking(s, target)|
  {
    forall i: nat | i < n ensures Falls(Budget(s, waits, target), i) {
      assert NeverPolled(s, waits, i, target.task) && NeverPolled(s, waits, i + 1, target.task);
      TargetStays(s, waits, i, target);
      BudgetFalls(s, waits, i, target);
    }
    NonIncreasing(Budget(s, waits, target), n);
    assert Iterate(s, waits, 0) == s;
  }

  lemma SubsetSize<T>(a: set<T>, b: set<T>)
    requires a <= b
    ensures |a| <= |b|
    ensures a < b ==> |a| < |b|
  {
    assert b == a + (b - a);
    if a < b {
      var x :| x in b - a;
    }
  }

  /** Bounded bypass. A task holds the registration `target`, and its event is signalled whenever
      the firmware answers a wait. If `k` other tasks have an entry ahead of `target`, then by the
      end of the iteration after the (k+1)-th successful wait its owner has been polled. */
  lemma BoundedBypass(s: State, waits: nat -> Wait, n: nat, target: Entry)
    requires Valid(s) && target in s.registry
    requires forall i: nat :: i < n && waits(i).Signalled? ==> target.event in waits(i).events
    requires WaitRounds(s, waits, n) >= |Ahead(s.registry, target)| + 1
    ensures exists i: nat :: i <= n && PolledAt(s, waits, i, target.task)
  {
    if NeverPolled(s, waits, n, target.task) {
      OvertakingBudget(s, waits, n, target);
      SubsetSize(Overtaking(s, target), Ahead(s.registry, target));
      assert false;
    }
  }
}
