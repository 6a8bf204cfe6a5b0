/** No wake-up is lost. */
module ExecutorWakeup {
  import opened Prelude
  import opened Scheduler
  import opened ExecutorInvariant

  /** The state in which the i-th task of the run list is polled. */
  ghost function BeforePoll(s: State, i: nat): State
    requires i < |RunList(s)|
  {
    PollAll(Drained(s), RunList(s)[..i])
  }

  /** Operation `op` wakes `id`: from outside any task, or in one of the polls it makes, which may
      be a poll of `id` itself or come after the poll of `id` in the same round. */
  ghost predicate IssuesWake(s: State, op: Op, id: TaskId) {
    || op == DoWake(id)
    || (op.DoRunOnce? &&
        exists i: nat :: i < |RunList(s)| &&
                         var at := BeforePoll(s, i);
                         RunList(s)[i] in at.tasks &&
                         Wake(id) in at.tasks[RunList(s)[i]].Next().actions)
  }

  lemma {:induction false} WokenFacts(actions: seq<Action>)
    ensures forall id :: id in Woken(actions) <==> Wake(id) in actions
  {
    if actions != [] {
      WokenFacts(actions[..|actions| - 1]);
      assert actions == actions[..|actions| - 1] + [actions[|actions| - 1]];
    }
  }

  lemma PollAwake(s: State, id: TaskId)
    ensures forall other :: other in s.awake ==> other in PollTask(s, id).awake
    ensures id in s.tasks ==>
              forall other :: Wake(other) in s.tasks[id].Next().actions ==> other in PollTask(s, id).awake
  {
    if id in s.tasks {
      WokenFacts(s.tasks[id].Next().actions);
      AddAllFacts(s.awake, Woken(s.tasks[id].Next().actions));
    }
  }

  /** A wake issued in the i-th poll of a round is still recorded after any later poll of it. */
  lemma {:induction false} WakeSurvivesRound(s: State, ids: seq<TaskId>, i: nat, id: TaskId)
    requires i < |ids|
    requires var at := PollAll(s, ids[..i]); ids[i] in at.tasks && Wake(id) in at.tasks[ids[i]].Next().actions
    ensures id in PollAll(s, ids).awake
  {
    var front := ids[..|ids| - 1];
    PollAwake(PollAll(s, front), ids[|ids| - 1]);
    if i < |front| {
      assert front[..i] == ids[..i];
      WakeSurvivesRound(s, front, i, id);
    }
  }

  lemma IssuedWakeRecorded(s: State, op: Op, id: TaskId)
    requires IssuesWake(s, op, id)
    ensures id in Apply(s, op).awake
  {
    if op.DoRunOnce? {
      var i: nat :| i < |RunList(s)| &&
                    var at := BeforePoll(s, i);
                    RunList(s)[i] in at.tasks && Wake(id) in at.tasks[RunList(s)[i]].Next().actions;
      WakeSurvivesRound(Drained(s), RunList(s), i, id);
    }
  }

  lemma {:induction false} WakeSurvivesCalls(s: State, ops: seq<Op>, id: TaskId)
    requires id in s.awake
    requires forall op :: op in ops ==> !op.DoRunOnce?
    ensures id in Exec(s, ops).awake
  {
    if ops != [] {
      var front, last := ops[..|ops| - 1], ops[|ops| - 1];
      assert ops == front + [last];
      WakeSurvivesCalls(s, front, id);
      assert last in ops;
    }
  }

  /** However a wake of `id` was issued, and whatever other calls come in between, the next
      `run_once` polls `id` exactly once if it is still live; the polls of that `run_once` all
      begin after the wake. */
  lemma NoLostWakeup(s: State, op: Op, between: seq<Op>, id: TaskId)
    requires Valid(s)
    requires IssuesWake(s, op, id)
    requires forall other :: other in between ==> !other.DoRunOnce?
    ensures var next := Exec(Apply(s, op), between);
            id in next.tasks ==>
              && multiset(RunList(next))[id] == 1
              && if next.tasks[id].Next().ready
                 then id !in RunOnce(next).tasks
                 else id in RunOnce(next).tasks && RunOnce(next).tasks[id].polls == next.tasks[id].polls + 1
  {
    IssuedWakeRecorded(s, op, id);
    WakeSurvivesCalls(Apply(s, op), between, id);
    ApplyValid(s, op);
    ExecValid(Apply(s, op), between);
    var next := Exec(Apply(s, op), between);
    if id in next.tasks {
      RunListFacts(next);
      RunOncePollsExactlyOnce(next);
      OnceInNoDup(RunList(next), id);
    }
  }

  lemma {:induction false} OnceInNoDup<T>(s: seq<T>, x: T)
    requires NoDup(s)
    ensures multiset(s)[x] == if x in s then 1 else 0
  {
    if s != [] {
      OnceInNoDup(s[1..], x);
      assert s == [s[0]] + s[1..];
      assert s[0] !in s[1..];
    }
  }
}
