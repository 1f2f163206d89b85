/**
 How often an action can run (layer6/manager.go:108-204, 276-318): once for every goroutine that
 is started, and goroutines are started by processing, if no approval is required, and by approval.
 An approved one does run, once its goroutine has had its turns.
 */
module Executions {
  import opened Common
  import opened RuleEngines
  import opened Proposals

  function Approvals(trace: seq<Event>): nat {
    if trace == [] then 0 else Approvals(trace[..|trace| - 1]) + if trace[|trace| - 1] == ApproveEvent then 1 else 0
  }

  lemma ApprovalsAppend(trace: seq<Event>, e: Event)
    ensures Approvals(trace + [e]) == Approvals(trace) + if e == ApproveEvent then 1 else 0
  {
    assert (trace + [e])[..|trace|] == trace;
  }

  lemma TraceCounts(log: seq<LogEntry>, e: LogEntry, i: nat)
    ensures Acts(Trace(log + [e], i)) == Acts(Trace(log, i)) + if e.proposal == i && e.event.ActEvent? then 1 else 0
    ensures Approvals(Trace(log + [e], i)) == Approvals(Trace(log, i)) + if e.proposal == i && e.event == ApproveEvent then 1 else 0
  {
    TraceAppend(log, e, i);
    ActsAppend(Trace(log, i), e.event);
    ApprovalsAppend(Trace(log, i), e.event);
    assert Trace(log, i) + [] == Trace(log, i);
  }

  /** How many goroutines were started for proposal `i`. */
  function Started(tasks: seq<Task>, i: nat): nat {
    if tasks == [] then 0 else Started(tasks[..|tasks| - 1], i) + if tasks[|tasks| - 1].proposal == i then 1 else 0
  }

  predicate HasActed(t: Task) {
    t.phase.Acted? || t.phase.Settled? || t.phase.Reported?
  }

  /** How many of them have called the executor. */
  function Done(tasks: seq<Task>, i: nat): nat {
    if tasks == [] then 0
    else
      var t := tasks[|tasks| - 1];
      Done(tasks[..|tasks| - 1], i) + if t.proposal == i && HasActed(t) then 1 else 0
  }

  lemma {:induction false} DoneAreStarted(tasks: seq<Task>, i: nat)
    ensures Done(tasks, i) <= Started(tasks, i)
  {
    if tasks != [] {
      DoneAreStarted(tasks[..|tasks| - 1], i);
    }
  }

  lemma TaskAppended(tasks: seq<Task>, t: Task, i: nat)
    ensures Started(tasks + [t], i) == Started(tasks, i) + if t.proposal == i then 1 else 0
    ensures Done(tasks + [t], i) == Done(tasks, i) + if t.proposal == i && HasActed(t) then 1 else 0
  {
    assert (tasks + [t])[..|tasks|] == tasks;
  }

  lemma {:induction false} TaskMoved(tasks: seq<Task>, k: nat, t: Task, i: nat)
    requires k < |tasks| && t.proposal == tasks[k].proposal
    ensures Started(tasks[k := t], i) == Started(tasks, i)
    ensures Done(tasks[k := t], i) + (if t.proposal == i && HasActed(tasks[k]) then 1 else 0)
         == Done(tasks, i) + if t.proposal == i && HasActed(t) then 1 else 0
  {
    var n := |tasks| - 1;
    if k < n {
      TaskMoved(tasks[..n], k, t, i);
      assert tasks[k := t][..n] == tasks[..n][k := t];
    } else {
      assert tasks[k := t][..n] == tasks[..n];
    }
  }

  lemma {:induction false} NoTasks(tasks: seq<Task>, i: nat)
    requires forall k :: 0 <= k < |tasks| ==> tasks[k].proposal != i
    ensures Started(tasks, i) == 0 && Done(tasks, i) == 0
  {
    if tasks != [] {
      NoTasks(tasks[..|tasks| - 1], i);
    }
  }

  /** Goroutines match approvals, calls match goroutines, and a decided proposal is not approved again. */
  ghost predicate Spent(s: State, i: nat)
    requires i < |s.proposals|
  {
    var trace := Trace(s.log, i);
    && Started(s.tasks, i) == Approvals(trace) + (if s.proposals[i].requiresApproval then 0 else 1)
    && Acts(trace) == Done(s.tasks, i)
    && Approvals(trace) <= 1 && (s.proposals[i].status == Pending ==> Approvals(trace) == 0)
  }

  ghost predicate AllSpent(s: State) {
    && InRange(s)
    && (forall n :: 0 <= n < |s.log| ==> s.log[n].proposal < |s.proposals|)
    && forall i :: 0 <= i < |s.proposals| ==> Spent(s, i)
  }

  /** Proposals keep what they require, and none becomes pending again. */
  ghost predicate Onward(s: State, r: State) {
    && |r.proposals| == |s.proposals|
    && forall i :: 0 <= i < |s.proposals| ==>
         && r.proposals[i].requiresApproval == s.proposals[i].requiresApproval
         && (r.proposals[i].status == Pending ==> s.proposals[i].status == Pending)
  }

  /** One more entry of the history that is no approval, with the goroutines that go with it. */
  lemma LoggedSpent(s: State, r: State, e: LogEntry, i: nat)
    requires i < |s.proposals| && Spent(s, i) && Onward(s, r)
    requires r.log == s.log + [e] && e.event != ApproveEvent
    requires Started(r.tasks, i) == Started(s.tasks, i)
    requires Done(r.tasks, i) == Done(s.tasks, i) + if e.proposal == i && e.event.ActEvent? then 1 else 0
    ensures Spent(r, i)
  {
    TraceCounts(s.log, e, i);
  }

  lemma ProcessSpends(hasExecutor: bool, s: State, step: Step)
    requires AllSpent(s) && step.Process?
    ensures AllSpent(Next(hasExecutor, s, step))
  {
    var r, n := Next(hasExecutor, s, step), |s.proposals|;
    assert s.tasks + [] == s.tasks;
    forall i | 0 <= i <= n ensures Spent(r, i) {
      TaskAppended(s.tasks, Task(n, Waiting), i);
      if i < n {
        assert Spent(s, i);
      } else {
        NoTrace(s.log, n);
        NoTasks(s.tasks, n);
        NoEvents();
      }
    }
  }

  lemma NoEvents()
    ensures Acts([]) == 0 && Approvals([]) == 0
  {
  }

  lemma ApproveSpends(hasExecutor: bool, s: State, step: Step)
    requires AllSpent(s) && step.Approve?
    ensures AllSpent(Next(hasExecutor, s, step))
  {
    hide Find, Spent, Next;
    var r, p := Next(hasExecutor, s, step), Find(s.proposals, step.id);
    NextDecides(hasExecutor, s, step.id, p);
    if p < |s.proposals| && s.proposals[p].status == Pending {
      forall i | 0 <= i < |r.proposals| ensures Spent(r, i) {
        ApprovedSpent(s, r, p, i);
      }
    }
  }

  lemma ApprovedSpent(s: State, r: State, p: nat, i: nat)
    requires i < |s.proposals| && Spent(s, i) && p < |s.proposals| && s.proposals[p].status == Pending
    requires r.proposals == s.proposals[p := s.proposals[p].(status := Approved)]
    requires r.tasks == s.tasks + [Task(p, Waiting)] && r.log == s.log + [LogEntry(p, s.proposals[p].ruleID, ApproveEvent)]
    ensures Spent(r, i)
  {
    hide Started, Done, Acts, Approvals, Trace;
    TaskAppended(s.tasks, Task(p, Waiting), i);
    TraceCounts(s.log, LogEntry(p, s.proposals[p].ruleID, ApproveEvent), i);
  }

  lemma RejectSpends(hasExecutor: bool, s: State, step: Step)
    requires AllSpent(s) && step.Reject?
    ensures AllSpent(Next(hasExecutor, s, step))
  {
    hide Find, Spent, BumpFirst;
    var r, p := Next(hasExecutor, s, step), Find(s.proposals, step.id);
    NextDecides(hasExecutor, s, step.id, p);
    if p < |s.proposals| && s.proposals[p].status == Pending {
      var q := Logged(WithStatus(s, p, Rejected), p, RejectEvent);
      forall i | 0 <= i < |r.proposals| ensures Spent(r, i) {
        LoggedSpent(s, q, LogEntry(p, s.proposals[p].ruleID, RejectEvent), i);
        LoggedSpent(q, r, LogEntry(p, s.proposals[p].ruleID, OutcomeEvent(false)), i);
      }
    }
  }

  lemma AdvanceSpends(hasExecutor: bool, s: State, k: nat, ok: bool)
    requires AllSpent(s) && k < |s.tasks|
    ensures AllSpent(Advanced(hasExecutor, s, k, ok))
  {
    hide Spent, BumpFirst;
    var r, p := Advanced(hasExecutor, s, k, ok), s.tasks[k].proposal;
    AdvancedFacts(hasExecutor, s, k, ok);
    forall i | 0 <= i < |r.proposals| ensures Spent(r, i) {
      TaskMoved(s.tasks, k, r.tasks[k], i);
      if |r.log| > |s.log| {
        LoggedSpent(s, r, r.log[|s.log|], i);
      } else {
        SilentSpent(s, r, i);
      }
    }
  }

  lemma SilentSpent(s: State, r: State, i: nat)
    requires i < |s.proposals| && Spent(s, i) && Onward(s, r) && r.log == s.log
    requires Started(r.tasks, i) == Started(s.tasks, i) && Done(r.tasks, i) == Done(s.tasks, i)
    ensures Spent(r, i)
  {
  }

  lemma {:induction false} RunSpends(hasExecutor: bool, tallies: seq<Tally>, steps: seq<Step>)
    ensures AllSpent(Run(hasExecutor, tallies, steps))
  {
    if steps != [] {
      var step := steps[|steps| - 1];
      var s := Run(hasExecutor, tallies, steps[..|steps| - 1]);
      RunSpends(hasExecutor, tallies, steps[..|steps| - 1]);
      match step
      case Process(_, _, _) => ProcessSpends(hasExecutor, s, step);
      case Approve(_) => ApproveSpends(hasExecutor, s, step);
      case Reject(_) => RejectSpends(hasExecutor, s, step);
      case Advance(k, ok) => if k < |s.tasks| { NextAdvance(hasExecutor, s, k, ok); AdvanceSpends(hasExecutor, s, k, ok); }
    }
  }

  /**
   In every interleaving a proposal is approved at most once, and its action runs at most once for
   that and once more if no approval was required: never more than twice.
   */
  lemma ActsBounded(hasExecutor: bool, tallies: seq<Tally>, steps: seq<Step>, i: nat)
    requires i < |Run(hasExecutor, tallies, steps).proposals|
    ensures var s := Run(hasExecutor, tallies, steps);
      var trace := Trace(s.log, i);
      && Acts(trace) <= Approvals(trace) + (if s.proposals[i].requiresApproval then 0 else 1)
      && Approvals(trace) <= 1
  {
    RunSpends(hasExecutor, tallies, steps);
    var s := Run(hasExecutor, tallies, steps);
    assert Spent(s, i);
    DoneAreStarted(s.tasks, i);
  }

  // ---------- A goroutine that is given its turns finishes ----------

  function Continue(hasExecutor: bool, s: State, steps: seq<Step>): (r: State)
    requires InRange(s)
    ensures InRange(r)
  {
    if steps == [] then s
    else Next(hasExecutor, Continue(hasExecutor, s, steps[..|steps| - 1]), steps[|steps| - 1])
  }

  lemma {:induction false} RunContinues(hasExecutor: bool, tallies: seq<Tally>, a: seq<Step>, b: seq<Step>)
    ensures Run(hasExecutor, tallies, a + b) == Continue(hasExecutor, Run(hasExecutor, tallies, a), b)
  {
    hide Next;
    if b == [] {
      assert a + b == a;
    } else {
      var n := |b| - 1;
      RunContinues(hasExecutor, tallies, a, b[..n]);
      assert (a + b)[..|a + b| - 1] == a + b[..n];
    }
  }

  /** How often goroutine `k` gets to run. */
  function Turns(steps: seq<Step>, k: nat): nat {
    if steps == [] then 0
    else
      var step := steps[|steps| - 1];
      Turns(steps[..|steps| - 1], k) + if step.Advance? && step.task == k then 1 else 0
  }

  ghost predicate NoneIdle(s: State) {
    forall k :: 0 <= k < |s.tasks| ==> !s.tasks[k].phase.Idle?
  }

  /** `r` comes later: goroutines work for the same proposals, and these require what they did. */
  ghost predicate Later(s: State, r: State) {
    && |s.tasks| <= |r.tasks| && |s.proposals| <= |r.proposals|
    && (forall k :: 0 <= k < |s.tasks| ==> r.tasks[k].proposal == s.tasks[k].proposal)
    && forall i :: 0 <= i < |s.proposals| ==> r.proposals[i].requiresApproval == s.proposals[i].requiresApproval
  }

  lemma StepTurns(s: State, step: Step, k: nat)
    requires InRange(s) && NoneIdle(s) && k < |s.tasks|
    ensures var r := Next(true, s, step);
      && Later(s, r) && NoneIdle(r)
      && Reached(r.tasks[k].phase) == if step.Advance? && step.task == k then Min(5, Reached(s.tasks[k].phase) + 1)
                                      else Reached(s.tasks[k].phase)
  {
    hide BumpFirst, Find;
    if step.Advance? && step.task < |s.tasks| {
      NextAdvance(true, s, step.task, step.ok);
      AdvancedFacts(true, s, step.task, step.ok);
    }
  }

  lemma {:induction false} NoneIdles(tallies: seq<Tally>, steps: seq<Step>)
    ensures NoneIdle(Run(true, tallies, steps))
  {
    if steps != [] {
      var s, step := Run(true, tallies, steps[..|steps| - 1]), steps[|steps| - 1];
      NoneIdles(tallies, steps[..|steps| - 1]);
      if s.tasks != [] {
        StepTurns(s, step, 0);
      }
    }
  }

  lemma {:induction false} TurnsAdvance(s: State, steps: seq<Step>, k: nat)
    requires InRange(s) && NoneIdle(s) && k < |s.tasks|
    ensures var r := Continue(true, s, steps);
      Later(s, r) && NoneIdle(r) && Reached(r.tasks[k].phase) == Min(5, Reached(s.tasks[k].phase) + Turns(steps, k))
  {
    if steps != [] {
      hide Next, Later, NoneIdle, Reached;
      var q := Continue(true, s, steps[..|steps| - 1]);
      TurnsAdvance(s, steps[..|steps| - 1], k);
      InLater(s, q, k);
      StepTurns(q, steps[|steps| - 1], k);
      LaterStill(s, q, Next(true, q, steps[|steps| - 1]));
    } else {
      LaterStill(s, s, s);
    }
  }

  lemma InLater(s: State, r: State, k: nat)
    requires Later(s, r) && k < |s.tasks|
    ensures k < |r.tasks|
  {
  }

  lemma LaterStill(s: State, q: State, r: State)
    requires s == q == r || (Later(s, q) && Later(q, r))
    ensures Later(s, r)
  {
  }

  /**
   However the steps of others fall between them, four turns are enough: once its goroutine has had
   them, an approved proposal has been executed and counted, and its status is the executor's answer.
   */
  lemma ApprovedGetsDone(tallies: seq<Tally>, before: seq<Step>, id: string, after: seq<Step>, i: nat)
    requires var s := Run(true, tallies, before);
      && i == Find(s.proposals, id) && i < |s.proposals|
      && s.proposals[i].status == Pending && s.proposals[i].requiresApproval
      && Turns(after, |s.tasks|) >= 4
    ensures var r := Run(true, tallies, before + [Approve(id)] + after);
      && i < |r.proposals|
      && ((Trace(r.log, i) == Executed(true) && r.proposals[i].status == Completed)
          || (Trace(r.log, i) == Executed(false) && r.proposals[i].status == Failed))
  {
    hide Next;
    var s, begun := Run(true, tallies, before), before + [Approve(id)];
    var k, t := |s.tasks|, Run(true, tallies, begun);
    assert begun[..|begun| - 1] == before;
    NextDecides(true, s, id, i);
    NoneIdles(tallies, begun);
    RunContinues(true, tallies, begun, after);
    TurnsAdvance(t, after, k);
    FinishedStory(tallies, begun + after, i, k);
  }

  lemma FinishedStory(tallies: seq<Tally>, steps: seq<Step>, i: nat, k: nat)
    requires var s := Run(true, tallies, steps);
      k < |s.tasks| && s.tasks[k].proposal == i && s.proposals[i].requiresApproval && Reached(s.tasks[k].phase) == 5
    ensures var s := Run(true, tallies, steps);
      && ((Trace(s.log, i) == Executed(true) && s.proposals[i].status == Completed)
          || (Trace(s.log, i) == Executed(false) && s.proposals[i].status == Failed))
  {
    hide Run;
    var s := Run(true, tallies, steps);
    RunOrderly(true, tallies, steps);
    var ok := StoryOf(s, k);
    ExecutedPrefix(ok, 5);
    assert Executed(ok)[..5] == Executed(ok);
  }
}
