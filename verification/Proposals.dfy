/**
 The life of action proposals (layer6/manager.go) as a state machine. Processing, approving and
 rejecting are atomic because they hold the manager's lock; an executor goroutine holds none, so
 each of its four effects is a step of its own that can fall anywhere between the others.
 */
module Proposals {
  import opened RuleEngines

  datatype Status = Pending | Approved | Rejected | Executing | Completed | Failed

  datatype Proposal = Proposal(id: string, ruleID: string, requiresApproval: bool, status: Status)

  /** How far an executor goroutine has come; `Idle` is one that found no executor to call. */
  datatype Phase = Waiting | Begun | Acted(ok: bool) | Settled(ok: bool) | Reported(ok: bool) | Idle

  /** A goroutine and the number of the proposal it was started with. */
  datatype Task = Task(proposal: nat, phase: Phase)

  datatype Event = ApproveEvent | RejectEvent | BeginEvent | ActEvent(ok: bool) | SettleEvent(ok: bool) | OutcomeEvent(ok: bool)

  datatype LogEntry = LogEntry(proposal: nat, ruleID: string, event: Event)

  /** `log` is the history; nothing depends on it. */
  datatype State = State(proposals: seq<Proposal>, tasks: seq<Task>, tallies: seq<Tally>, log: seq<LogEntry>)

  datatype Step =
    | Process(id: string, ruleID: string, requiresApproval: bool)
    | Approve(id: string)
    | Reject(id: string)
    | Advance(task: nat, ok: bool)

  // ---------- Steps ----------

  /** The first proposal with the id, or the length if there is none. */
  function Find(ps: seq<Proposal>, id: string): (k: nat)
    ensures k <= |ps|
    ensures k < |ps| ==> ps[k].id == id
    ensures forall j :: 0 <= j < k ==> ps[j].id != id
  {
    if ps == [] || ps[0].id == id then 0 else 1 + Find(ps[1..], id)
  }

  function WithStatus(s: State, i: nat, status: Status): State
    requires i < |s.proposals|
  {
    s.(proposals := s.proposals[i := s.proposals[i].(status := status)])
  }

  function Logged(s: State, i: nat, event: Event): State
    requires i < |s.proposals|
  {
    s.(log := s.log + [LogEntry(i, s.proposals[i].ruleID, event)])
  }

  /** Recording an outcome counts it for the rule of the proposal, if it names one. */
  function Recorded(s: State, i: nat, ok: bool): State
    requires i < |s.proposals|
  {
    var id := s.proposals[i].ruleID;
    Logged(s.(tallies := if id == "" then s.tallies else BumpFirst(s.tallies, id, ok)), i, OutcomeEvent(ok))
  }

  predicate InRange(s: State) {
    forall k :: 0 <= k < |s.tasks| ==> s.tasks[k].proposal < |s.proposals|
  }

  function Next(hasExecutor: bool, s: State, step: Step): (r: State)
    requires InRange(s)
    ensures InRange(r) && |s.proposals| <= |r.proposals|
  {
    match step
    case Process(id, ruleID, requiresApproval) =>
      s.(proposals := s.proposals + [Proposal(id, ruleID, requiresApproval, Pending)],
         tasks := s.tasks + if requiresApproval then [] else [Task(|s.proposals|, Waiting)])
    case Approve(id) =>
      var i := Find(s.proposals, id);
      if i == |s.proposals| || s.proposals[i].status != Pending then s
      else Logged(WithStatus(s, i, Approved).(tasks := s.tasks + [Task(i, Waiting)]), i, ApproveEvent)
    case Reject(id) =>
      var i := Find(s.proposals, id);
      if i == |s.proposals| || s.proposals[i].status != Pending then s
      else Recorded(Logged(WithStatus(s, i, Rejected), i, RejectEvent), i, false)
    case Advance(k, ok) =>
      if k >= |s.tasks| then s else Advanced(hasExecutor, s, k, ok)
  }

  function ToPhase(s: State, k: nat, phase: Phase): State
    requires k < |s.tasks|
  {
    s.(tasks := s.tasks[k := s.tasks[k].(phase := phase)])
  }

  /** One effect of goroutine `k`; `ok` is what the executor answers when it is called. */
  function Advanced(hasExecutor: bool, s: State, k: nat, ok: bool): (r: State)
    requires InRange(s) && k < |s.tasks|
    ensures InRange(r) && |s.proposals| == |r.proposals|
  {
    var i := s.tasks[k].proposal;
    match s.tasks[k].phase
    case Waiting =>
      if !hasExecutor then ToPhase(s, k, Idle)
      else Logged(WithStatus(ToPhase(s, k, Begun), i, Executing), i, BeginEvent)
    case Begun => Logged(ToPhase(s, k, Acted(ok)), i, ActEvent(ok))
    case Acted(o) => Logged(WithStatus(ToPhase(s, k, Settled(o)), i, if o then Completed else Failed), i, SettleEvent(o))
    case Settled(o) => Recorded(ToPhase(s, k, Reported(o)), i, o)
    case Reported(_) => s
    case Idle => s
  }

  lemma NextAdvance(hasExecutor: bool, s: State, k: nat, ok: bool)
    requires InRange(s) && k < |s.tasks|
    ensures Next(hasExecutor, s, Advance(k, ok)) == Advanced(hasExecutor, s, k, ok)
  {
  }

  /** What a decision does, `k` being the first proposal with the id. */
  lemma NextDecides(hasExecutor: bool, s: State, id: string, k: nat)
    requires InRange(s) && k == Find(s.proposals, id)
    ensures k == |s.proposals| || s.proposals[k].status != Pending ==>
      Next(hasExecutor, s, Approve(id)) == s && Next(hasExecutor, s, Reject(id)) == s
    ensures k < |s.proposals| && s.proposals[k].status == Pending ==>
      && Next(hasExecutor, s, Approve(id)) == Logged(WithStatus(s, k, Approved).(tasks := s.tasks + [Task(k, Waiting)]), k, ApproveEvent)
      && Next(hasExecutor, s, Reject(id)) == Recorded(Logged(WithStatus(s, k, Rejected), k, RejectEvent), k, false)
  {
  }

  /** The effects of a goroutine, phase by phase. */
  lemma AdvancedCases(hasExecutor: bool, s: State, k: nat, ok: bool)
    requires InRange(s) && k < |s.tasks|
    ensures var i, phase, r := s.tasks[k].proposal, s.tasks[k].phase, Advanced(hasExecutor, s, k, ok);
      && (phase.Waiting? && !hasExecutor ==> r == ToPhase(s, k, Idle))
      && (phase.Waiting? && hasExecutor ==> r == Logged(WithStatus(ToPhase(s, k, Begun), i, Executing), i, BeginEvent))
      && (phase.Begun? ==> r == Logged(ToPhase(s, k, Acted(ok)), i, ActEvent(ok)))
      && (phase.Acted? ==> r == Logged(WithStatus(ToPhase(s, k, Settled(phase.ok)), i,
                                                  if phase.ok then Completed else Failed), i, SettleEvent(phase.ok)))
      && (phase.Settled? ==> r == Recorded(ToPhase(s, k, Reported(phase.ok)), i, phase.ok))
      && (phase.Reported? || phase.Idle? ==> r == s)
  {
  }

  function Start(tallies: seq<Tally>): State {
    State([], [], tallies, [])
  }

  function Run(hasExecutor: bool, tallies: seq<Tally>, steps: seq<Step>): (s: State)
    ensures InRange(s)
  {
    if steps == [] then Start(tallies)
    else Next(hasExecutor, Run(hasExecutor, tallies, steps[..|steps| - 1]), steps[|steps| - 1])
  }

  // ---------- The life of one proposal ----------

  /** What has happened to proposal `i`, in order. */
  function Trace(log: seq<LogEntry>, i: nat): seq<Event> {
    if log == [] then []
    else
      var n := |log| - 1;
      Trace(log[..n], i) + if log[n].proposal == i then [log[n].event] else []
  }

  lemma TraceAppend(log: seq<LogEntry>, e: LogEntry, i: nat)
    ensures Trace(log + [e], i) == Trace(log, i) + if e.proposal == i then [e.event] else []
  {
    assert (log + [e])[..|log|] == log;
  }

  function Executed(ok: bool): seq<Event> {
    [ApproveEvent, BeginEvent, ActEvent(ok), SettleEvent(ok), OutcomeEvent(ok)]
  }

  function Refused(): seq<Event> {
    [RejectEvent, OutcomeEvent(false)]
  }

  /** How many events of an execution a goroutine in that phase has behind it. */
  function Reached(phase: Phase): nat {
    match phase
    case Waiting => 1
    case Idle => 1
    case Begun => 2
    case Acted(_) => 3
    case Settled(_) => 4
    case Reported(_) => 5
  }

  predicate Fits(phase: Phase, ok: bool) {
    match phase
    case Acted(o) => o == ok
    case Settled(o) => o == ok
    case Reported(o) => o == ok
    case _ => true
  }

  /** The status that goes with a trace of an approval-required proposal. */
  function StatusAfter(trace: seq<Event>): Status {
    if trace == [] then Pending
    else if trace[0] == RejectEvent then Rejected
    else if |trace| == 1 then Approved
    else if |trace| <= 3 then Executing
    else if trace[2] == ActEvent(true) then Completed
    else Failed
  }

  ghost predicate Untouched(s: State, i: nat) {
    forall k :: 0 <= k < |s.tasks| ==> s.tasks[k].proposal != i
  }

  ghost predicate OnlyTask(s: State, i: nat, k: nat) {
    && k < |s.tasks| && s.tasks[k].proposal == i
    && forall j :: 0 <= j < |s.tasks| && j != k ==> s.tasks[j].proposal != i
  }

  /** No goroutine and undecided or refused, or one goroutine whose phase tells the whole story. */
  ghost predicate Orderly(s: State, i: nat)
    requires i < |s.proposals|
  {
    var trace := Trace(s.log, i);
    && s.proposals[i].status == StatusAfter(trace)
    && ((Untouched(s, i) && (trace == [] || trace == Refused()))
        || exists k: nat, ok :: OnlyTask(s, i, k) && Fits(s.tasks[k].phase, ok) && trace == Executed(ok)[..Reached(s.tasks[k].phase)])
  }

  ghost predicate Inv(s: State) {
    && InRange(s)
    && (forall n :: 0 <= n < |s.log| ==> s.log[n].proposal < |s.proposals|)
    && forall i :: 0 <= i < |s.proposals| && s.proposals[i].requiresApproval ==> Orderly(s, i)
  }

  /** Steps that leave proposal `i` and its goroutines alone keep it orderly. */
  lemma OrderlyFrame(s: State, r: State, i: nat)
    requires i < |s.proposals| <= |r.proposals| && Orderly(s, i)
    requires r.proposals[i] == s.proposals[i] && Trace(r.log, i) == Trace(s.log, i)
    requires |s.tasks| <= |r.tasks|
    requires forall k :: 0 <= k < |s.tasks| && s.tasks[k].proposal == i ==> r.tasks[k] == s.tasks[k]
    requires forall k :: 0 <= k < |r.tasks| && r.tasks[k].proposal == i ==> k < |s.tasks| && s.tasks[k].proposal == i
    ensures Orderly(r, i)
  {
    if !(Untouched(s, i) && (Trace(s.log, i) == [] || Trace(s.log, i) == Refused())) {
      var k: nat, ok :| OnlyTask(s, i, k) && Fits(s.tasks[k].phase, ok) && Trace(s.log, i) == Executed(ok)[..Reached(s.tasks[k].phase)];
      assert OnlyTask(r, i, k);
    }
  }

  lemma ProcessKeeps(hasExecutor: bool, s: State, step: Step)
    requires Inv(s) && step.Process?
    ensures Inv(Next(hasExecutor, s, step))
  {
    var r := Next(hasExecutor, s, step);
    var n := |s.proposals|;
    forall i | 0 <= i < |r.proposals| && r.proposals[i].requiresApproval ensures Orderly(r, i) {
      if i < n {
        OrderlyFrame(s, r, i);
      } else {
        NoTrace(s.log, n);
      }
    }
  }

  lemma {:induction false} NoTrace(log: seq<LogEntry>, i: nat)
    requires forall n :: 0 <= n < |log| ==> log[n].proposal != i
    ensures Trace(log, i) == []
  {
    if log != [] {
      NoTrace(log[..|log| - 1], i);
    }
  }

  lemma ApproveKeeps(hasExecutor: bool, s: State, step: Step)
    requires Inv(s) && step.Approve?
    ensures Inv(Next(hasExecutor, s, step))
  {
    var r := Next(hasExecutor, s, step);
    var p := Find(s.proposals, step.id);
    if r != s {
      forall i | 0 <= i < |r.proposals| && r.proposals[i].requiresApproval ensures Orderly(r, i) {
        TraceAppend(s.log, LogEntry(p, s.proposals[p].ruleID, ApproveEvent), i);
        if i != p {
          OrderlyFrame(s, r, i);
        } else {
          PendingIsFresh(s, i);
          ApprovedOrderly(s, r, i);
        }
      }
    }
  }

  lemma ApprovedOrderly(s: State, r: State, i: nat)
    requires i < |r.proposals| && r.proposals[i].status == Approved
    requires Untouched(s, i) && r.tasks == s.tasks + [Task(i, Waiting)] && Trace(r.log, i) == [ApproveEvent]
    ensures Orderly(r, i)
  {
    var k := |s.tasks|;
    assert OnlyTask(r, i, k) && Fits(r.tasks[k].phase, true);
    assert Trace(r.log, i) == Executed(true)[..1];
  }

  lemma PendingIsFresh(s: State, i: nat)
    requires i < |s.proposals| && Orderly(s, i) && s.proposals[i].status == Pending
    ensures Untouched(s, i) && Trace(s.log, i) == []
  {
  }

  lemma RejectKeeps(hasExecutor: bool, s: State, step: Step)
    requires Inv(s) && step.Reject?
    ensures Inv(Next(hasExecutor, s, step))
  {
    var r := Next(hasExecutor, s, step);
    var p := Find(s.proposals, step.id);
    if r != s {
      var e1, e2 := LogEntry(p, s.proposals[p].ruleID, RejectEvent), LogEntry(p, s.proposals[p].ruleID, OutcomeEvent(false));
      assert r.log == s.log + [e1] + [e2];
      forall i | 0 <= i < |r.proposals| && r.proposals[i].requiresApproval ensures Orderly(r, i) {
        TraceAppend(s.log, e1, i);
        TraceAppend(s.log + [e1], e2, i);
        assert Orderly(s, i);
        if i != p {
          OrderlyFrame(s, r, i);
        } else {
          PendingIsFresh(s, i);
          assert Trace(r.log, i) == Refused() && Untouched(r, i);
        }
      }
    }
  }

  /** What one effect of goroutine `k` changes: itself, the status of its proposal, one log entry. */
  lemma AdvancedFacts(hasExecutor: bool, s: State, k: nat, ok: bool)
    requires InRange(s) && k < |s.tasks|
    ensures var r, i := Advanced(hasExecutor, s, k, ok), s.tasks[k].proposal;
      && |r.proposals| == |s.proposals| && |r.tasks| == |s.tasks|
      && r.proposals == s.proposals[i := s.proposals[i].(status := r.proposals[i].status)]
      && r.tasks == s.tasks[k := Task(i, r.tasks[k].phase)]
      && (r.log == s.log || exists e :: r.log == s.log + [LogEntry(i, s.proposals[i].ruleID, e)])
  {
    var r, i := Advanced(hasExecutor, s, k, ok), s.tasks[k].proposal;
    if r.log != s.log {
      assert r.log == s.log + [LogEntry(i, s.proposals[i].ruleID, r.log[|s.log|].event)];
    } else {
      assert s.proposals[i].(status := s.proposals[i].status) == s.proposals[i];
    }
  }

  lemma AdvanceKeeps(hasExecutor: bool, s: State, step: Step)
    requires Inv(s) && step.Advance?
    ensures Inv(Next(hasExecutor, s, step))
  {
    var r := Next(hasExecutor, s, step);
    var k := step.task;
    if k < |s.tasks| {
      assert r == Advanced(hasExecutor, s, k, step.ok);
      AdvancedFacts(hasExecutor, s, k, step.ok);
      var p := s.tasks[k].proposal;
      forall i | 0 <= i < |r.proposals| && r.proposals[i].requiresApproval ensures Orderly(r, i) {
        assert Orderly(s, i);
        if i == p {
          AdvanceOrderly(hasExecutor, s, k, step.ok);
        } else {
          if r.log != s.log {
            var e :| r.log == s.log + [LogEntry(p, s.proposals[p].ruleID, e)];
            TraceAppend(s.log, LogEntry(p, s.proposals[p].ruleID, e), i);
          }
          hide Orderly;
          OrderlyFrame(s, r, i);
        }
      }
    }
  }

  lemma ExecutedPrefix(ok: bool, n: nat)
    requires 1 <= n <= 5
    ensures StatusAfter(Executed(ok)[..n])
         == if n == 1 then Approved else if n <= 3 then Executing else if ok then Completed else Failed
    ensures n < 5 ==> Executed(ok)[..n] + [Executed(ok)[n]] == Executed(ok)[..n + 1]
    ensures n <= 2 ==> Executed(ok)[..n] == Executed(!ok)[..n]
  {
  }

  /** The next event of an execution, with the status it brings. */
  lemma Progress(s: State, r: State, i: nat, k: nat, ok: bool, n: nat)
    requires i < |s.proposals| && i < |r.proposals| && 1 <= n < 5
    requires OnlyTask(s, i, k) && Trace(s.log, i) == Executed(ok)[..n]
    requires r.log == s.log + [LogEntry(i, s.proposals[i].ruleID, Executed(ok)[n])]
    requires k < |r.tasks| && r.tasks == s.tasks[k := Task(i, r.tasks[k].phase)]
    requires Fits(r.tasks[k].phase, ok) && Reached(r.tasks[k].phase) == n + 1
    requires r.proposals[i].status == StatusAfter(Executed(ok)[..n + 1])
    ensures Orderly(r, i)
  {
    TraceAppend(s.log, LogEntry(i, s.proposals[i].ruleID, Executed(ok)[n]), i);
    ExecutedPrefix(ok, n);
    assert OnlyTask(r, i, k);
  }

  lemma AdvanceOrderly(hasExecutor: bool, s: State, k: nat, ok: bool)
    requires InRange(s) && k < |s.tasks| && Orderly(s, s.tasks[k].proposal)
    ensures Orderly(Advanced(hasExecutor, s, k, ok), s.tasks[k].proposal)
  {
    var i := s.tasks[k].proposal;
    var r := Advanced(hasExecutor, s, k, ok);
    var phase := s.tasks[k].phase;
    var o := StoryOf(s, k);
    var n := Reached(phase);
    ExecutedPrefix(o, n);
    if n < 5 { ExecutedPrefix(o, n + 1); }
    if phase == Waiting && !hasExecutor {
      assert OnlyTask(r, i, k);
    } else if phase == Begun {
      ExecutedPrefix(ok, 3);
      assert Executed(o)[..2] == Executed(ok)[..2];
      Progress(s, r, i, k, ok, 2);
    } else if n < 5 && phase != Idle {
      Progress(s, r, i, k, o, n);
    }
  }

  /** The outcome in the story of the only goroutine of an orderly proposal. */
  lemma StoryOf(s: State, k: nat) returns (ok: bool)
    requires InRange(s) && k < |s.tasks| && Orderly(s, s.tasks[k].proposal)
    ensures OnlyTask(s, s.tasks[k].proposal, k) && Fits(s.tasks[k].phase, ok)
    ensures Trace(s.log, s.tasks[k].proposal) == Executed(ok)[..Reached(s.tasks[k].phase)]
  {
    var i := s.tasks[k].proposal;
    var j: nat, o :| OnlyTask(s, i, j) && Fits(s.tasks[j].phase, o) && Trace(s.log, i) == Executed(o)[..Reached(s.tasks[j].phase)];
    ok := o;
  }

  lemma {:induction false} RunOrderly(hasExecutor: bool, tallies: seq<Tally>, steps: seq<Step>)
    ensures Inv(Run(hasExecutor, tallies, steps))
  {
    if steps != [] {
      var step := steps[|steps| - 1];
      var s := Run(hasExecutor, tallies, steps[..|steps| - 1]);
      RunOrderly(hasExecutor, tallies, steps[..|steps| - 1]);
      match step
      case Process(_, _, _) => ProcessKeeps(hasExecutor, s, step);
      case Approve(_) => ApproveKeeps(hasExecutor, s, step);
      case Reject(_) => RejectKeeps(hasExecutor, s, step);
      case Advance(_, _) => AdvanceKeeps(hasExecutor, s, step);
    }
  }

  /**
   In every interleaving an approval-required proposal is undecided, or was refused and counted
   once, or has come some way along one execution: approved, begun, acted, settled, counted. Its
   status is the one that goes with that.
   */
  lemma Lifecycle(hasExecutor: bool, tallies: seq<Tally>, steps: seq<Step>, i: nat)
    requires i < |Run(hasExecutor, tallies, steps).proposals|
    requires Run(hasExecutor, tallies, steps).proposals[i].requiresApproval
    ensures var s := Run(hasExecutor, tallies, steps);
      var trace := Trace(s.log, i);
      && s.proposals[i].status == StatusAfter(trace)
      && (trace == Refused() || trace <= Executed(true) || trace <= Executed(false))
  {
    RunOrderly(hasExecutor, tallies, steps);
    assert Orderly(Run(hasExecutor, tallies, steps), i);
  }

  // ---------- At most one execution ----------

  function Acts(trace: seq<Event>): nat {
    if trace == [] then 0 else Acts(trace[..|trace| - 1]) + if trace[|trace| - 1].ActEvent? then 1 else 0
  }

  ghost predicate RunsOnce(requiresApproval: bool) {
    forall hasExecutor, tallies, steps, i: nat ::
      var s := Run(hasExecutor, tallies, steps);
      i < |s.proposals| && s.proposals[i].requiresApproval == requiresApproval ==> Acts(Trace(s.log, i)) <= 1
  }

  lemma ActsOfPrefix(trace: seq<Event>, ok: bool)
    requires trace == Refused() || trace <= Executed(ok)
    ensures Acts(trace) <= 1
  {
    if trace == Refused() {
      assert trace[..1] == [RejectEvent] && trace[..1][..0] == [];
    } else {
      var n := |trace|;
      assert trace == Executed(ok)[..n];
      assert n >= 1 ==> trace[..n - 1] == Executed(ok)[..n - 1];
      ActsUpTo(ok, n);
    }
  }

  lemma ActsUpTo(ok: bool, n: nat)
    requires n <= 5
    ensures Acts(Executed(ok)[..n]) <= 1
  {
    var e := Executed(ok);
    assert Acts(e[..0]) == 0;
    assert e[..1][..0] == e[..0] && Acts(e[..1]) == 0;
    assert e[..2][..1] == e[..1] && Acts(e[..2]) == 0;
    assert e[..3][..2] == e[..2] && Acts(e[..3]) == 1;
    assert e[..4][..3] == e[..3] && Acts(e[..4]) == 1;
    assert e[..5][..4] == e[..4] && Acts(e[..5]) == 1;
  }

  function TwiceSteps(id: string, ruleID: string): seq<Step> {
    [Process(id, ruleID, false), Approve(id), Advance(0, true), Advance(0, true), Advance(1, true), Advance(1, true)]
  }

  /** Approved while its automatic execution has not begun, a proposal is executed twice. */
  lemma ExecutedTwice(id: string, ruleID: string, tallies: seq<Tally>)
    ensures var s := Run(true, tallies, TwiceSteps(id, ruleID));
      |s.proposals| == 1 && !s.proposals[0].requiresApproval && Acts(Trace(s.log, 0)) == 2
  {
    var steps, p := TwiceSteps(id, ruleID), Proposal(id, ruleID, false, Pending);
    var entry := (e: Event) => LogEntry(0, ruleID, e);
    var l1 := [entry(ApproveEvent)];
    var l2 := l1 + [entry(BeginEvent)];
    var l3 := l2 + [entry(ActEvent(true))];
    var l4 := l3 + [entry(BeginEvent)];
    var l5 := l4 + [entry(ActEvent(true))];
    var s1 := State([p], [Task(0, Waiting)], tallies, []);
    var s2 := State([p.(status := Approved)], [Task(0, Waiting), Task(0, Waiting)], tallies, l1);
    var s3 := State([p.(status := Executing)], [Task(0, Begun), Task(0, Waiting)], tallies, l2);
    var s4 := State([p.(status := Executing)], [Task(0, Acted(true)), Task(0, Waiting)], tallies, l3);
    var s5 := State([p.(status := Executing)], [Task(0, Acted(true)), Task(0, Begun)], tallies, l4);
    var s6 := State([p.(status := Executing)], [Task(0, Acted(true)), Task(0, Acted(true))], tallies, l5);
    assert s1 == Next(true, Start(tallies), steps[0]);
    assert s2 == Next(true, s1, steps[1]);
    assert s3 == Next(true, s2, steps[2]);
    assert s4 == Next(true, s3, steps[3]);
    assert s5 == Next(true, s4, steps[4]);
    assert s6 == Next(true, s5, steps[5]);
    hide Next;
    RunStep(tallies, steps, 1, Start(tallies), s1);
    RunStep(tallies, steps, 2, s1, s2);
    RunStep(tallies, steps, 3, s2, s3);
    RunStep(tallies, steps, 4, s3, s4);
    RunStep(tallies, steps, 5, s4, s5);
    RunStep(tallies, steps, 6, s5, s6);
    assert steps[..6] == steps;
    TwoActs(ruleID, l1, l2, l3, l4, l5);
  }

  lemma TwoActs(ruleID: string, l1: seq<LogEntry>, l2: seq<LogEntry>, l3: seq<LogEntry>, l4: seq<LogEntry>, l5: seq<LogEntry>)
    requires l1 == [LogEntry(0, ruleID, ApproveEvent)]
    requires l2 == l1 + [LogEntry(0, ruleID, BeginEvent)] && l3 == l2 + [LogEntry(0, ruleID, ActEvent(true))]
    requires l4 == l3 + [LogEntry(0, ruleID, BeginEvent)] && l5 == l4 + [LogEntry(0, ruleID, ActEvent(true))]
    ensures Acts(Trace(l5, 0)) == 2
  {
    assert l1 == [] + [LogEntry(0, ruleID, ApproveEvent)];
    TraceAppend([], LogEntry(0, ruleID, ApproveEvent), 0);
    TraceAppend(l1, LogEntry(0, ruleID, BeginEvent), 0);
    TraceAppend(l2, LogEntry(0, ruleID, ActEvent(true)), 0);
    TraceAppend(l3, LogEntry(0, ruleID, BeginEvent), 0);
    TraceAppend(l4, LogEntry(0, ruleID, ActEvent(true)), 0);
    ActsAppend([], ApproveEvent);
    ActsAppend(Trace(l1, 0), BeginEvent);
    ActsAppend(Trace(l2, 0), ActEvent(true));
    ActsAppend(Trace(l3, 0), BeginEvent);
    ActsAppend(Trace(l4, 0), ActEvent(true));
  }

  lemma ActsAppend(trace: seq<Event>, e: Event)
    ensures Acts(trace + [e]) == Acts(trace) + if e.ActEvent? then 1 else 0
  {
    assert (trace + [e])[..|trace|] == trace;
  }

  lemma RunStep(tallies: seq<Tally>, steps: seq<Step>, n: nat, s: State, r: State)
    requires 1 <= n <= |steps| && InRange(s) && Run(true, tallies, steps[..n - 1]) == s && r == Next(true, s, steps[n - 1])
    ensures Run(true, tallies, steps[..n]) == r
  {
    assert steps[..n][..n - 1] == steps[..n - 1];
  }

  /** The action of a proposal runs at most once in every run exactly if it requires approval. */
  lemma RunsOnceIffApprovalRequired(requiresApproval: bool)
    ensures RunsOnce(requiresApproval) <==> requiresApproval
  {
    if requiresApproval {
      forall hasExecutor, tallies, steps, i: nat |
        var s := Run(hasExecutor, tallies, steps);
        i < |s.proposals| && s.proposals[i].requiresApproval
        ensures Acts(Trace(Run(hasExecutor, tallies, steps).log, i)) <= 1
      {
        Lifecycle(hasExecutor, tallies, steps, i);
        var trace := Trace(Run(hasExecutor, tallies, steps).log, i);
        ActsOfPrefix(trace, trace <= Executed(true));
      }
    } else {
      ExecutedTwice("p", "", []);
    }
  }

  // ---------- Counts ----------

  /** The counts after the outcomes of a history. */
  function Replay(tallies: seq<Tally>, log: seq<LogEntry>): seq<Tally> {
    if log == [] then tallies
    else
      var e, before := log[|log| - 1], Replay(tallies, log[..|log| - 1]);
      if e.event.OutcomeEvent? && e.ruleID != "" then BumpFirst(before, e.ruleID, e.event.ok) else before
  }

  /** History entries carry the rule of their proposal, and the counts are what the history says. */
  ghost predicate Accounted(tallies: seq<Tally>, s: State) {
    && s.tallies == Replay(tallies, s.log)
    && forall n :: 0 <= n < |s.log| ==>
         s.log[n].proposal < |s.proposals| && s.log[n].ruleID == s.proposals[s.log[n].proposal].ruleID
  }

  lemma ReplayAppend(tallies: seq<Tally>, log: seq<LogEntry>, e: LogEntry)
    ensures Replay(tallies, log + [e]) ==
      (if e.event.OutcomeEvent? && e.ruleID != "" then BumpFirst(Replay(tallies, log), e.ruleID, e.event.ok) else Replay(tallies, log))
  {
    assert (log + [e])[..|log|] == log;
  }

  lemma {:induction false} CountsAreOutcomes(hasExecutor: bool, tallies: seq<Tally>, steps: seq<Step>)
    ensures Accounted(tallies, Run(hasExecutor, tallies, steps))
  {
    if steps != [] {
      CountsAreOutcomes(hasExecutor, tallies, steps[..|steps| - 1]);
      var s := Run(hasExecutor, tallies, steps[..|steps| - 1]);
      StepAccounted(hasExecutor, tallies, s, steps[|steps| - 1]);
    }
  }

  /** One more history entry, with its effect on the counts. */
  lemma EntryAccounted(tallies: seq<Tally>, s: State, r: State, i: nat, event: Event)
    requires Accounted(tallies, s) && i < |s.proposals| == |r.proposals|
    requires forall j :: 0 <= j < |s.proposals| ==> r.proposals[j].ruleID == s.proposals[j].ruleID
    requires r.log == s.log + [LogEntry(i, s.proposals[i].ruleID, event)]
    requires r.tallies == (if event.OutcomeEvent? && s.proposals[i].ruleID != ""
                           then BumpFirst(s.tallies, s.proposals[i].ruleID, event.ok) else s.tallies)
    ensures Accounted(tallies, r)
  {
    hide BumpFirst, Replay;
    ReplayAppend(tallies, s.log, LogEntry(i, s.proposals[i].ruleID, event));
  }

  lemma StepAccounted(hasExecutor: bool, tallies: seq<Tally>, s: State, step: Step)
    requires InRange(s) && Accounted(tallies, s)
    ensures Accounted(tallies, Next(hasExecutor, s, step))
  {
    hide BumpFirst, Replay, Accounted, Find;
    var r := Next(hasExecutor, s, step);
    match step
    case Process(_, _, _) =>
      MoreProposals(tallies, s, r);
    case Approve(id) =>
      var p := Find(s.proposals, id);
      if p < |s.proposals| && s.proposals[p].status == Pending {
        EntryAccounted(tallies, s, r, p, ApproveEvent);
      }
    case Reject(id) =>
      var p := Find(s.proposals, id);
      if p < |s.proposals| && s.proposals[p].status == Pending {
        var q := Logged(WithStatus(s, p, Rejected), p, RejectEvent);
        EntryAccounted(tallies, s, q, p, RejectEvent);
        EntryAccounted(tallies, q, r, p, OutcomeEvent(false));
      }
    case Advance(k, ok) =>
      if k < |s.tasks| {
        AdvanceAccounted(hasExecutor, tallies, s, k, ok);
      }
  }

  lemma MoreProposals(tallies: seq<Tally>, s: State, r: State)
    requires Accounted(tallies, s)
    requires s.proposals <= r.proposals && r.tallies == s.tallies && r.log == s.log
    ensures Accounted(tallies, r)
  {
  }

  lemma AdvanceAccounted(hasExecutor: bool, tallies: seq<Tally>, s: State, k: nat, ok: bool)
    requires InRange(s) && Accounted(tallies, s) && k < |s.tasks|
    ensures Accounted(tallies, Advanced(hasExecutor, s, k, ok))
  {
    hide BumpFirst, Replay, Accounted;
    var p, r := s.tasks[k].proposal, Advanced(hasExecutor, s, k, ok);
    match s.tasks[k].phase
    case Waiting =>
      if hasExecutor {
        EntryAccounted(tallies, s, r, p, BeginEvent);
      } else {
        MoreProposals(tallies, s, r);
      }
    case Begun => EntryAccounted(tallies, s, r, p, ActEvent(ok));
    case Acted(o) => EntryAccounted(tallies, s, r, p, SettleEvent(o));
    case Settled(o) => EntryAccounted(tallies, s, r, p, OutcomeEvent(o));
    case Reported(_) =>
    case Idle =>
  }

  function OutcomesFor(log: seq<LogEntry>, ruleID: string, ok: bool): nat {
    if log == [] then 0
    else
      var n := |log| - 1;
      OutcomesFor(log[..n], ruleID, ok) + if log[n].ruleID == ruleID && log[n].event == OutcomeEvent(ok) then 1 else 0
  }

  /** The counts of a rule grow by exactly its recorded successes and failures. */
  lemma {:induction false} TallyGrowth(tallies: seq<Tally>, log: seq<LogEntry>, k: nat)
    requires k < |tallies| && tallies[k].ruleID != ""
    requires forall i, j :: 0 <= i < j < |tallies| ==> tallies[i].ruleID != tallies[j].ruleID
    ensures var after, id := Replay(tallies, log), tallies[k].ruleID;
      && |after| == |tallies| && (forall j :: 0 <= j < |after| ==> after[j].ruleID == tallies[j].ruleID)
      && after[k] == Tally(id, tallies[k].successes + OutcomesFor(log, id, true), tallies[k].failures + OutcomesFor(log, id, false))
  {
    if log != [] {
      var n := |log| - 1;
      TallyGrowth(tallies, log[..n], k);
      var before, e := Replay(tallies, log[..n]), log[n];
      if e.event.OutcomeEvent? && e.ruleID != "" {
        BumpedAt(before, e.ruleID, e.event.ok);
      }
    }
  }

  lemma BumpedAt(ts: seq<Tally>, id: string, ok: bool)
    requires forall i, j :: 0 <= i < j < |ts| ==> ts[i].ruleID != ts[j].ruleID
    ensures var r := BumpFirst(ts, id, ok);
      |r| == |ts| && forall j :: 0 <= j < |ts| ==> r[j] == if ts[j].ruleID == id then Bump(ts[j], ok) else ts[j]
  {
    if i :| 0 <= i < |ts| && ts[i].ruleID == id {
      assert forall j :: 0 <= j < i ==> ts[j].ruleID != id;
      BumpFirstAt(ts, id, ok, i);
      forall j | 0 <= j < |ts| && j != i ensures ts[j].ruleID != id {
        if j < i { assert ts[j].ruleID != ts[i].ruleID; } else { assert ts[i].ruleID != ts[j].ruleID; }
      }
    } else {
      BumpFirstAbsent(ts, id, ok);
    }
  }
}
