/** The proposal manager as an object (layer6/manager.go:107-204, 276-318). */
module Managers {
  import opened Common
  import opened Rules
  import opened RuleEngines
  import P = Proposals

  class ActionProposal {
    const id: string
    const ruleID: string
    const requiresApproval: bool
    var status: P.Status

    constructor (id: string, ruleID: string, requiresApproval: bool)
      ensures View() == P.Proposal(id, ruleID, requiresApproval, P.Pending)
    {
      this.id, this.ruleID, this.requiresApproval, status := id, ruleID, requiresApproval, P.Pending;
    }

    function View(): P.Proposal
      reads this
    {
      P.Proposal(id, ruleID, requiresApproval, status)
    }
  }

  ghost function ViewsOf(ps: seq<ActionProposal>): seq<P.Proposal>
    reads ps
  {
    seq(|ps|, i requires 0 <= i < |ps| reads ps => ps[i].View())
  }

  /**
   The list of proposals only grows, so a goroutine names its proposal by its place in the list.
   Every method is one step of the machine of the module Proposals.
   */
  class Manager {
    const engine: RuleEngine
    const hasExecutor: bool
    var proposals: seq<ActionProposal>
    var tasks: seq<P.Task>
    ghost var log: seq<P.LogEntry>

    ghost predicate Valid()
      reads this, engine
    {
      && engine.Valid()
      && (forall i, j :: 0 <= i < j < |proposals| ==> proposals[i] != proposals[j])
      && forall k :: 0 <= k < |tasks| ==> tasks[k].proposal < |proposals|
    }

    ghost function Views(): seq<P.Proposal>
      reads this`proposals, proposals
    {
      ViewsOf(proposals)
    }

    ghost function State(): P.State
      reads this, proposals, engine, engine.rules
    {
      P.State(Views(), tasks, engine.Tallies(), log)
    }

    constructor (engine: RuleEngine, hasExecutor: bool)
      requires engine.Valid()
      ensures Valid() && this.engine == engine && this.hasExecutor == hasExecutor
      ensures State() == P.Start(engine.Tallies())
    {
      this.engine, this.hasExecutor := engine, hasExecutor;
      proposals, tasks, log := [], [], [];
    }

    /** `id` is the fresh identifier the proposal gets. */
    method ProcessEvent(event: SystemEvent, folded: (string, string) -> bool, id: string) returns (d: Option<Draft>)
      requires Valid()
      modifies this
      ensures Valid()
      ensures State() == if d.None? then old(State())
                         else P.Next(hasExecutor, old(State()), P.Process(id, d.value.ruleID, d.value.requiresApproval))
      ensures d.Some? ==> Views() == old(Views()) + [P.Proposal(id, d.value.ruleID, d.value.requiresApproval, P.Pending)]
      ensures d.Some? ==> tasks == old(tasks) + if d.value.requiresApproval then [] else [P.Task(|old(proposals)|, P.Waiting)]
      ensures d.Some? ==> exists k :: 0 <= k < |engine.rules| && engine.Winner(k, event, folded)
                                      && d.value == engine.DraftFor(engine.rules[k], event.entityID)
    {
      hide P.Next;
      d := engine.Evaluate(event, folded);
      if d.Some? {
        Issue(d.value, id);
      }
    }

    /** Stores the proposal, and starts its goroutine at once if no approval is required. */
    method Issue(draft: Draft, id: string)
      requires Valid()
      modifies this
      ensures Valid()
      ensures State() == P.Next(hasExecutor, old(State()), P.Process(id, draft.ruleID, draft.requiresApproval))
      ensures Views() == old(Views()) + [P.Proposal(id, draft.ruleID, draft.requiresApproval, P.Pending)]
      ensures tasks == old(tasks) + if draft.requiresApproval then [] else [P.Task(|old(proposals)|, P.Waiting)]
    {
      var proposal := new ActionProposal(id, draft.ruleID, draft.requiresApproval);
      ghost var views := Views();
      proposals := proposals + [proposal];
      assert Views() == views + [proposal.View()];
      if !proposal.requiresApproval {
        tasks := tasks + [P.Task(|proposals| - 1, P.Waiting)];
      }
    }

    /** The place of the first proposal with the id. */
    method Find(id: string) returns (k: nat)
      requires Valid()
      ensures k == P.Find(Views(), id)
    {
      k := 0;
      while k < |proposals| && proposals[k].id != id
        invariant k <= |proposals| && forall j :: 0 <= j < k ==> proposals[j].id != id
      {
        k := k + 1;
      }
      ghost var found := P.Find(Views(), id);
      assert k < |proposals| ==> Views()[k].id == id;
      assert found < |proposals| ==> Views()[found].id == id;
      assert forall j :: 0 <= j < found ==> Views()[j].id != id;
    }

    method SetStatus(i: nat, status: P.Status)
      requires Valid() && i < |proposals|
      modifies proposals[i]
      ensures Valid() && State() == P.WithStatus(old(State()), i, status) && proposals[i].status == status
    {
      ghost var views := Views();
      proposals[i].status := status;
      assert forall j :: 0 <= j < |proposals| && j != i ==> proposals[j] != proposals[i];
      assert Views() == views[i := views[i].(status := status)];
    }

    ghost method Note(i: nat, event: P.Event)
      requires Valid() && i < |proposals|
      modifies this`log
      ensures Valid() && State() == P.Logged(old(State()), i, event)
    {
      log := log + [P.LogEntry(i, proposals[i].ruleID, event)];
    }

    /** A new goroutine for proposal `i`. */
    method Launch(i: nat)
      requires Valid() && i < |proposals|
      modifies this`tasks
      ensures Valid() && tasks == old(tasks) + [P.Task(i, P.Waiting)]
      ensures State() == old(State()).(tasks := tasks) && proposals == old(proposals)
    {
      tasks := tasks + [P.Task(i, P.Waiting)];
    }

    method SetPhase(k: nat, phase: P.Phase)
      requires Valid() && k < |tasks|
      modifies this`tasks
      ensures Valid() && State() == P.ToPhase(old(State()), k, phase) && proposals == old(proposals)
    {
      tasks := tasks[k := tasks[k].(phase := phase)];
    }

    /** One outcome more for the rule of proposal `k`, if it names one, and for no other. */
    ghost predicate CountedOnce(k: int, succeeded: bool, before: seq<Tally>, after: seq<Tally>)
      requires 0 <= k < |proposals|
      reads this, proposals
    {
      && |after| == |before|
      && forall j :: 0 <= j < |before| ==>
           var hit := proposals[k].ruleID != "" && before[j].ruleID == proposals[k].ruleID;
           && after[j].ruleID == before[j].ruleID
           && after[j].successes == before[j].successes + (if hit && succeeded then 1 else 0)
           && after[j].failures == before[j].failures + (if hit && !succeeded then 1 else 0)
    }

    /** Counted for the rule, if the proposal names one (layer6/learning.go:22-27). */
    method RecordOutcome(i: nat, succeeded: bool)
      requires Valid() && i < |proposals|
      modifies this`log, engine.rules
      ensures Valid() && State() == P.Recorded(old(State()), i, succeeded) && proposals == old(proposals)
      ensures CountedOnce(i, succeeded, old(engine.Tallies()), engine.Tallies())
    {
      hide BumpFirst;
      ghost var views := Views();
      if proposals[i].ruleID != "" {
        P.BumpedAt(engine.Tallies(), proposals[i].ruleID, succeeded);
        engine.UpdateStats(proposals[i].ruleID, succeeded);
      }
      assert Views() == views;
      Note(i, P.OutcomeEvent(succeeded));
    }

    method ApproveProposal(id: string) returns (ok: bool)
      requires Valid()
      modifies this`tasks, this`log, proposals
      ensures Valid() && State() == P.Next(hasExecutor, old(State()), P.Approve(id))
      ensures ok <==> exists k :: 0 <= k < |proposals| && k == P.Find(old(Views()), id) && old(proposals[k].status) == P.Pending
      ensures ok ==> exists k :: 0 <= k < |proposals| && k == P.Find(old(Views()), id)
                                 && proposals[k].status == P.Approved && tasks == old(tasks) + [P.Task(k, P.Waiting)]
    {
      hide P.Next, P.Recorded, P.Find, P.WithStatus;
      var k := Find(id);
      P.NextDecides(hasExecutor, State(), id, k);
      if k == |proposals| || proposals[k].status != P.Pending {
        return false;
      }
      SetStatus(k, P.Approved);
      Launch(k);
      Note(k, P.ApproveEvent);
      return true;
    }

    method RejectProposal(id: string) returns (ok: bool)
      requires Valid()
      modifies this`log, proposals, engine.rules
      ensures Valid() && State() == P.Next(hasExecutor, old(State()), P.Reject(id))
      ensures ok <==> exists k :: 0 <= k < |proposals| && k == P.Find(old(Views()), id) && old(proposals[k].status) == P.Pending
      ensures ok ==> exists k :: 0 <= k < |proposals| && k == P.Find(old(Views()), id) && proposals[k].status == P.Rejected
                                 && CountedOnce(k, false, old(engine.Tallies()), engine.Tallies())
    {
      hide P.Next, P.Recorded;
      var k := Find(id);
      P.NextDecides(hasExecutor, State(), id, k);
      if k == |proposals| || proposals[k].status != P.Pending {
        return false;
      }
      SetStatus(k, P.Rejected);
      Note(k, P.RejectEvent);
      RecordOutcome(k, false);
      return true;
    }

    /** The next effect of a running `executeProposal`; `ok` is what the executor answers if it is called now. */
    method ExecuteStep(k: nat, ok: bool)
      requires Valid() && k < |tasks|
      modifies this`tasks, this`log, proposals, engine.rules
      ensures Valid() && State() == P.Next(hasExecutor, old(State()), P.Advance(k, ok))
    {
      hide P.Next, P.Advanced, P.Recorded, P.Logged, P.WithStatus, P.ToPhase;
      P.NextAdvance(hasExecutor, State(), k, ok);
      P.AdvancedCases(hasExecutor, State(), k, ok);
      var i := tasks[k].proposal;
      match tasks[k].phase
      case Waiting =>
        if !hasExecutor {
          SetPhase(k, P.Idle);
          return;
        }
        SetPhase(k, P.Begun);
        SetStatus(i, P.Executing);
        Note(i, P.BeginEvent);
      case Begun =>
        SetPhase(k, P.Acted(ok));
        Note(i, P.ActEvent(ok));
      case Acted(o) =>
        SetPhase(k, P.Settled(o));
        SetStatus(i, if o then P.Completed else P.Failed);
        Note(i, P.SettleEvent(o));
      case Settled(o) =>
        SetPhase(k, P.Reported(o));
        RecordOutcome(i, o);
      case Reported(_) =>
      case Idle =>
    }
  }
}
