/**
 * Concurrent clients of one store. Each locked block is one atomic step, so an approval is three steps, the clock
 * reading it starts with, its read and its write, with anything in between.
 */
module Protocol {
  import opened PyText
  import opened DualControl
  import opened DualControlStore

  /**
   * A call of `evaluate_approval`. `began` is the time it started at, and `current` the time it checks against: what
   * the clock said then, or the one its caller gave.
   */
  datatype Evaluation = Evaluation(request: Request, approval: Approval, token: Token,
                                   began: Time, given: Option<Time>, current: Time, stage: Stage)

  /** `checked` is the stored request the checks were made against. */
  datatype Stage = Reading | Writing(checked: Request) | Finished(outcome: Outcome)

  /** A finished call of `mark_executed`, with the clock reading of its expiry test. */
  datatype Execution = Execution(id: string, outcome: Outcome, at: Time)

  /**
   * `issued` holds every request ever created: identifiers are random and never used for two requests.
   * Finished calls stay in `evaluations` and `executions`, so those two are the history of the run.
   */
  datatype World = World(records: Records, issued: map<string, Request>,
                         evaluations: map<nat, Evaluation>, executions: map<nat, Execution>, now: Time)

  ghost predicate Init(w: World) {
    w.records == map[] && w.issued == map[] && w.evaluations == map[] && w.executions == map[]
  }

  datatype Step =
    | Issue(operation: Operation, token: Token, digest: string, asked: Option<StepUpLevel>, ttl: int, id: string)
    | Create(id: string)
    | EvaluationBegin(call: nat, request: Request, approval: Approval, token: Token, given: Option<Time>, current: Time)
    | EvaluationRead(call: nat)
    | EvaluationWrite(call: nat)
    | MarkExecuted(call: nat, id: string, found: Option<Record>, checkedAt: Time)
    | Cleanup(clock: string -> Time)
    | Tick

  function Lookup(records: Records, id: string): Option<Record> {
    if id in records then Some(records[id]) else None
  }

  /** Clock readings of a step lie between the time before it and the time after it. */
  ghost predicate AnyStep(w: World, w': World, step: Step) {
    && w.now <= w'.now
    && match step
       case Issue(operation, token, digest, asked, ttl, id) =>
         var r := CreateRequest(operation, token, digest, asked, ttl, id, w.now, w'.now);
         && r.Ok?
         && w' == w.(issued := w.issued[id := r.value], now := w'.now)
       case Create(id) =>
         && id in w.issued
         && var r := WithCreated(w.records, w.issued[id], w'.now);
         w' == w.(records := if r.Ok? then r.value else w.records, now := w'.now)
       case EvaluationBegin(call, request, approval, token, given, current) =>
         && call !in w.evaluations
         && (if given.Some? then current == given.value else w.now <= current <= w'.now)
         && var e := Evaluation(request, approval, token, w.now, given, current, Reading);
         w' == w.(evaluations := w.evaluations[call := e], now := w'.now)
       case EvaluationRead(call) =>
         && call in w.evaluations && w.evaluations[call].stage.Reading?
         && var e := w.evaluations[call];
         var found := Lookup(w.records, e.request.id);
         var read := EvaluateRead(found, e.request, e.approval, e.token, e.current);
         var stage := if read.IsApproved() then Writing(found.value.request) else Finished(read);
         w' == w.(evaluations := w.evaluations[call := e.(stage := stage)], now := w'.now)
       case EvaluationWrite(call) =>
         && call in w.evaluations && w.evaluations[call].stage.Writing?
         && var e := w.evaluations[call];
         var checked := e.stage.checked;
         var r := WithApproval(w.records, checked.id, e.approval, w'.now);
         var outcome := if r.Ok? then Deny(checked, Approved, Satisfied) else Deny(checked, Rejected, RejectedByStore);
         w' == w.(records := if r.Ok? then r.value else w.records,
                  evaluations := w.evaluations[call := e.(stage := Finished(outcome))], now := w'.now)
       case MarkExecuted(call, id, found, checkedAt) =>
         var r := WithExecuted(w.records, id, checkedAt, w'.now);
         var operation := if found.Some? then found.value.request.operation else ServiceRepair;
         var outcome := Decided(if r.Ok? then Decision(Executed, id, operation, MarkedExecuted)
                                else Decision(Failed, id, operation, StoreError));
         && call !in w.executions && w.now <= checkedAt <= w'.now
         && w' == w.(records := if r.Ok? then r.value else w.records,
                     executions := w.executions[call := Execution(id, outcome, checkedAt)], now := w'.now)
       case Cleanup(clock) =>
         && (forall id :: id in w.records ==> w.now <= clock(id) <= w'.now)
         && w' == w.(records := WithoutExpired(w.records, clock), now := w'.now)
       case Tick => w' == w.(now := w'.now)
  }

  /** No identifier is issued twice. */
  predicate Fresh(w: World, step: Step) { step.Issue? ==> step.id !in w.issued }

  ghost predicate NextStep(w: World, w': World, step: Step) { AnyStep(w, w', step) && Fresh(w, step) }

  ghost predicate Next(w: World, w': World, distinct: bool) {
    exists step :: AnyStep(w, w', step) && (distinct ==> Fresh(w, step))
  }

  ghost predicate StepAt(ws: seq<World>, i: nat, distinct: bool)
    requires 0 < i < |ws|
  {
    Next(ws[i - 1], ws[i], distinct)
  }

  /** A run from an empty store; `distinct` says whether identifiers are fresh in it. */
  ghost predicate RunWith(ws: seq<World>, distinct: bool) {
    ws != [] && Init(ws[0]) && forall i :: 0 < i < |ws| ==> StepAt(ws, i, distinct)
  }

  ghost predicate Run(ws: seq<World>) { RunWith(ws, true) }

  // ---- The property

  predicate ApprovedBy(w: World, call: nat, id: string) {
    && call in w.evaluations && w.evaluations[call].stage.Finished?
    && w.evaluations[call].stage.outcome.IsApproved()
    && w.evaluations[call].stage.outcome.decision.requestId == id
  }

  predicate ExecutedBy(w: World, call: nat, id: string) {
    && call in w.executions && w.executions[call].id == id
    && w.executions[call].outcome.Decided? && w.executions[call].outcome.decision.state == Executed
  }

  ghost predicate AtMostOneApproval(w: World) {
    forall id, a, b :: ApprovedBy(w, a, id) && ApprovedBy(w, b, id) ==> a == b
  }

  ghost predicate AtMostOneExecution(w: World) {
    forall id, a, b :: ExecutedBy(w, a, id) && ExecutedBy(w, b, id) ==> a == b
  }

  /** The record's approval is for this very request, by another principal, whose token was strong enough. */
  ghost predicate Vouched(w: World, id: string, call: nat) {
    && id in w.records && call in w.evaluations && id in w.issued
    && var record, e := w.records[id], w.evaluations[call];
    && ApprovedBy(w, call, id)
    && record.request == w.issued[id] && record.approval == Some(e.approval)
    && DualControlled(record.request, e.approval, e.token, e.current)
    && e.token.level.AtLeast(RequiredStepUp(record.request.operation))
  }

  ghost predicate ExecutedInTime(w: World, id: string, call: nat) {
    && id in w.records && ExecutedBy(w, call, id)
    && w.executions[call].at < w.records[id].request.expiresAt
  }

  ghost predicate Safety(w: World) {
    && AtMostOneApproval(w) && AtMostOneExecution(w)
    && forall id :: id in w.records && w.records[id].state == Executed ==>
         && (exists call :: Vouched(w, id, call))
         && (exists call :: ExecutedInTime(w, id, call))
  }

  // ---- The invariant

  ghost predicate Inv(w: World) { Basics(w) && Approvals(w) && Executions(w) }

  ghost predicate Basics(w: World) {
    && Proper(w.records)
    && (forall id :: id in w.issued ==> w.issued[id].id == id)
    && (forall id :: id in w.issued ==> w.issued[id].stepUp.AtLeast(RequiredStepUp(w.issued[id].operation)))
    && RecordsOfIssued(w.records, w.issued)
    && (forall call :: call in w.evaluations && w.evaluations[call].stage.Writing? ==> PassedChecks(w, call))
    && (forall call :: call in w.evaluations ==> Timely(w.evaluations[call]))
  }

  /** A call that was given no time checks against one no earlier than its start. */
  predicate Timely(e: Evaluation) { e.given.None? ==> e.began <= e.current }

  /** A call about to write passed every check against the one request that ever carries its identifier. */
  ghost predicate PassedChecks(w: World, call: nat)
    requires call in w.evaluations && w.evaluations[call].stage.Writing?
  {
    var e := w.evaluations[call];
    var checked := e.stage.checked;
    && checked.id in w.issued && w.issued[checked.id] == checked
    && DualControlled(checked, e.approval, e.token, e.current)
  }

  predicate Settled(records: Records, id: string) { id in records && records[id].state != Pending }

  ghost predicate Approvals(w: World) {
    && (forall id, call :: ApprovedBy(w, call, id) ==> Vouched(w, id, call) && Settled(w.records, id))
    && (forall id :: Settled(w.records, id) ==> exists call :: ApprovedBy(w, call, id))
    && AtMostOneApproval(w)
  }

  predicate Done(records: Records, id: string) { id in records && records[id].state == Executed }

  ghost predicate Executions(w: World) {
    && (forall id, call :: ExecutedBy(w, call, id) ==> ExecutedInTime(w, id, call) && Done(w.records, id))
    && (forall id :: Done(w.records, id) ==> exists call :: ExecutedBy(w, call, id))
    && AtMostOneExecution(w)
  }

  lemma InvImpliesSafety(w: World)
    requires Inv(w)
    ensures Safety(w)
  {
    forall id | id in w.records && w.records[id].state == Executed
      ensures (exists call :: Vouched(w, id, call)) && exists call :: ExecutedInTime(w, id, call)
    {
      assert Settled(w.records, id) && Done(w.records, id);
      var a :| ApprovedBy(w, a, id);
      assert Vouched(w, id, a);
      var b :| ExecutedBy(w, b, id);
      assert ExecutedInTime(w, id, b);
    }
  }

  // ---- Steps that finish no call

  /** No call is approved and no request settled that was not before; what was stays. */
  ghost predicate SameApprovals(w: World, w': World) {
    && (forall id, call :: ApprovedBy(w', call, id) <==> ApprovedBy(w, call, id))
    && (forall id :: Settled(w'.records, id) <==> Settled(w.records, id))
    && (forall id :: Settled(w.records, id) ==> w'.records[id].request == w.records[id].request
                                                && w'.records[id].approval == w.records[id].approval)
    && (forall call :: call in w.evaluations && w.evaluations[call].stage.Finished? ==>
          call in w'.evaluations && w'.evaluations[call] == w.evaluations[call])
    && (forall id :: id in w.issued ==> id in w'.issued && w'.issued[id] == w.issued[id])
  }

  lemma ApprovalsKept(w: World, w': World)
    requires Approvals(w) && SameApprovals(w, w')
    ensures Approvals(w')
  {
    forall id, call | ApprovedBy(w', call, id) ensures Vouched(w', id, call) && Settled(w'.records, id) {
      assert ApprovedBy(w, call, id) && Vouched(w, id, call) && Settled(w.records, id);
    }
    forall id | Settled(w'.records, id) ensures exists call :: ApprovedBy(w', call, id) {
      var call :| ApprovedBy(w, call, id);
      assert ApprovedBy(w', call, id);
    }
  }

  ghost predicate SameExecutions(w: World, w': World) {
    && w'.executions == w.executions
    && (forall id :: Done(w'.records, id) <==> Done(w.records, id))
    && (forall id :: Done(w.records, id) ==> w'.records[id].request == w.records[id].request)
  }

  lemma ExecutionsKept(w: World, w': World)
    requires Executions(w) && SameExecutions(w, w')
    ensures Executions(w')
  {
    assert forall id, call :: ExecutedBy(w', call, id) <==> ExecutedBy(w, call, id);
    forall id | Done(w'.records, id) ensures exists call :: ExecutedBy(w', call, id) {
      var call :| ExecutedBy(w, call, id);
      assert ExecutedBy(w', call, id);
    }
  }

  /** The calls about to write are those of before, and perhaps one that has just passed the checks. */
  lemma WritersPassedChecks(w: World, w': World, step: Step)
    requires Basics(w) && NextStep(w, w', step)
    ensures forall call :: call in w'.evaluations && w'.evaluations[call].stage.Writing? ==> PassedChecks(w', call)
  {
    forall call | call in w'.evaluations && w'.evaluations[call].stage.Writing? ensures PassedChecks(w', call) {
      if step.EvaluationRead? && call == step.call {
        var e := w.evaluations[call];
        assert EvaluateRead(Lookup(w.records, e.request.id), e.request, e.approval, e.token, e.current).IsApproved();
      } else {
        assert call in w.evaluations && PassedChecks(w, call);
      }
    }
  }

  lemma TimesKept(w: World, w': World, step: Step)
    requires Basics(w) && NextStep(w, w', step)
    ensures forall call :: call in w'.evaluations ==> Timely(w'.evaluations[call])
  {}

  ghost predicate RecordsOfIssued(records: Records, issued: map<string, Request>) {
    forall id :: id in records ==> id in issued && records[id].request == issued[id]
  }

  /** The clock that the records of a step are held against. */
  function ClockOf(step: Step, now: Time): string -> Time { if step.Cleanup? then step.clock else _ => now }

  /** A step leaves the records alone or performs one of the store's operations on them. */
  lemma StepIsOperation(w: World, w': World, step: Step)
    requires NextStep(w, w', step)
    ensures w'.records == w.records || ResultOf(w.records, w'.records, ClockOf(step, w'.now))
  {
    match step {
      case Create(id) => var r := WithCreated(w.records, w.issued[id], w'.now);
      case EvaluationWrite(call) =>
        var e := w.evaluations[call];
        var r := WithApproval(w.records, e.stage.checked.id, e.approval, w'.now);
      case MarkExecuted(_, id, _, checkedAt) => var r := WithExecuted(w.records, id, checkedAt, w'.now);
      case _ =>
    }
  }

  lemma ProperKept(w: World, w': World, step: Step)
    requires Proper(w.records) && NextStep(w, w', step)
    ensures Proper(w'.records) && StoreStep(w.records, w'.records, ClockOf(step, w'.now))
  {
    StepIsOperation(w, w', step);
    if w'.records == w.records {
      UnchangedKeepsProper(w.records, ClockOf(step, w'.now));
    } else {
      OperationsKeepProper(w.records, w'.records, ClockOf(step, w'.now));
    }
  }

  lemma UnchangedKeepsProper(records: Records, clock: string -> Time)
    requires Proper(records)
    ensures StoreStep(records, records, clock)
  {}

  lemma IssuedGrows(w: World, w': World, step: Step)
    requires NextStep(w, w', step)
    ensures w.now <= w'.now && forall id :: id in w.issued ==> id in w'.issued && w'.issued[id] == w.issued[id]
  {}

  lemma NewRecords(w: World, w': World, step: Step)
    requires Basics(w) && NextStep(w, w', step)
    ensures forall id :: id in w'.records && id !in w.records ==>
            id in w.issued && w'.records[id].request == w.issued[id]
  {
    if !step.Create? {
      assert forall id :: id in w'.records ==> id in w.records;
    }
  }

  lemma RecordsKept(w: World, w': World, step: Step)
    requires Basics(w) && NextStep(w, w', step)
    ensures RecordsOfIssued(w'.records, w'.issued)
  {
    ProperKept(w, w', step);
    IssuedGrows(w, w', step);
    NewRecords(w, w', step);
    StillOfIssued(w.records, w.issued, w'.records, w'.issued, ClockOf(step, w'.now));
  }

  lemma StillOfIssued(records: Records, issued: map<string, Request>, records': Records, issued': map<string, Request>,
                      clock: string -> Time)
    requires RecordsOfIssued(records, issued) && StoreStep(records, records', clock)
    requires forall id :: id in issued ==> id in issued' && issued'[id] == issued[id]
    requires forall id :: id in records' && id !in records ==> id in issued && records'[id].request == issued[id]
    ensures RecordsOfIssued(records', issued')
  {}

  lemma IssuedKept(w: World, w': World, step: Step)
    requires Basics(w) && NextStep(w, w', step)
    ensures forall id :: id in w'.issued ==>
              w'.issued[id].id == id && w'.issued[id].stepUp.AtLeast(RequiredStepUp(w'.issued[id].operation))
  {
    if !step.Issue? {
      assert w'.issued == w.issued;
    }
  }

  lemma BasicsKept(w: World, w': World, step: Step)
    requires Basics(w) && NextStep(w, w', step)
    ensures Basics(w')
  {
    WritersPassedChecks(w, w', step);
    TimesKept(w, w', step);
    ProperKept(w, w', step);
    RecordsKept(w, w', step);
    IssuedKept(w, w', step);
  }

  predicate Quiet(step: Step) { !step.EvaluationWrite? && !step.MarkExecuted? }

  lemma QuietCalls(w: World, w': World, step: Step)
    requires Quiet(step) && NextStep(w, w', step)
    ensures forall call :: call in w.evaluations && w.evaluations[call].stage.Finished? ==>
              call in w'.evaluations && w'.evaluations[call] == w.evaluations[call]
    ensures forall id, call :: ApprovedBy(w', call, id) <==> ApprovedBy(w, call, id)
  {}

  lemma QuietRecords(w: World, w': World, step: Step)
    requires Quiet(step) && NextStep(w, w', step)
    ensures forall id :: Settled(w'.records, id) <==> Settled(w.records, id)
    ensures forall id :: Settled(w.records, id) ==> w'.records[id] == w.records[id]
  {}

  lemma QuietStepApproves(w: World, w': World, step: Step)
    requires Quiet(step) && NextStep(w, w', step)
    ensures SameApprovals(w, w')
  {
    QuietCalls(w, w', step);
    QuietRecords(w, w', step);
    IssuedGrows(w, w', step);
  }

  lemma QuietStep(w: World, w': World, step: Step)
    requires Basics(w) && !step.EvaluationWrite? && !step.MarkExecuted? && NextStep(w, w', step)
    ensures SameApprovals(w, w') && SameExecutions(w, w')
  {
    QuietStepApproves(w, w', step);
  }

  // ---- The two steps that do

  /** A write that the store turns down changes nothing that matters. */
  lemma RejectedWrite(w: World, w': World, step: Step)
    requires Basics(w) && step.EvaluationWrite? && NextStep(w, w', step)
    ensures SameExecutions(w, w')
    ensures var e := w.evaluations[step.call];
            WithApproval(w.records, e.stage.checked.id, e.approval, w'.now).Err? ==> SameApprovals(w, w')
  {}

  ghost predicate Accepted(w: World, w': World, step: Step, id: string) {
    && step.EvaluationWrite? && NextStep(w, w', step) && id == w.evaluations[step.call].stage.checked.id
    && WithApproval(w.records, id, w.evaluations[step.call].approval, w'.now).Ok?
  }

  /** What a write that the store accepts changes, and what it does not. */
  lemma AcceptedWriteChanges(w: World, w': World, step: Step, id0: string)
    requires Basics(w) && Accepted(w, w', step, id0)
    ensures !Settled(w.records, id0) && Vouched(w', id0, step.call)
    ensures forall id :: Settled(w'.records, id) <==> Settled(w.records, id) || id == id0
    ensures forall id, call :: ApprovedBy(w', call, id) <==> ApprovedBy(w, call, id) || (call == step.call && id == id0)
  {
    assert PassedChecks(w, step.call);
  }

  lemma VouchedStays(w: World, w': World, step: Step, id0: string, id: string, call: nat)
    requires Basics(w) && Accepted(w, w', step, id0) && Vouched(w, id, call) && id != id0
    ensures Vouched(w', id, call)
  {}

  /** One approval more, of a request that was not settled. */
  lemma ApprovalAdded(w: World, w': World, id0: string, call0: nat)
    requires Approvals(w) && !Settled(w.records, id0) && Vouched(w', id0, call0)
    requires forall id :: Settled(w'.records, id) <==> Settled(w.records, id) || id == id0
    requires forall id, call :: ApprovedBy(w', call, id) <==> ApprovedBy(w, call, id) || (call == call0 && id == id0)
    requires forall id, call :: Vouched(w, id, call) && id != id0 ==> Vouched(w', id, call)
    ensures Approvals(w')
  {
    forall id | Settled(w'.records, id) ensures exists call :: ApprovedBy(w', call, id) {
      if id == id0 {
        assert ApprovedBy(w', call0, id);
      } else {
        var call :| ApprovedBy(w, call, id);
        assert ApprovedBy(w', call, id);
      }
    }
    forall id, call | ApprovedBy(w', call, id) ensures Vouched(w', id, call) && Settled(w'.records, id) {}
  }

  lemma AcceptedWrite(w: World, w': World, step: Step, id0: string)
    requires Basics(w) && Approvals(w) && Accepted(w, w', step, id0)
    ensures Approvals(w')
  {
    AcceptedWriteChanges(w, w', step, id0);
    forall id, call | Vouched(w, id, call) && id != id0 ensures Vouched(w', id, call) {
      VouchedStays(w, w', step, id0, id, call);
    }
    ApprovalAdded(w, w', id0, step.call);
  }

  lemma ExecuteStep(w: World, w': World, step: Step)
    requires Basics(w) && step.MarkExecuted? && NextStep(w, w', step)
    ensures SameApprovals(w, w')
  {
    forall id, call ensures ApprovedBy(w', call, id) <==> ApprovedBy(w, call, id) {}
  }

  lemma ExecuteStepKeepsExecutions(w: World, w': World, step: Step)
    requires Executions(w) && step.MarkExecuted? && NextStep(w, w', step)
    ensures Executions(w')
  {
    var executed := WithExecuted(w.records, step.id, step.checkedAt, w'.now).Ok?;
    forall id, call ensures ExecutedBy(w', call, id) <==>
        ExecutedBy(w, call, id) || (executed && call == step.call && id == step.id) {}
    forall id, call | ExecutedBy(w', call, id) ensures ExecutedInTime(w', id, call) && Done(w'.records, id) {
      if call != step.call {
        assert ExecutedInTime(w, id, call) && Done(w.records, id);
      }
    }
    forall id | Done(w'.records, id) ensures exists call :: ExecutedBy(w', call, id) {
      if executed && id == step.id {
        assert ExecutedBy(w', step.call, id);
      } else {
        assert Done(w.records, id);
        var call :| ExecutedBy(w, call, id);
        assert ExecutedBy(w', call, id);
      }
    }
  }

  lemma StepKeepsInv(w: World, w': World)
    requires Inv(w) && Next(w, w', true)
    ensures Inv(w')
  {
    var step :| AnyStep(w, w', step) && Fresh(w, step);
    BasicsKept(w, w', step);
    if step.EvaluationWrite? {
      RejectedWrite(w, w', step);
      ExecutionsKept(w, w');
      var e := w.evaluations[step.call];
      if WithApproval(w.records, e.stage.checked.id, e.approval, w'.now).Ok? {
        AcceptedWrite(w, w', step, e.stage.checked.id);
      } else {
        ApprovalsKept(w, w');
      }
    } else if step.MarkExecuted? {
      ExecuteStep(w, w', step);
      ApprovalsKept(w, w');
      ExecuteStepKeepsExecutions(w, w', step);
    } else {
      QuietStep(w, w', step);
      ApprovalsKept(w, w');
      ExecutionsKept(w, w');
    }
  }

  // ---- Every run

  lemma {:induction false} RunKeepsInv(ws: seq<World>, i: nat)
    requires Run(ws) && i < |ws|
    ensures Inv(ws[i])
  {
    if i > 0 {
      RunKeepsInv(ws, i - 1);
      assert StepAt(ws, i, true);
      StepKeepsInv(ws[i - 1], ws[i]);
    }
  }

  /** Whatever the interleaving: one approval, one execution, and every executed request vouched for and in time. */
  lemma RunsAreSafe(ws: seq<World>, i: nat)
    requires Run(ws) && i < |ws|
    ensures Safety(ws[i])
  {
    RunKeepsInv(ws, i);
    InvImpliesSafety(ws[i]);
  }

  // ---- What safety says of tokens, by name

  /** The call approved the very request of the record, and what its token was. */
  ghost predicate ApprovedWith(w: World, id: string, call: nat, level: StepUpLevel) {
    && id in w.records && call in w.evaluations
    && var record, e := w.records[id], w.evaluations[call];
    && e.stage.Finished? && e.stage.outcome.Decided?
    && e.stage.outcome.decision.state == Approved && e.stage.outcome.decision.requestId == id
    && record.approval == Some(e.approval) && e.approval.requestId == id && e.approval.digest == record.request.digest
    && e.approval.approver == e.token.principal && e.token.principal != record.request.requester
    && e.token.level == level
  }

  lemma VouchedWithLevel(w: World, id: string, call: nat)
    requires Inv(w) && Vouched(w, id, call)
    ensures ApprovedWith(w, id, call, w.evaluations[call].token.level)
    ensures w.evaluations[call].token.level != SingleFactor
    ensures w.records[id].request.operation == BreakGlass ==> w.evaluations[call].token.level == HardToken
  {
    assert w.records[id].request.id == id;
  }

  lemma OneApprover(w: World, id: string, call: nat, other: nat, level: StepUpLevel)
    requires Inv(w) && Vouched(w, id, call) && ApprovedWith(w, id, other, level)
    ensures other == call
  {
    assert ApprovedBy(w, other, id) && ApprovedBy(w, call, id);
  }

  /** Over every run, whatever was executed had been approved by another principal, with a hard token for break-glass
      and with more than a single factor for anything else. */
  lemma ExecutedByStrongTokens(ws: seq<World>, i: nat, id: string)
    requires Run(ws) && i < |ws| && id in ws[i].records && ws[i].records[id].state == Executed
    ensures ws[i].records[id].request.operation == BreakGlass ==>
            exists call :: ApprovedWith(ws[i], id, call, HardToken)
    ensures exists call ::
              ApprovedWith(ws[i], id, call, MultiFactor) || ApprovedWith(ws[i], id, call, HardToken)
    ensures forall call :: !ApprovedWith(ws[i], id, call, SingleFactor)
  {
    RunKeepsInv(ws, i);
    RunsAreSafe(ws, i);
    var call :| Vouched(ws[i], id, call);
    VouchedWithLevel(ws[i], id, call);
    forall other ensures !ApprovedWith(ws[i], id, other, SingleFactor) {
      if ApprovedWith(ws[i], id, other, SingleFactor) {
        OneApprover(ws[i], id, call, other, SingleFactor);
      }
    }
  }

  // ---- What happens to one record over a run

  function Progress(s: State): nat {
    match s case Pending => 0 case Approved => 1 case _ => 2
  }

  /** The same request, at least as far along, with the approval it had. */
  ghost predicate Later(a: Record, b: Record) {
    && b.request == a.request && Progress(a.state) <= Progress(b.state)
    && (a.approval.Some? ==> b.approval == a.approval)
  }

  lemma StepOfRecord(w: World, w': World, step: Step, id: string)
    requires Basics(w) && NextStep(w, w', step)
    ensures w.now <= w'.now
    ensures id in w.issued ==> id in w'.issued && w'.issued[id] == w.issued[id]
    ensures id in w.records && id in w'.records ==> Later(w.records[id], w'.records[id])
    ensures id in w.records && id !in w'.records ==>
              w.records[id].state == Pending && w.records[id].request.IsExpired(w'.now)
    ensures id !in w.records && id in w'.records ==> w'.records[id].state == Pending
  {
    ProperKept(w, w', step);
    IssuedGrows(w, w', step);
    if id in w.records {
      ClockIsOfTheStep(w, w', step, id);
    }
  }

  lemma ClockIsOfTheStep(w: World, w': World, step: Step, id: string)
    requires NextStep(w, w', step) && id in w.records
    ensures ClockOf(step, w'.now)(id) <= w'.now
  {}

  /** Where a record stands some time after it was `first`. */
  ghost predicate Since(first: Record, w: World, id: string) {
    && id in w.issued && w.issued[id] == first.request
    && (if id in w.records then Later(first, w.records[id])
        else first.state == Pending && first.request.IsExpired(w.now))
  }

  lemma SinceStep(first: Record, w: World, w': World, id: string)
    requires Basics(w) && Basics(w') && Next(w, w', true) && Since(first, w, id)
    requires first.approval.Some? <==> first.state != Pending
    ensures Since(first, w', id)
  {
    var step :| AnyStep(w, w', step) && Fresh(w, step);
    StepOfRecord(w, w', step, id);
  }

  lemma SinceNow(w: World, id: string)
    requires Basics(w) && id in w.records
    ensures Since(w.records[id], w, id)
    ensures w.records[id].approval.Some? <==> w.records[id].state != Pending
  {}

  lemma RunKeepsBasics(ws: seq<World>, i: nat)
    requires Run(ws) && i < |ws|
    ensures Basics(ws[i])
  {
    RunKeepsInv(ws, i);
  }

  /** A record only ever advances; it goes only when pending and expired, and never comes back as another request. */
  lemma {:induction false} RecordsOnlyAdvance(ws: seq<World>, i: nat, j: nat, id: string)
    requires Run(ws) && i <= j < |ws| && id in ws[i].records
    ensures Since(ws[i].records[id], ws[j], id)
    decreases j
  {
    RunKeepsBasics(ws, i);
    SinceNow(ws[i], id);
    if i < j {
      RecordsOnlyAdvance(ws, i, j - 1, id);
      RunKeepsBasics(ws, j - 1);
      RunKeepsBasics(ws, j);
      assert StepAt(ws, j, true);
      SinceStep(ws[i].records[id], ws[j - 1], ws[j], id);
    }
  }

  // ---- What a run says about time

  /** A request approved by a call that read the clock was live, and the approver's token with it, when the call
      began. */
  lemma LiveWhenTheCallBegan(ws: seq<World>, i: nat, call: nat, id: string)
    requires Run(ws) && i < |ws| && ApprovedBy(ws[i], call, id) && ws[i].evaluations[call].given.None?
    ensures id in ws[i].issued
    ensures ws[i].evaluations[call].began < ws[i].issued[id].expiresAt
    ensures ws[i].evaluations[call].began < ws[i].evaluations[call].token.expiresAt
  {
    RunKeepsInv(ws, i);
    assert Vouched(ws[i], id, call);
  }

  // ---- Runs, step by step

  lemma RunExtends(ws: seq<World>, w': World, step: Step, distinct: bool)
    requires RunWith(ws, distinct) && AnyStep(ws[|ws| - 1], w', step) && (distinct ==> Fresh(ws[|ws| - 1], step))
    ensures RunWith(ws + [w'], distinct)
  {
    var more := ws + [w'];
    forall i | 0 < i < |more| ensures StepAt(more, i, distinct) {
      if i < |ws| {
        assert StepAt(ws, i, distinct);
      }
    }
  }

  function Start(): World { World(map[], map[], map[], map[], 0.0) }

  function Requested(id: string, operation: Operation, token: Token, digest: string, ttl: int, at: Time): Request {
    Request(id, operation, token.principal, digest, RequiredStepUp(operation), at, at + ttl as real, token.hash)
  }

  /** A request issued and stored at one time. */
  lemma IssueAndCreate(ws: seq<World>, distinct: bool, operation: Operation, token: Token, digest: string, ttl: int,
                       id: string, at: Time) returns (ws': seq<World>)
    requires RunWith(ws, distinct) && ws[|ws| - 1].now == at && id !in ws[|ws| - 1].records
    requires distinct ==> id !in ws[|ws| - 1].issued
    requires !token.IsExpired(at) && token.level.AtLeast(RequiredStepUp(operation))
    ensures RunWith(ws', distinct) && |ws'| == |ws| + 2
    ensures var w, r := ws[|ws| - 1], Requested(id, operation, token, digest, ttl, at);
            ws'[|ws'| - 1] ==
                w.(records := w.records[id := Record(r, None, Pending, at, at)], issued := w.issued[id := r])
  {
    var w, r := ws[|ws| - 1], Requested(id, operation, token, digest, ttl, at);
    var w1 := w.(issued := w.issued[id := r]);
    RunExtends(ws, w1, Issue(operation, token, digest, None, ttl, id), distinct);
    var w2 := w1.(records := w1.records[id := Record(r, None, Pending, at, at)]);
    RunExtends(ws + [w1], w2, Create(id), distinct);
    ws' := ws + [w1] + [w2];
  }

  /** A call that reads the clock and then the store, and passes the checks. */
  lemma BeginAndRead(ws: seq<World>, distinct: bool, call: nat, request: Request, approval: Approval, token: Token,
                     at: Time)
    returns (ws': seq<World>)
    requires RunWith(ws, distinct) && ws[|ws| - 1].now == at && call !in ws[|ws| - 1].evaluations
    requires Lookup(ws[|ws| - 1].records, request.id) == Some(Record(request, None, Pending, at, at))
    requires CheckApproval(request, approval, token, at).IsApproved()
    ensures RunWith(ws', distinct) && |ws'| == |ws| + 2
    ensures var w, e := ws[|ws| - 1], Evaluation(request, approval, token, at, None, at, Writing(request));
            ws'[|ws'| - 1] == w.(evaluations := w.evaluations[call := e])
  {
    var w, e := ws[|ws| - 1], Evaluation(request, approval, token, at, None, at, Reading);
    var w1 := w.(evaluations := w.evaluations[call := e]);
    RunExtends(ws, w1, EvaluationBegin(call, request, approval, token, None, at), distinct);
    var w2 := w1.(evaluations := w1.evaluations[call := e.(stage := Writing(request))]);
    RunExtends(ws + [w1], w2, EvaluationRead(call), distinct);
    ws' := ws + [w1] + [w2];
    assert w2.evaluations == w.evaluations[call := e.(stage := Writing(request))];
  }

  function Ended(e: Evaluation): Evaluation
    requires e.stage.Writing?
  {
    e.(stage := Finished(Deny(e.stage.checked, Approved, Satisfied)))
  }

  /** Its write, at a later time, onto the record then stored under the identifier. */
  lemma WriteApproval(ws: seq<World>, distinct: bool, call: nat, record: Record, at: Time) returns (ws': seq<World>)
    requires RunWith(ws, distinct) && ws[|ws| - 1].now <= at
    requires call in ws[|ws| - 1].evaluations && ws[|ws| - 1].evaluations[call].stage.Writing?
    requires Lookup(ws[|ws| - 1].records, ws[|ws| - 1].evaluations[call].stage.checked.id) == Some(record)
    requires record.state == Pending
    ensures RunWith(ws', distinct) && |ws'| == |ws| + 1
    ensures var w := ws[|ws| - 1];
            var e := w.evaluations[call];
            var approved := record.(approval := Some(e.approval), state := Approved, updatedAt := at);
            ws'[|ws'| - 1] == w.(records := w.records[e.stage.checked.id := approved],
                                 evaluations := w.evaluations[call := Ended(e)], now := at)
  {
    var w := ws[|ws| - 1];
    var e := w.evaluations[call];
    var approved := record.(approval := Some(e.approval), state := Approved, updatedAt := at);
    var w1 := w.(records := w.records[e.stage.checked.id := approved],
                 evaluations := w.evaluations[call := Ended(e)], now := at);
    RunExtends(ws, w1, EvaluationWrite(call), distinct);
    ws' := ws + [w1];
  }

  lemma Execute(ws: seq<World>, distinct: bool, call: nat, id: string, record: Record, at: Time)
    returns (ws': seq<World>)
    requires RunWith(ws, distinct) && ws[|ws| - 1].now <= at && call !in ws[|ws| - 1].executions
    requires Lookup(ws[|ws| - 1].records, id) == Some(record)
    requires record.state == Approved && !record.request.IsExpired(at)
    ensures RunWith(ws', distinct) && |ws'| == |ws| + 1
    ensures ws'[|ws'| - 1].records == ws[|ws| - 1].records[id := record.(state := Executed, updatedAt := at)]
    ensures ws'[|ws'| - 1].evaluations == ws[|ws| - 1].evaluations
  {
    var w := ws[|ws| - 1];
    var outcome := Decided(Decision(Executed, id, ServiceRepair, MarkedExecuted));
    var w1 := w.(records := w.records[id := record.(state := Executed, updatedAt := at)],
                 executions := w.executions[call := Execution(id, outcome, at)], now := at);
    RunExtends(ws, w1, MarkExecuted(call, id, None, at), distinct);
    ws' := ws + [w1];
  }

  // ---- Three runs

  const ALICE := Token("a", MultiFactor, 0.0, 99.0, "h")
  const BOB := Token("b", HardToken, 0.0, 99.0, "t")
  const BOBS_APPROVAL := Approval("1", "b", 0.0, "t", "d")

  function AliceAsks(): Request { Requested("1", KeyRotate, ALICE, "d", 9, 0.0) }

  function BobsCall(): Evaluation {
    Evaluation(AliceAsks(), BOBS_APPROVAL, BOB, 0.0, None, 0.0, Writing(AliceAsks()))
  }

  /** Alice's request, issued and stored, and a call for Bob that has passed the checks and not written yet. */
  lemma BobPasses(distinct: bool) returns (ws: seq<World>)
    ensures RunWith(ws, distinct) && |ws| == 5
    ensures ws[4] == World(map["1" := Record(AliceAsks(), None, Pending, 0.0, 0.0)], map["1" := AliceAsks()],
                           map[0 := BobsCall()], map[], 0.0)
  {
    ws := IssueAndCreate([Start()], distinct, KeyRotate, ALICE, "d", 9, "1", 0.0);
    ws := BeginAndRead(ws, distinct, 0, AliceAsks(), BOBS_APPROVAL, BOB, 0.0);
  }

  /** A request can be approved and executed. */
  lemma ExecutionIsReachable() returns (ws: seq<World>)
    ensures Run(ws) && "1" in ws[|ws| - 1].records && ws[|ws| - 1].records["1"].state == Executed
  {
    ws := BobPasses(true);
    var record := ws[4].records["1"];
    ws := WriteApproval(ws, true, 0, record, 1.0);
    ws := Execute(ws, true, 0, "1", record.(approval := Some(BOBS_APPROVAL), state := Approved, updatedAt := 1.0), 2.0);
  }

  /** The write tests no expiry: a request live at the read can be stored as approved after it has expired. */
  lemma ApprovalCanComeLate() returns (ws: seq<World>)
    ensures Run(ws) && ApprovedBy(ws[|ws| - 1], 0, "1") && "1" in ws[|ws| - 1].records
    ensures var w := ws[|ws| - 1];
            && w.evaluations[0].given.None? && w.evaluations[0].began < w.records["1"].request.expiresAt
            && w.records["1"].state == Approved && w.records["1"].request.IsExpired(w.records["1"].updatedAt)
  {
    ws := BobPasses(true);
    ws := WriteApproval(ws, true, 0, ws[4].records["1"], 10.0);
  }

  function BobAsks(): Request { Requested("1", BreakGlass, BOB, "e", 89, 10.0) }

  /** Bob's call still about to write when Alice's request has expired and gone, and Bob's has taken its identifier. */
  lemma IdentifierTaken() returns (ws: seq<World>)
    ensures RunWith(ws, false) && |ws| == 8
    ensures ws[7].now == 10.0 && ws[7].records == map["1" := Record(BobAsks(), None, Pending, 10.0, 10.0)]
    ensures ws[7].executions == map[]
    ensures ws[7].evaluations == map[0 := BobsCall()]
  {
    ws := BobPasses(false);
    var w := ws[4];
    var late := (id: string) => 10.0;
    var w' := w.(records := map[], now := 10.0);
    assert AliceAsks().expiresAt == 9.0;
    assert WithoutExpired(w.records, late) == map[];
    RunExtends(ws, w', Cleanup(late), false);
    ws := IssueAndCreate(ws + [w'], false, BreakGlass, BOB, "e", 89, "1", 10.0);
  }

  /**
   * Without fresh identifiers runs are not safe: an approval checked against one request is written onto another of
   * the same identifier, which its own requester then has approved.
   */
  lemma ReusedIdentifierIsUnsafe() returns (ws: seq<World>)
    ensures RunWith(ws, false) && !Safety(ws[|ws| - 1])
    ensures "1" in ws[|ws| - 1].records
    ensures var record := ws[|ws| - 1].records["1"];
            && record.state == Executed && record.approval.Some?
            && record.approval.value.approver == record.request.requester
  {
    ws := IdentifierTaken();
    var record := Record(BobAsks(), None, Pending, 10.0, 10.0);
    ws := WriteApproval(ws, false, 0, record, 11.0);
    var approved := record.(approval := Some(BOBS_APPROVAL), state := Approved, updatedAt := 11.0);
    ws := Execute(ws, false, 0, "1", approved, 12.0);
    var w := ws[|ws| - 1];
    assert w.records["1"].request.requester == "b" && w.records["1"].state == Executed;
    forall call ensures !Vouched(w, "1", call) {
      if call in w.evaluations {
        assert w.evaluations[call].token == BOB;
      }
    }
  }
}
