/**
 * runManagedAction: drives one record through its lifecycle over an adapter whose every call may
 * succeed, report failure or throw.
 */
module ManagedExecution {
  import opened Wrappers
  import opened ActionRuns
  import D = Decimal

  // ----- the adapter, as the answers it will give -----

  datatype Drained = NoOutput | Output(stdout: string, stderr: string) | DrainThrows(message: string)

  /** drain(k) answers the k-th call of drainOutput; NoOutput throughout when there is none. */
  datatype Adapter = Adapter(
    snapshot: Outcome<ActionSnapshot>,
    apply: Outcome<ApplyResult>,
    verify: Outcome<VerifyResult>,
    rollback: Option<ActionSnapshot> -> Outcome<RollbackResult>,
    drain: nat -> Drained)

  datatype Call = CallSnapshot | CallApply | CallVerify | CallRollback(snapshot: Option<ActionSnapshot>)

  /** Plan, item and action, as far as the runner looks at them. */
  datatype Request = Request(
    planId: string, itemId: string, actionId: string,
    auditSupportLevel: Option<string>, supportLevel: string,
    kind: string, canRollback: bool, dryRun: bool)

  const MUTATING_KINDS := {
    "installPackage", "removePackage", "writeConfig", "copyConfig", "transferArtifact", "enableService",
    "restartService", "reloadService", "runCommand", "restart", "rollback"}

  predicate MutatingKind(kind: string) {
    kind in MUTATING_KINDS
  }

  predicate DetectOnly(q: Request) {
    (if q.auditSupportLevel.Some? then q.auditSupportLevel.value else q.supportLevel) == "detect-only"
  }

  predicate Mutates(q: Request) {
    !DetectOnly(q) && !q.dryRun && MutatingKind(q.kind)
  }

  // ----- redaction, an arbitrary total function -----

  datatype Redaction = Redaction(text: string, redacted: bool)
  type Redactor = string -> Redaction

  const PREVIEW_LENGTH := 4096

  /** redactSecrets leaves the empty text alone. */
  function Redact(text: string, redact: Redactor): Redaction {
    if text == "" then Redaction("", false) else redact(text)
  }

  function Truncated(text: string): string {
    if |text| <= PREVIEW_LENGTH then text
    else text[..PREVIEW_LENGTH] + "\n\U{2026}[truncated " + D.Print(|text| - PREVIEW_LENGTH) + " bytes]"
  }

  function Preview(text: string, redact: Redactor): string {
    Truncated(Redact(text, redact).text)
  }

  function Cleaned(text: Option<string>, redact: Redactor): Option<string> {
    if text.None? || text.value == "" then None else Some(Redact(text.value, redact).text)
  }

  function CleanSteps(steps: seq<StepResult>, redact: Redactor): seq<StepResult> {
    seq(|steps|, i requires 0 <= i < |steps| =>
      StepResult(Redact(steps[i].name, redact).text, steps[i].ok, Cleaned(steps[i].message, redact)))
  }

  function CleanApply(r: ApplyResult, redact: Redactor): ApplyResult {
    r.(message := Redact(r.message, redact).text, steps := CleanSteps(r.steps, redact))
  }

  function CleanVerify(r: VerifyResult, redact: Redactor): VerifyResult {
    r.(message := Redact(r.message, redact).text,
       checks := seq(|r.checks|, i requires 0 <= i < |r.checks| =>
         CheckResult(Redact(r.checks[i].command, redact).text, r.checks[i].ok, Preview(r.checks[i].output, redact))))
  }

  function CleanRollback(r: RollbackResult, redact: Redactor): RollbackResult {
    r.(message := Redact(r.message, redact).text, steps := CleanSteps(r.steps, redact))
  }

  // ----- what the adapter's answers amount to, told without the record -----

  /** errorDrain is the drain call made while the error is recorded. */
  datatype Course =
    | AllGood
    | SnapshotFails(errorDrain: nat, message: string)
    | ApplyFails(errorDrain: nat, message: string)
    | VerifyFails(errorDrain: nat, message: string)

  function OrElse(message: string, default: string): string {
    if message == "" then default else message
  }

  function CourseOf(a: Adapter): Course {
    if a.snapshot.Threw? then SnapshotFails(0, a.snapshot.message)
    else if a.apply.Threw? then ApplyFails(0, a.apply.message)
    else if a.drain(0).DrainThrows? then ApplyFails(1, a.drain(0).message)
    else if !a.apply.result.ok then ApplyFails(1, OrElse(a.apply.result.message, "apply step reported ok=false"))
    else if a.verify.Threw? then VerifyFails(1, a.verify.message)
    else if a.drain(1).DrainThrows? then VerifyFails(2, a.drain(1).message)
    else if !a.verify.result.ok then VerifyFails(2, OrElse(a.verify.result.message, "verify step reported ok=false"))
    else AllGood
  }

  function Phase(c: Course): string {
    match c
    case SnapshotFails(_, _) => "snapshot"
    case ApplyFails(_, _) => "apply"
    case VerifyFails(_, _) => "verify"
    case AllGood => ""
  }

  /** An exception leaves the runner exactly when draining throws while an error is recorded. */
  predicate Escapes(q: Request, a: Adapter) {
    Mutates(q) && !CourseOf(a).AllGood? && a.drain(CourseOf(a).errorDrain).DrainThrows?
  }

  predicate RollsBack(q: Request, a: Adapter) {
    Mutates(q) && !Escapes(q, a) && q.canRollback && (CourseOf(a).ApplyFails? || CourseOf(a).VerifyFails?)
  }

  function RollbackAnswer(a: Adapter): Outcome<RollbackResult>
    requires a.snapshot.Returned?
  {
    a.rollback(Some(a.snapshot.result))
  }

  /** The rollback worked: it returned ok and its output could be drained. */
  predicate RollbackWorks(a: Adapter)
    requires a.snapshot.Returned? && !CourseOf(a).AllGood?
  {
    RollbackAnswer(a).Returned? && !a.drain(CourseOf(a).errorDrain + 1).DrainThrows? && RollbackAnswer(a).result.ok
  }

  function ExpectedCalls(q: Request, a: Adapter): seq<Call> {
    if !Mutates(q) then []
    else
      var course := CourseOf(a);
      [CallSnapshot]
      + (if course.SnapshotFails? then [] else [CallApply])
      + (if course.VerifyFails? || course.AllGood? then [CallVerify] else [])
      + RollbackCalls(q, a)
  }

  function RollbackCalls(q: Request, a: Adapter): seq<Call> {
    if RollsBack(q, a) then [CallRollback(Some(a.snapshot.result))] else []
  }

  function ExpectedStatus(q: Request, a: Adapter): Status {
    if DetectOnly(q) then ManualRequired
    else if !Mutates(q) then Skipped
    else if CourseOf(a).AllGood? then Succeeded
    else if !RollsBack(q, a) then Failed
    else if RollbackWorks(a) then RolledBack
    else RollbackFailed
  }

  /** The rollback result in the record: the adapter's, redacted, or a failure with the error it threw. */
  function ExpectedRollback(q: Request, a: Adapter, redact: Redactor): Option<RollbackResult> {
    if !RollsBack(q, a) then None
    else if RollbackAnswer(a).Returned? && !a.drain(CourseOf(a).errorDrain + 1).DrainThrows?
    then Some(CleanRollback(RollbackAnswer(a).result, redact))
    else Some(RollbackResult(false, [], Redact(RollbackMessage(a), redact).text))
  }

  // ----- when the redacted flag is raised -----

  predicate Hit(text: string, redact: Redactor) {
    Redact(text, redact).redacted
  }

  predicate DrainHit(d: Drained, redact: Redactor) {
    d.Output? && (Hit(d.stdout, redact) || Hit(d.stderr, redact))
  }

  function DrainsUsed(q: Request, a: Adapter): nat {
    if !Mutates(q) then 0
    else if CourseOf(a).AllGood? then 2
    else if RollsBack(q, a) && RollbackAnswer(a).Returned? then CourseOf(a).errorDrain + 2
    else CourseOf(a).errorDrain + 1
  }

  function RollbackMessage(a: Adapter): string
    requires a.snapshot.Returned? && !CourseOf(a).AllGood?
  {
    if RollbackAnswer(a).Threw? then RollbackAnswer(a).message
    else if a.drain(CourseOf(a).errorDrain + 1).DrainThrows? then a.drain(CourseOf(a).errorDrain + 1).message
    else ""
  }

  /** One of the first n drained outputs held a secret. */
  predicate DrainsHit(a: Adapter, n: nat, redact: Redactor) {
    n > 0 && (DrainsHit(a, n - 1, redact) || DrainHit(a.drain(n - 1), redact))
  }

  /** The preview of the last of the first n drained outputs that was not empty, redacted and cut. */
  function Kept(a: Adapter, n: nat, redact: Redactor, out: bool): Option<string> {
    if n == 0 then None
    else
      var d := a.drain(n - 1);
      if Drops(d, out) then Kept(a, n - 1, redact, out)
      else Some(Preview(if out then d.stdout else d.stderr, redact))
  }

  predicate Drops(d: Drained, out: bool) {
    !d.Output? || (if out then d.stdout else d.stderr) == ""
  }

  predicate Previews(run: ActionRun, a: Adapter, n: nat, redact: Redactor) {
    run.stdoutPreview == Kept(a, n, redact, true) && run.stderrPreview == Kept(a, n, redact, false)
  }

  predicate Flagged(q: Request, a: Adapter, redact: Redactor) {
    || DrainsHit(a, DrainsUsed(q, a), redact)
    || (Mutates(q) && !CourseOf(a).AllGood? && Hit(CourseOf(a).message, redact))
    || (RollsBack(q, a) && Hit(RollbackMessage(a), redact))
  }

  // ----- the runner -----

  method CaptureStream(record: ActionRun, d: Drained, redact: Redactor) returns (r: Outcome<ActionRun>)
    ensures r == if d.DrainThrows? then Threw(d.message) else Returned(Captured(record, d, redact))
  {
    if d.DrainThrows? {
      return Threw(d.message);
    }
    var next := record;
    if d.Output? && d.stdout != "" {
      next := next.(stdoutPreview := Some(Preview(d.stdout, redact)),
                    redacted := next.redacted || Redact(d.stdout, redact).redacted);
    }
    if d.Output? && d.stderr != "" {
      next := next.(stderrPreview := Some(Preview(d.stderr, redact)),
                    redacted := next.redacted || Redact(d.stderr, redact).redacted);
    }
    r := Returned(next);
  }

  function Captured(record: ActionRun, d: Drained, redact: Redactor): ActionRun {
    record.(
      stdoutPreview := if d.Output? && d.stdout != "" then Some(Preview(d.stdout, redact)) else record.stdoutPreview,
      stderrPreview := if d.Output? && d.stderr != "" then Some(Preview(d.stderr, redact)) else record.stderrPreview,
      redacted := record.redacted || DrainHit(d, redact))
  }

  /** applyError: an illegal transition or a throwing drain would escape from it. */
  method ApplyError(record: ActionRun, phase: string, message: string, d: Drained, redact: Redactor, now: Time)
    returns (r: Outcome<ActionRun>)
    requires Failed in Allowed(record.status)
    ensures d.DrainThrows? ==> r == Threw(d.message)
    ensures !d.DrainThrows? ==> r.Returned? && r.result == Captured(record.(
        status := Failed, endedAt := Some(now), exitCode := Some(1),
        error := Some("[" + phase + "] " + Redact(message, redact).text),
        redacted := record.redacted || Hit(message, redact)), d, redact)
  {
    var safe := Redact(message, redact);
    var next := Transition(record, Failed, now).result;
    next := next.(error := Some("[" + phase + "] " + safe.text), exitCode := Some(1),
                  redacted := next.redacted || safe.redacted);
    r := CaptureStream(next, d, redact);
  }

  method TryRollback(record: ActionRun, q: Request, a: Adapter, drains: nat, redact: Redactor, clock: nat -> Time)
    returns (r: ActionRun, calls: seq<Call>)
    requires record.status.Failed?
    ensures !q.canRollback ==> r == record && calls == []
    ensures q.canRollback ==> calls == [CallRollback(record.snapshot)]
    ensures q.canRollback ==>
      var answer := a.rollback(record.snapshot);
      var drained := answer.Returned? && !a.drain(drains).DrainThrows?;
      var message := if answer.Threw? then answer.message
                     else if a.drain(drains).DrainThrows? then a.drain(drains).message else "";
      var seen := if drained then Captured(record, a.drain(drains), redact) else record;
      r == seen.(
        status := if drained && answer.result.ok then RolledBack else RollbackFailed,
        endedAt := Some(clock(5)),
        redacted := seen.redacted || (!drained && Hit(message, redact)),
        rollbackResult := Some(if drained then CleanRollback(answer.result, redact)
                               else RollbackResult(false, [], Redact(message, redact).text)))
  {
    calls := [];
    if !q.canRollback {
      return record, calls;
    }
    var next := Transition(record, RollingBack, clock(4)).result;
    var error: Option<string> := None;
    var answer := a.rollback(next.snapshot);
    calls := calls + [CallRollback(next.snapshot)];
    if answer.Threw? {
      error := Some(answer.message);
    } else {
      next := next.(rollbackResult := Some(CleanRollback(answer.result, redact)));
      var captured := CaptureStream(next, a.drain(drains), redact);
      if captured.Threw? {
        error := Some(captured.message);
      } else {
        next := captured.result;
        next := Transition(next, if answer.result.ok then RolledBack else RollbackFailed, clock(5)).result;
      }
    }
    if error.Some? {
      var safe := Redact(error.value, redact);
      next := next.(rollbackResult := Some(RollbackResult(false, [], safe.text)),
                    redacted := next.redacted || safe.redacted);
      next := Transition(next, RollbackFailed, clock(5)).result;
    }
    r := next;
  }

  /** The adapter's results are in the record, redacted. */
  predicate Collected(run: ActionRun, a: Adapter, redact: Redactor) {
    && run.snapshot == (if a.snapshot.Returned? then Some(a.snapshot.result) else None)
    && run.applyResult == (if a.snapshot.Returned? && a.apply.Returned? then Some(CleanApply(a.apply.result, redact))
                           else None)
    && run.verifyResult == (if (CourseOf(a).VerifyFails? || CourseOf(a).AllGood?) && a.verify.Returned?
                            then Some(CleanVerify(a.verify.result, redact)) else None)
  }

  function ExpectedExit(q: Request, a: Adapter): Option<int> {
    if DetectOnly(q) then None
    else if q.dryRun then Some(0)
    else if !Mutates(q) then None
    else Some(if CourseOf(a).AllGood? then 0 else 1)
  }

  function ExpectedError(q: Request, a: Adapter, redact: Redactor): Option<string> {
    if DetectOnly(q) then Some("Detect-only items must not run through the managed mutating runner.")
    else if !Mutates(q) || CourseOf(a).AllGood? then None
    else Some("[" + Phase(CourseOf(a)) + "] " + Redact(CourseOf(a).message, redact).text)
  }

  /** Nothing was called: a dry run says so in its apply result. */
  predicate Untouched(run: ActionRun, q: Request) {
    && run.snapshot.None? && run.verifyResult.None?
    && run.applyResult == if DetectOnly(q) || !q.dryRun then None else Some(ApplyResult(
         true, "Dry-run: frozen action validated without target mutation.", [], None))
  }

  /** What is true of a record the runner returns. */
  predicate Finished(run: ActionRun, q: Request, a: Adapter, redact: Redactor) {
    && run.status == ExpectedStatus(q, a) && Terminal(run.status)
    && run.exitCode == ExpectedExit(q, a) && run.error == ExpectedError(q, a, redact)
    && (if Mutates(q) then Collected(run, a, redact) else Untouched(run, q))
    && run.rollbackResult == ExpectedRollback(q, a, redact)
    && (run.redacted <==> Flagged(q, a, redact))
    && Previews(run, a, DrainsUsed(q, a), redact)
  }

  /** The reading of the clock at which the record ended. */
  function EndTick(q: Request, a: Adapter): nat {
    if !Mutates(q) then 1
    else match CourseOf(a)
      case AllGood => 4
      case SnapshotFails(_, _) => 2
      case _ => if q.canRollback then 5 else 3
  }

  predicate About(run: ActionRun, q: Request, clock: nat -> Time) {
    run.planId == q.planId && run.itemId == q.itemId && run.actionId == q.actionId && run.dryRun == q.dryRun
    && run.startedAt == clock(0)
  }

  method RunManagedAction(q: Request, a: Adapter, redact: Redactor, clock: nat -> Time)
    returns (r: Outcome<ActionRun>, calls: seq<Call>)
    ensures calls == ExpectedCalls(q, a)
    ensures r.Threw? <==> Escapes(q, a)
    ensures r.Returned? ==> Finished(r.result, q, a, redact) && About(r.result, q, clock)
    ensures r.Returned? ==> r.result.endedAt == Some(clock(EndTick(q, a)))
  {
    hide MutatingKind, CourseOf, Redact, RollbackWorks, RollbackAnswer, CleanRollback;
    calls := [];
    var record := NewActionRun(q.planId, q.itemId, q.actionId, q.dryRun, clock(0));
    if DetectOnly(q) {
      record := Transition(record, ManualRequired, clock(1)).result;
      record := record.(error := Some("Detect-only items must not run through the managed mutating runner."));
      return Returned(record), calls;
    }
    if q.dryRun {
      record := record.(exitCode := Some(0), applyResult := Some(ApplyResult(
        true, "Dry-run: frozen action validated without target mutation.", [], None)));
      return Transition(record, Skipped, clock(1)), calls;
    }
    if !MutatingKind(q.kind) {
      return Transition(record, Skipped, clock(1)), calls;
    }
    r, calls := RunMutatingAction(record, q, a, redact, clock);
  }

  method RunMutatingAction(pending: ActionRun, q: Request, a: Adapter, redact: Redactor, clock: nat -> Time)
    returns (r: Outcome<ActionRun>, calls: seq<Call>)
    requires Mutates(q)
    requires pending == NewActionRun(q.planId, q.itemId, q.actionId, q.dryRun, clock(0))
    ensures calls == ExpectedCalls(q, a)
    ensures r.Threw? <==> Escapes(q, a)
    ensures r.Returned? ==> Finished(r.result, q, a, redact) && About(r.result, q, clock)
    ensures r.Returned? ==> r.result.endedAt == Some(clock(EndTick(q, a)))
  {
    hide MutatingKind, CourseOf, Redact, CleanApply, CleanVerify, DetectOnly, Finished, ExpectedCalls, Flagged;
    hide Drops, DrainHit;
    PhasesOfCourse(a);
    CallsOfCourse(q, a);
    calls := [];
    var record := pending;
    // 1. snapshot
    record := Transition(record, Snapshotting, clock(1)).result;
    calls := calls + [CallSnapshot];
    if a.snapshot.Threw? {
      r := FailSnapshot(record, q, a, redact, clock);
      return;
    }
    record := record.(snapshot := Some(a.snapshot.result));

    // 2. apply
    record := Transition(record, Applying, clock(2)).result;
    calls := calls + [CallApply];
    var error, drains;
    record, error, drains := ApplyStep(record, a, redact);
    if error.Some? {
      var more;
      r, more := FailAndRollBack(record, "apply", error.value, drains, q, a, redact, clock);
      return r, calls + more;
    }

    // 3. verify
    record := Transition(record, Verifying, clock(3)).result;
    calls := calls + [CallVerify];
    record, error, drains := VerifyStep(record, a, redact);
    if error.Some? {
      var more;
      r, more := FailAndRollBack(record, "verify", error.value, drains, q, a, redact, clock);
      return r, calls + more;
    }

    record := Transition(record, Succeeded, clock(4)).result;
    record := record.(exitCode := Some(0));
    SucceededIsFinished(record, q, a, redact);
    r := Returned(record);
  }

  lemma SucceededIsFinished(run: ActionRun, q: Request, a: Adapter, redact: Redactor)
    requires Mutates(q) && CourseOf(a).AllGood?
    requires run.status.Succeeded? && run.exitCode == Some(0) && run.error.None?
    requires run.redacted == DrainsHit(a, 2, redact) && Previews(run, a, 2, redact)
    requires Collected(run, a, redact) && run.rollbackResult.None?
    ensures Finished(run, q, a, redact)
  {
    hide CourseOf, MutatingKind;
  }

  lemma CallsOfCourse(q: Request, a: Adapter)
    requires Mutates(q)
    ensures var course := CourseOf(a);
      && (course.SnapshotFails? ==> ExpectedCalls(q, a) == [CallSnapshot])
      && (course.AllGood? ==> ExpectedCalls(q, a) == [CallSnapshot, CallApply, CallVerify])
      && (course.ApplyFails? ==> ExpectedCalls(q, a) == [CallSnapshot, CallApply] + RollbackCalls(q, a))
      && (course.VerifyFails? ==> ExpectedCalls(q, a) == [CallSnapshot, CallApply, CallVerify] + RollbackCalls(q, a))
  {
    hide MutatingKind;
  }

  /** The try block around adapter.apply: the error it ends with, and how often it drained. */
  method ApplyStep(record: ActionRun, a: Adapter, redact: Redactor)
    returns (next: ActionRun, error: Option<string>, drains: nat)
    requires a.snapshot.Returned? && record.status.Applying? && record.applyResult.None?
    requires !record.redacted && Previews(record, a, 0, redact)
    ensures var course := CourseOf(a);
      && (error.Some? <==> course.ApplyFails?)
      && (error.Some? ==> error.value == course.message && drains == course.errorDrain)
      && (error.None? ==> drains == 1)
    ensures next == record.(applyResult := next.applyResult, stdoutPreview := next.stdoutPreview,
                            stderrPreview := next.stderrPreview, redacted := next.redacted)
    ensures next.redacted == DrainsHit(a, drains, redact) && Previews(next, a, drains, redact)
    ensures next.applyResult == if a.apply.Returned? then Some(CleanApply(a.apply.result, redact)) else None
  {
    next, error, drains := record, None, 0;
    if a.apply.Threw? {
      error := Some(a.apply.message);
    } else {
      next := next.(applyResult := Some(CleanApply(a.apply.result, redact)));
      var captured := CaptureStream(next, a.drain(0), redact);
      drains := 1;
      if captured.Threw? {
        error := Some(captured.message);
      } else {
        next := captured.result;
        if !a.apply.result.ok {
          error := Some(OrElse(a.apply.result.message, "apply step reported ok=false"));
        }
      }
    }
  }

  method VerifyStep(record: ActionRun, a: Adapter, redact: Redactor)
    returns (next: ActionRun, error: Option<string>, drains: nat)
    requires a.snapshot.Returned? && !CourseOf(a).ApplyFails? && record.status.Verifying?
    requires record.redacted == DrainsHit(a, 1, redact) && Previews(record, a, 1, redact)
    requires record.verifyResult.None?
    ensures var course := CourseOf(a);
      && (error.Some? <==> course.VerifyFails?)
      && (error.Some? ==> error.value == course.message && drains == course.errorDrain)
      && (error.None? ==> drains == 2)
    ensures next == record.(verifyResult := next.verifyResult, stdoutPreview := next.stdoutPreview,
                            stderrPreview := next.stderrPreview, redacted := next.redacted)
    ensures next.redacted == DrainsHit(a, drains, redact) && Previews(next, a, drains, redact)
    ensures next.verifyResult == if a.verify.Returned? then Some(CleanVerify(a.verify.result, redact)) else None
  {
    next, error, drains := record, None, 1;
    if a.verify.Threw? {
      error := Some(a.verify.message);
    } else {
      next := next.(verifyResult := Some(CleanVerify(a.verify.result, redact)));
      var captured := CaptureStream(next, a.drain(1), redact);
      drains := 2;
      if captured.Threw? {
        error := Some(captured.message);
      } else {
        next := captured.result;
        if !a.verify.result.ok {
          error := Some(OrElse(a.verify.result.message, "verify step reported ok=false"));
        }
      }
    }
  }

  lemma PhasesOfCourse(a: Adapter)
    ensures CourseOf(a).SnapshotFails? <==> a.snapshot.Threw?
  {
  }

  /** The catch block after snapshot: nothing has been applied, so nothing is rolled back. */
  method FailSnapshot(record: ActionRun, q: Request, a: Adapter, redact: Redactor, clock: nat -> Time)
    returns (r: Outcome<ActionRun>)
    requires Mutates(q) && a.snapshot.Threw? && record.status.Snapshotting?
    requires record == NewActionRun(q.planId, q.itemId, q.actionId, q.dryRun, clock(0)).(status := Snapshotting)
    ensures r.Threw? <==> Escapes(q, a)
    ensures r.Returned? ==> Finished(r.result, q, a, redact) && About(r.result, q, clock)
    ensures r.Returned? ==> r.result.endedAt == Some(clock(EndTick(q, a)))
  {
    r := ApplyError(record, "snapshot", a.snapshot.message, a.drain(0), redact, clock(2));
    assert "[" + "snapshot" + "] " == "[snapshot] ";
    assert DrainsHit(a, 1, redact) == DrainHit(a.drain(0), redact);
  }

  /** The catch block after apply or verify. */
  method FailAndRollBack(record: ActionRun, phase: string, message: string, drains: nat,
                         q: Request, a: Adapter, redact: Redactor, clock: nat -> Time)
    returns (r: Outcome<ActionRun>, calls: seq<Call>)
    requires Mutates(q) && a.snapshot.Returned? && record.snapshot == Some(a.snapshot.result)
    requires CourseOf(a).ApplyFails? || CourseOf(a).VerifyFails?
    requires CourseOf(a).message == message && CourseOf(a).errorDrain == drains
    requires Failed in Allowed(record.status) && About(record, q, clock)
    requires record.redacted == DrainsHit(a, drains, redact) && Previews(record, a, drains, redact)
    requires phase == Phase(CourseOf(a)) && Collected(record, a, redact) && record.rollbackResult.None?
    ensures r.Threw? <==> Escapes(q, a)
    ensures calls == RollbackCalls(q, a)
    ensures r.Returned? ==> Finished(r.result, q, a, redact) && About(r.result, q, clock)
    ensures r.Returned? ==> r.result.endedAt == Some(clock(EndTick(q, a)))
  {
    r := ApplyError(record, phase, message, a.drain(drains), redact, clock(3));
    if r.Threw? {
      return r, [];
    }
    var run;
    run, calls := TryRollback(r.result, q, a, drains + 1, redact, clock);
    assert DrainsHit(a, drains + 1, redact) == (DrainsHit(a, drains, redact) || DrainHit(a.drain(drains), redact));
    assert DrainsHit(a, drains + 2, redact)
        == (DrainsHit(a, drains + 1, redact) || DrainHit(a.drain(drains + 1), redact));
    r := Returned(run);
  }

  // ----- consequences -----

  /** The adapter is called in one of six ways, and rolled back with the snapshot it gave. */
  lemma SixTraces(q: Request, a: Adapter)
    ensures var calls := ExpectedCalls(q, a);
      var undo := if a.snapshot.Returned? then [CallRollback(Some(a.snapshot.result))] else [];
      || (calls == [] && !Mutates(q))
      || (calls == [CallSnapshot] && a.snapshot.Threw?)
      || calls == [CallSnapshot, CallApply] || calls == [CallSnapshot, CallApply] + undo
      || calls == [CallSnapshot, CallApply, CallVerify] || calls == [CallSnapshot, CallApply, CallVerify] + undo
    ensures ExpectedStatus(q, a).Succeeded? ==>
      ExpectedCalls(q, a) == [CallSnapshot, CallApply, CallVerify]
      && a.apply.Returned? && a.apply.result.ok && a.verify.Returned? && a.verify.result.ok
    ensures (exists s :: CallRollback(s) in ExpectedCalls(q, a)) <==>
      q.canRollback && !Escapes(q, a) && CallApply in ExpectedCalls(q, a) && !ExpectedStatus(q, a).Succeeded?
    ensures forall s :: CallRollback(s) in ExpectedCalls(q, a) ==>
      a.snapshot.Returned? && s == Some(a.snapshot.result)
  {
    hide MutatingKind, DetectOnly;
    if Mutates(q) {
      CallsOfCourse(q, a);
      if RollsBack(q, a) {
        assert CallRollback(Some(a.snapshot.result)) in RollbackCalls(q, a);
      }
    }
  }

  /** As long as draining does not throw, no exception leaves the runner, and success means both steps were ok. */
  lemma QuietDrainsNeverEscape(q: Request, a: Adapter)
    requires forall k :: !a.drain(k).DrainThrows?
    ensures !Escapes(q, a)
    ensures Mutates(q) ==>
      (ExpectedStatus(q, a).Succeeded? <==>
        a.snapshot.Returned? && a.apply.Returned? && a.apply.result.ok && a.verify.Returned? && a.verify.result.ok)
  {
    hide MutatingKind, DetectOnly;
  }

  /**
   * The record says `redacted` is true if any message held a secret. It is not: a secret in the
   * message of a successful apply is cut from the record without raising the flag.
   */
  method SecretWithoutFlag() returns (run: ActionRun, redact: Redactor)
    ensures run.status.Succeeded? && !run.redacted
    ensures run.applyResult.Some? && run.applyResult.value.message == "<hidden>" && redact("secret").redacted
  {
    redact := (text: string) => if text == "secret" then Redaction("<hidden>", true) else Redaction(text, false);
    var a := Adapter(
      Returned(ActionSnapshot("generic", "", None, None)),
      Returned(ApplyResult(true, "secret", [], None)),
      Returned(VerifyResult(true, [], "")),
      _ => Threw(""), _ => NoOutput);
    var q := Request("p", "i", "a", None, "full", "writeConfig", true, false);
    assert MutatingKind("writeConfig");
    assert q.supportLevel[0] != "detect-only"[0];
    assert CourseOf(a).AllGood?;
    assert !DrainsHit(a, 1, redact) && !DrainsHit(a, 2, redact);
    var r, calls := RunManagedAction(q, a, redact, k => k);
    run := r.result;
  }

  /** Every terminal state, and none else, is the end of some run. */
  lemma EndOfSomeRun(s: Status) returns (q: Request, a: Adapter)
    requires Terminal(s)
    ensures ExpectedStatus(q, a) == s
  {
    var snapshot := Returned(ActionSnapshot("generic", "", None, None));
    var rollback := Returned(RollbackResult(s.RolledBack?, [], ""));
    a := Adapter(
      snapshot, Returned(ApplyResult(s.Succeeded?, "", [], None)), Returned(VerifyResult(true, [], "")),
      _ => rollback, _ => NoOutput);
    q := Request("p", "i", "a", None, if s.ManualRequired? then "detect-only" else "full",
                 "writeConfig", s.RolledBack? || s.RollbackFailed?, s.Skipped?);
    assert MutatingKind("writeConfig");
    assert "full"[0] != "detect-only"[0];
  }

  lemma EndIsTerminal(q: Request, a: Adapter)
    ensures Terminal(ExpectedStatus(q, a))
  {
  }

  /**
   * No exception should leave the runner. One does here: apply throws and so does draining, and the
   * action that was half applied is not rolled back although it could be.
   */
  method DrainEscapes() returns (r: Outcome<ActionRun>, calls: seq<Call>)
    ensures r.Threw? && calls == [CallSnapshot, CallApply]
  {
    var a := Adapter(
      Returned(ActionSnapshot("generic", "", None, None)),
      Threw("connection lost"), Threw(""), _ => Threw(""), _ => DrainThrows("connection lost"));
    var q := Request("p", "i", "a", None, "full", "writeConfig", true, false);
    assert MutatingKind("writeConfig");
    assert q.supportLevel[0] != "detect-only"[0];
    assert CourseOf(a) == ApplyFails(0, "connection lost");
    r, calls := RunManagedAction(q, a, text => Redaction(text, false), k => k);
  }

  predicate StepsHit(steps: seq<StepResult>, redact: Redactor) {
    exists i :: 0 <= i < |steps| &&
      (Hit(steps[i].name, redact) || (steps[i].message.Some? && Hit(steps[i].message.value, redact)))
  }

  predicate VerifyHit(r: VerifyResult, redact: Redactor) {
    Hit(r.message, redact)
    || exists i :: 0 <= i < |r.checks| && (Hit(r.checks[i].command, redact) || Hit(r.checks[i].output, redact))
  }

  /** A text of a stored result was cut. */
  predicate ResultsHit(q: Request, a: Adapter, redact: Redactor) {
    Mutates(q) && a.snapshot.Returned? &&
    (|| (a.apply.Returned? && (Hit(a.apply.result.message, redact) || StepsHit(a.apply.result.steps, redact)))
     || ((CourseOf(a).VerifyFails? || CourseOf(a).AllGood?) && a.verify.Returned? && VerifyHit(a.verify.result, redact))
     || (RollsBack(q, a) && RollbackAnswer(a).Returned? && !a.drain(CourseOf(a).errorDrain + 1).DrainThrows?
         && (Hit(RollbackAnswer(a).result.message, redact) || StepsHit(RollbackAnswer(a).result.steps, redact))))
  }

  /** The error, or what stands for a rollback that threw, was cut. */
  predicate MessagesHit(q: Request, a: Adapter, redact: Redactor) {
    || (Mutates(q) && !CourseOf(a).AllGood? && Hit(CourseOf(a).message, redact))
    || (RollsBack(q, a) && Hit(RollbackMessage(a), redact))
  }

  /** The text of the kept preview was cut. */
  predicate PreviewHit(a: Adapter, n: nat, redact: Redactor, out: bool) {
    n > 0 &&
    var d := a.drain(n - 1);
    if Drops(d, out) then PreviewHit(a, n - 1, redact, out) else Hit(if out then d.stdout else d.stderr, redact)
  }

  predicate PreviewsHit(q: Request, a: Adapter, redact: Redactor) {
    PreviewHit(a, DrainsUsed(q, a), redact, true) || PreviewHit(a, DrainsUsed(q, a), redact, false)
  }

  /** Some text that was to go into the record was cut. */
  predicate TextCut(q: Request, a: Adapter, redact: Redactor) {
    PreviewsHit(q, a, redact) || MessagesHit(q, a, redact) || ResultsHit(q, a, redact)
  }

  /** An output that held a secret was drained, and a later one was drained after it. */
  predicate Replaced(a: Adapter, n: nat, redact: Redactor) {
    exists k, j :: 0 <= k < j < n && DrainHit(a.drain(k), redact) && a.drain(j).Output?
  }

  /**
   * What the flag is worth. A secret in a preview or a message of the record always raises it; so
   * it tells of every text that was cut iff no result lost one while it stayed down. And when it is
   * raised, such a text is in the record, or was in a preview that a later one replaced.
   */
  lemma FlagMeaning(q: Request, a: Adapter, redact: Redactor)
    ensures PreviewsHit(q, a, redact) || MessagesHit(q, a, redact) ==> Flagged(q, a, redact)
    ensures (TextCut(q, a, redact) ==> Flagged(q, a, redact)) <==> (ResultsHit(q, a, redact) ==> Flagged(q, a, redact))
    ensures Flagged(q, a, redact) ==>
      PreviewsHit(q, a, redact) || MessagesHit(q, a, redact) || Replaced(a, DrainsUsed(q, a), redact)
  {
    hide Mutates, CourseOf, RollsBack, DrainsUsed, DrainsHit, PreviewHit, DrainHit, Replaced, ResultsHit;
    HitIsKeptOrReplaced(a, DrainsUsed(q, a), redact);
  }

  lemma {:induction false} HitIsKeptOrReplaced(a: Adapter, n: nat, redact: Redactor)
    ensures PreviewHit(a, n, redact, true) || PreviewHit(a, n, redact, false) ==> DrainsHit(a, n, redact)
    ensures DrainsHit(a, n, redact) ==>
      PreviewHit(a, n, redact, true) || PreviewHit(a, n, redact, false) || Replaced(a, n, redact)
  {
    if n == 0 {
    } else {
      HitIsKeptOrReplaced(a, n - 1, redact);
      if DrainsHit(a, n - 1, redact) && a.drain(n - 1).Output? {
        ReplacedByLast(a, n, redact);
      }
    }
  }

  lemma ReplacedByLast(a: Adapter, n: nat, redact: Redactor)
    requires n > 0 && DrainsHit(a, n - 1, redact) && a.drain(n - 1).Output?
    ensures Replaced(a, n, redact)
  {
    var k := SomeHit(a, n - 1, redact);
    assert DrainHit(a.drain(k), redact);
  }

  lemma {:induction false} SomeHit(a: Adapter, n: nat, redact: Redactor) returns (k: nat)
    requires DrainsHit(a, n, redact)
    ensures k < n && DrainHit(a.drain(k), redact)
  {
    if DrainHit(a.drain(n - 1), redact) {
      k := n - 1;
    } else {
      k := SomeHit(a, n - 1, redact);
    }
  }

  /** A preview in a record is that of a drained output, redacted and cut: the last one that was not empty. */
  lemma {:induction false} PreviewsAreRedacted(a: Adapter, n: nat, redact: Redactor, out: bool)
    ensures var kept := Kept(a, n, redact, out);
      if kept.None? then forall k :: 0 <= k < n ==> Drops(a.drain(k), out)
      else exists k :: 0 <= k < n && KeptFrom(a, k, n, redact, out, kept.value)
  {
    if n == 0 {
    } else if Drops(a.drain(n - 1), out) {
      PreviewsAreRedacted(a, n - 1, redact, out);
      var kept := Kept(a, n, redact, out);
      if kept.Some? {
        var k :| 0 <= k < n - 1 && KeptFrom(a, k, n - 1, redact, out, kept.value);
        assert KeptFrom(a, k, n, redact, out, kept.value);
      }
    } else {
      assert KeptFrom(a, n - 1, n, redact, out, Kept(a, n, redact, out).value);
    }
  }

  predicate KeptFrom(a: Adapter, k: nat, n: nat, redact: Redactor, out: bool, preview: string) {
    !Drops(a.drain(k), out) && (forall j :: k < j < n ==> Drops(a.drain(j), out))
    && preview == Truncated(redact(if out then a.drain(k).stdout else a.drain(k).stderr).text)
  }

  // ----- the stored runs -----

  const MAX_RUNS := 1000

  predicate Suffix(s: seq<ActionRun>, whole: seq<ActionRun>) {
    |s| <= |whole| && s == whole[|whole| - |s|..]
  }

  /** The record comes last, in order, and only what no longer fits is gone. */
  predicate Recorded(before: seq<ActionRun>, record: ActionRun, after: seq<ActionRun>) {
    Suffix(after, before + [record]) && |after| == if |before| < MAX_RUNS then |before| + 1 else MAX_RUNS
  }

  class RunStore {
    var runs: seq<ActionRun>

    constructor ()
      ensures runs == []
    {
      runs := [];
    }

    method RecordActionRun(record: ActionRun)
      modifies this
      ensures Recorded(old(runs), record, runs)
      ensures runs[|runs| - 1] == record
    {
      runs := runs + [record];
      if |runs| > MAX_RUNS {
        runs := runs[|runs| - MAX_RUNS..];
      }
    }
  }

  /** However many runs are recorded, the store holds the newest thousand of the whole history, in order. */
  lemma {:induction false} StoreHoldsNewest(stores: seq<seq<ActionRun>>, records: seq<ActionRun>)
    requires |stores| == |records| + 1 && |stores[0]| <= 1000
    requires forall i :: 0 <= i < |records| ==> Recorded(stores[i], records[i], stores[i + 1])
    ensures var history, store := stores[0] + records, stores[|records|];
      Suffix(store, history) && |store| == if |history| < 1000 then |history| else 1000
  {
    if records == [] {
      assert stores[0] + records == stores[0];
    } else {
      var n := |records| - 1;
      StoreHoldsNewest(stores[..n + 1], records[..n]);
      var before, history := stores[n], stores[0] + records[..n];
      assert history + [records[n]] == stores[0] + records;
      assert before + [records[n]] == (history + [records[n]])[|history| - |before|..];
    }
  }
}
