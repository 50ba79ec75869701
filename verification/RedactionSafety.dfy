/**
 * What a secret can do to a record: nothing. The stored texts are told one by one, and two runs
 * whose texts redact alike leave the same record.
 */
module RedactionSafety {
  import opened Wrappers
  import opened ActionRuns
  import opened ManagedExecution
  import D = Decimal

  // ----- the stored results, text by text -----

  /** A text as the redactor gives it; the empty text stays as it is. */
  function AsShown(given: string, redact: Redactor): string {
    if given == "" then "" else redact(given).text
  }

  predicate Shown(stored: string, given: string, redact: Redactor) {
    stored == AsShown(given, redact)
  }

  predicate ShownIfAny(stored: Option<string>, given: Option<string>, redact: Redactor) {
    if given.None? || given.value == "" then stored.None? else stored.Some? && Shown(stored.value, given.value, redact)
  }

  predicate StepsStored(stored: seq<StepResult>, given: seq<StepResult>, redact: Redactor) {
    |stored| == |given| && forall i :: 0 <= i < |given| ==>
      && stored[i].ok == given[i].ok && Shown(stored[i].name, given[i].name, redact)
      && ShownIfAny(stored[i].message, given[i].message, redact)
  }

  /** Redacted first, then cut: at most 4096 characters of that, and a note on how many are missing. */
  predicate Cut(stored: string, given: string, redact: Redactor) {
    var whole := AsShown(given, redact);
    if |whole| <= 4096 then stored == whole
    else stored == whole[..4096] + "\n\U{2026}[truncated " + D.Print(|whole| - 4096) + " bytes]"
  }

  predicate ApplyStored(stored: ApplyResult, given: ApplyResult, redact: Redactor) {
    stored.ok == given.ok && stored.tempPath == given.tempPath && Shown(stored.message, given.message, redact)
    && StepsStored(stored.steps, given.steps, redact)
  }

  predicate VerifyStored(stored: VerifyResult, given: VerifyResult, redact: Redactor) {
    stored.ok == given.ok && Shown(stored.message, given.message, redact)
    && |stored.checks| == |given.checks| && forall i :: 0 <= i < |given.checks| ==>
      && stored.checks[i].ok == given.checks[i].ok
      && Shown(stored.checks[i].command, given.checks[i].command, redact)
      && Cut(stored.checks[i].output, given.checks[i].output, redact)
  }

  predicate RollbackStored(stored: RollbackResult, given: RollbackResult, redact: Redactor) {
    stored.ok == given.ok && Shown(stored.message, given.message, redact)
    && StepsStored(stored.steps, given.steps, redact)
  }

  lemma ApplyIsStored(r: ApplyResult, redact: Redactor)
    ensures ApplyStored(CleanApply(r, redact), r, redact)
  {
  }

  lemma RollbackIsStored(r: RollbackResult, redact: Redactor)
    ensures RollbackStored(CleanRollback(r, redact), r, redact)
  {
  }

  lemma PreviewIsCut(text: string, redact: Redactor)
    ensures Cut(Preview(text, redact), text, redact)
  {
  }

  lemma VerifyIsStored(r: VerifyResult, redact: Redactor)
    ensures VerifyStored(CleanVerify(r, redact), r, redact)
  {
    hide Preview, Cut;
    forall i | 0 <= i < |r.checks|
      ensures Cut(CleanVerify(r, redact).checks[i].output, r.checks[i].output, redact)
    {
      PreviewIsCut(r.checks[i].output, redact);
    }
  }

  /** What stands for a rollback that threw, or whose output could not be drained. */
  predicate FailureStored(stored: RollbackResult, message: string, redact: Redactor) {
    !stored.ok && stored.steps == [] && Shown(stored.message, message, redact)
  }

  /** Every stored result of a finished record is the adapter's, text by text. */
  lemma FinishedIsStored(run: ActionRun, q: Request, a: Adapter, redact: Redactor)
    requires Finished(run, q, a, redact) && Mutates(q)
    ensures run.applyResult.Some? ==> a.apply.Returned? && ApplyStored(run.applyResult.value, a.apply.result, redact)
    ensures run.verifyResult.Some? ==>
      a.verify.Returned? && VerifyStored(run.verifyResult.value, a.verify.result, redact)
    ensures run.rollbackResult.Some? ==> (
      && RollsBack(q, a)
      && var answer, drained := RollbackAnswer(a), a.drain(CourseOf(a).errorDrain + 1);
      if answer.Threw? then FailureStored(run.rollbackResult.value, answer.message, redact)
      else if drained.DrainThrows? then FailureStored(run.rollbackResult.value, drained.message, redact)
      else RollbackStored(run.rollbackResult.value, answer.result, redact))
  {
    hide CleanApply, CleanVerify, CleanRollback, ApplyStored, VerifyStored, RollbackStored;
    hide MutatingKind, DetectOnly, Flagged, Previews, ExpectedStatus, ExpectedError, ExpectedExit;
    if a.apply.Returned? {
      ApplyIsStored(a.apply.result, redact);
    }
    if a.verify.Returned? {
      VerifyIsStored(a.verify.result, redact);
    }
    if a.snapshot.Returned? && RollbackAnswer(a).Returned? {
      RollbackIsStored(RollbackAnswer(a).result, redact);
    }
  }

  /** A step that was not ok is named in the error, with its redacted message or, without one, a fixed text. */
  lemma ErrorNamesStep(run: ActionRun, q: Request, a: Adapter, redact: Redactor)
    requires Finished(run, q, a, redact) && Mutates(q) && a.snapshot.Returned? && a.apply.Returned?
    requires !a.drain(0).DrainThrows?
    ensures !a.apply.result.ok ==> run.error == Some("[apply] " + AsShown(
      if a.apply.result.message == "" then "apply step reported ok=false" else a.apply.result.message, redact))
    ensures a.apply.result.ok && a.verify.Returned? && !a.drain(1).DrainThrows? && !a.verify.result.ok ==>
      run.error == Some("[verify] " + AsShown(
        if a.verify.result.message == "" then "verify step reported ok=false" else a.verify.result.message, redact))
  {
    hide MutatingKind, DetectOnly, Flagged, Previews, ExpectedStatus, ExpectedExit, Collected, ExpectedRollback;
    assert "[" + "apply" + "] " == "[apply] " && "[" + "verify" + "] " == "[verify] ";
  }

  // ----- texts that redact alike -----

  predicate SameText(x: string, y: string, redact: Redactor) {
    (x == "" <==> y == "") && (x != "" ==> redact(x) == redact(y))
  }

  predicate SameOption(x: Option<string>, y: Option<string>, redact: Redactor) {
    x.Some? == y.Some? && (x.Some? ==> SameText(x.value, y.value, redact))
  }

  predicate SameSteps(s: seq<StepResult>, t: seq<StepResult>, redact: Redactor) {
    |s| == |t| && forall i :: 0 <= i < |s| ==>
      s[i].ok == t[i].ok && SameText(s[i].name, t[i].name, redact) && SameOption(s[i].message, t[i].message, redact)
  }

  predicate SameApply(x: Outcome<ApplyResult>, y: Outcome<ApplyResult>, redact: Redactor) {
    if x.Threw? || y.Threw? then x.Threw? && y.Threw? && SameText(x.message, y.message, redact)
    else x.result.ok == y.result.ok && x.result.tempPath == y.result.tempPath
         && SameText(x.result.message, y.result.message, redact) && SameSteps(x.result.steps, y.result.steps, redact)
  }

  predicate SameVerify(x: Outcome<VerifyResult>, y: Outcome<VerifyResult>, redact: Redactor) {
    if x.Threw? || y.Threw? then x.Threw? && y.Threw? && SameText(x.message, y.message, redact)
    else x.result.ok == y.result.ok && SameText(x.result.message, y.result.message, redact)
         && |x.result.checks| == |y.result.checks|
         && forall i :: 0 <= i < |x.result.checks| ==>
           && x.result.checks[i].ok == y.result.checks[i].ok
           && SameText(x.result.checks[i].command, y.result.checks[i].command, redact)
           && SameText(x.result.checks[i].output, y.result.checks[i].output, redact)
  }

  predicate SameRollback(x: Outcome<RollbackResult>, y: Outcome<RollbackResult>, redact: Redactor) {
    if x.Threw? || y.Threw? then x.Threw? && y.Threw? && SameText(x.message, y.message, redact)
    else x.result.ok == y.result.ok && SameText(x.result.message, y.result.message, redact)
         && SameSteps(x.result.steps, y.result.steps, redact)
  }

  predicate SameDrain(d: Drained, e: Drained, redact: Redactor) {
    match d
    case NoOutput => e.NoOutput?
    case Output(out, err) => e.Output? && SameText(out, e.stdout, redact) && SameText(err, e.stderr, redact)
    case DrainThrows(m) => e.DrainThrows? && SameText(m, e.message, redact)
  }

  /** Two adapters that answer alike, except in texts that redact alike, and in the snapshot. */
  ghost predicate Alike(a: Adapter, b: Adapter, redact: Redactor) {
    && (if a.snapshot.Threw? || b.snapshot.Threw?
        then a.snapshot.Threw? && b.snapshot.Threw? && SameText(a.snapshot.message, b.snapshot.message, redact)
        else SameRollback(a.rollback(Some(a.snapshot.result)), b.rollback(Some(b.snapshot.result)), redact))
    && SameApply(a.apply, b.apply, redact) && SameVerify(a.verify, b.verify, redact)
    && forall k :: SameDrain(a.drain(k), b.drain(k), redact)
  }

  lemma SameRedacted(x: string, y: string, redact: Redactor)
    requires SameText(x, y, redact)
    ensures Redact(x, redact) == Redact(y, redact) && Preview(x, redact) == Preview(y, redact)
  {
  }

  lemma StepsClean(s: seq<StepResult>, t: seq<StepResult>, redact: Redactor)
    requires SameSteps(s, t, redact)
    ensures CleanSteps(s, redact) == CleanSteps(t, redact)
  {
    hide Redact, Truncated;
    forall i | 0 <= i < |s|
      ensures CleanSteps(s, redact)[i] == CleanSteps(t, redact)[i]
    {
      SameRedacted(s[i].name, t[i].name, redact);
      if s[i].message.Some? {
        SameRedacted(s[i].message.value, t[i].message.value, redact);
      }
    }
  }

  lemma ApplyClean(x: Outcome<ApplyResult>, y: Outcome<ApplyResult>, redact: Redactor)
    requires SameApply(x, y, redact) && x.Returned?
    ensures CleanApply(x.result, redact) == CleanApply(y.result, redact)
  {
    hide CleanSteps, Redact, SameSteps;
    SameRedacted(x.result.message, y.result.message, redact);
    StepsClean(x.result.steps, y.result.steps, redact);
  }

  lemma RollbackClean(x: Outcome<RollbackResult>, y: Outcome<RollbackResult>, redact: Redactor)
    requires SameRollback(x, y, redact) && x.Returned?
    ensures CleanRollback(x.result, redact) == CleanRollback(y.result, redact)
  {
    hide CleanSteps, Redact, SameSteps;
    SameRedacted(x.result.message, y.result.message, redact);
    StepsClean(x.result.steps, y.result.steps, redact);
  }

  lemma VerifyClean(x: Outcome<VerifyResult>, y: Outcome<VerifyResult>, redact: Redactor)
    requires SameVerify(x, y, redact) && x.Returned?
    ensures CleanVerify(x.result, redact) == CleanVerify(y.result, redact)
  {
    hide Redact, Preview;
    SameRedacted(x.result.message, y.result.message, redact);
    forall i | 0 <= i < |x.result.checks|
      ensures CleanVerify(x.result, redact).checks[i] == CleanVerify(y.result, redact).checks[i]
    {
      SameRedacted(x.result.checks[i].command, y.result.checks[i].command, redact);
      SameRedacted(x.result.checks[i].output, y.result.checks[i].output, redact);
    }
  }

  // ----- the same course, the same record -----

  predicate SameCourse(c: Course, d: Course, redact: Redactor) {
    match c
    case AllGood => d.AllGood?
    case SnapshotFails(k, m) => d.SnapshotFails? && k == d.errorDrain && SameText(m, d.message, redact)
    case ApplyFails(k, m) => d.ApplyFails? && k == d.errorDrain && SameText(m, d.message, redact)
    case VerifyFails(k, m) => d.VerifyFails? && k == d.errorDrain && SameText(m, d.message, redact)
  }

  lemma CoursesAlike(a: Adapter, b: Adapter, redact: Redactor)
    requires Alike(a, b, redact)
    ensures SameCourse(CourseOf(a), CourseOf(b), redact)
  {
    hide SameSteps;
    assert SameDrain(a.drain(0), b.drain(0), redact) && SameDrain(a.drain(1), b.drain(1), redact);
  }

  lemma {:induction false} DrainsAlike(a: Adapter, b: Adapter, n: nat, redact: Redactor, out: bool)
    requires forall k :: SameDrain(a.drain(k), b.drain(k), redact)
    ensures DrainsHit(a, n, redact) == DrainsHit(b, n, redact) && Kept(a, n, redact, out) == Kept(b, n, redact, out)
  {
    hide Redact, Preview;
    if n == 0 {
    } else {
      DrainsAlike(a, b, n - 1, redact, out);
      var d, e := a.drain(n - 1), b.drain(n - 1);
      assert SameDrain(d, e, redact);
      if d.Output? {
        SameRedacted(d.stdout, e.stdout, redact);
        SameRedacted(d.stderr, e.stderr, redact);
      }
    }
  }

  lemma RollbacksAlike(q: Request, a: Adapter, b: Adapter, redact: Redactor)
    requires Alike(a, b, redact)
    ensures Escapes(q, a) == Escapes(q, b) && RollsBack(q, a) == RollsBack(q, b)
    ensures RollsBack(q, a) ==> (
      && a.snapshot.Returned? && b.snapshot.Returned?
      && SameRollback(RollbackAnswer(a), RollbackAnswer(b), redact) && RollbackWorks(a) == RollbackWorks(b)
      && SameText(RollbackMessage(a), RollbackMessage(b), redact))
  {
    hide CourseOf, SameSteps, MutatingKind, DetectOnly;
    CoursesAlike(a, b, redact);
    var k := if CourseOf(a).AllGood? then 0 else CourseOf(a).errorDrain;
    assert SameDrain(a.drain(k), b.drain(k), redact) && SameDrain(a.drain(k + 1), b.drain(k + 1), redact);
    SnapshotReturned(a);
  }

  lemma SnapshotReturned(a: Adapter)
    ensures CourseOf(a).ApplyFails? || CourseOf(a).VerifyFails? ==> a.snapshot.Returned?
  {
  }

  /** Finished records of two runs whose adapters answer alike agree in everything but the snapshot. */
  lemma SameRecords(r: ActionRun, s: ActionRun, q: Request, a: Adapter, b: Adapter, redact: Redactor)
    requires Alike(a, b, redact) && Finished(r, q, a, redact) && Finished(s, q, b, redact)
    ensures r.status == s.status && r.exitCode == s.exitCode && r.error == s.error && r.redacted == s.redacted
    ensures r.stdoutPreview == s.stdoutPreview && r.stderrPreview == s.stderrPreview
    ensures r.applyResult == s.applyResult && r.verifyResult == s.verifyResult && r.rollbackResult == s.rollbackResult
    ensures EndTick(q, a) == EndTick(q, b)
  {
    hide CourseOf, Redact, CleanApply, CleanVerify, CleanRollback, MutatingKind, DetectOnly, DrainsHit, Kept;
    hide SameApply, SameVerify, SameRollback, RollbackWorks, RollbackMessage, SameText;
    CoursesAlike(a, b, redact);
    RollbacksAlike(q, a, b, redact);
    SameParts(q, a, b, redact);
    DrainsAlike(a, b, DrainsUsed(q, a), redact, true);
    DrainsAlike(a, b, DrainsUsed(q, a), redact, false);
  }

  lemma SameParts(q: Request, a: Adapter, b: Adapter, redact: Redactor)
    requires Alike(a, b, redact)
    ensures a.snapshot.Returned? == b.snapshot.Returned?
    ensures a.apply.Returned? == b.apply.Returned? && a.verify.Returned? == b.verify.Returned?
    ensures a.apply.Returned? ==> CleanApply(a.apply.result, redact) == CleanApply(b.apply.result, redact)
    ensures a.verify.Returned? ==> CleanVerify(a.verify.result, redact) == CleanVerify(b.verify.result, redact)
    ensures ExpectedRollback(q, a, redact) == ExpectedRollback(q, b, redact)
    ensures ExpectedError(q, a, redact) == ExpectedError(q, b, redact)
    ensures DrainsUsed(q, a) == DrainsUsed(q, b)
    ensures Flagged(q, a, redact) == Flagged(q, b, redact)
  {
    hide CourseOf, Redact, CleanApply, CleanVerify, CleanRollback, MutatingKind, DetectOnly, DrainsHit, SameSteps;
    CoursesAlike(a, b, redact);
    RollbacksAlike(q, a, b, redact);
    if a.apply.Returned? {
      ApplyClean(a.apply, b.apply, redact);
    }
    if a.verify.Returned? {
      VerifyClean(a.verify, b.verify, redact);
    }
    if !CourseOf(a).AllGood? {
      SameRedacted(CourseOf(a).message, CourseOf(b).message, redact);
    }
    if RollsBack(q, a) {
      SameRedacted(RollbackMessage(a), RollbackMessage(b), redact);
      assert SameDrain(a.drain(CourseOf(a).errorDrain + 1), b.drain(CourseOf(a).errorDrain + 1), redact);
      if RollbackAnswer(a).Returned? {
        RollbackClean(RollbackAnswer(a), RollbackAnswer(b), redact);
      }
    }
    DrainsAlike(a, b, DrainsUsed(q, a), redact, true);
  }

  /** Secrets that redact alike are indistinguishable in the record, however the run goes. */
  method RunTwice(q: Request, a: Adapter, b: Adapter, redact: Redactor, clock: nat -> Time)
    returns (r: Outcome<ActionRun>, s: Outcome<ActionRun>)
    requires Alike(a, b, redact)
    ensures r.Returned? <==> s.Returned?
    ensures r.Returned? ==> r.result.(snapshot := None) == s.result.(snapshot := None)
  {
    hide Finished, Alike, Escapes, EndTick;
    var calls, others;
    r, calls := RunManagedAction(q, a, redact, clock);
    s, others := RunManagedAction(q, b, redact, clock);
    RollbacksAlike(q, a, b, redact);
    if r.Returned? {
      SameRecords(r.result, s.result, q, a, b, redact);
    }
  }
}
