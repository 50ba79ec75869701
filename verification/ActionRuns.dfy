/** The record of one managed action, and its state machine. */
module ActionRuns {
  import opened Wrappers

  datatype Status =
    | Pending | Snapshotting | Applying | Verifying | Succeeded | Failed
    | RollingBack | RolledBack | RollbackFailed | Skipped | ManualRequired

  type Time = int

  datatype ActionSnapshot = ActionSnapshot(
    kind: string, capturedAt: string, path: Option<string>, sha256: Option<string>)
  datatype StepResult = StepResult(name: string, ok: bool, message: Option<string>)
  datatype ApplyResult = ApplyResult(ok: bool, message: string, steps: seq<StepResult>, tempPath: Option<string>)
  datatype CheckResult = CheckResult(command: string, ok: bool, output: string)
  datatype VerifyResult = VerifyResult(ok: bool, checks: seq<CheckResult>, message: string)
  datatype RollbackResult = RollbackResult(ok: bool, steps: seq<StepResult>, message: string)

  datatype ActionRun = ActionRun(
    planId: string, itemId: string, actionId: string, dryRun: bool, exitCode: Option<int>,
    startedAt: Time, endedAt: Option<Time>, status: Status,
    snapshot: Option<ActionSnapshot>, applyResult: Option<ApplyResult>,
    verifyResult: Option<VerifyResult>, rollbackResult: Option<RollbackResult>,
    stdoutPreview: Option<string>, stderrPreview: Option<string>, redacted: bool, error: Option<string>)

  function NewActionRun(planId: string, itemId: string, actionId: string, dryRun: bool, now: Time): ActionRun {
    ActionRun(planId, itemId, actionId, dryRun, None, now, None, Pending,
              None, None, None, None, None, None, false, None)
  }

  function Allowed(from: Status): set<Status> {
    match from
    case Pending => {Snapshotting, Skipped, ManualRequired, Failed}
    case Snapshotting => {Applying, Failed, Skipped}
    case Applying => {Verifying, Failed}
    case Verifying => {Succeeded, Failed}
    case Failed => {RollingBack, RolledBack}
    case RollingBack => {RolledBack, RollbackFailed}
    case ManualRequired => {Pending, Skipped}
    case _ => {}
  }

  predicate Terminal(s: Status) {
    s.Succeeded? || s.Failed? || s.RolledBack? || s.RollbackFailed? || s.Skipped? || s.ManualRequired?
  }

  /** An illegal move throws; a move to a terminal state stamps endedAt, any other keeps it. */
  function Transition(record: ActionRun, to: Status, now: Time): Outcome<ActionRun> {
    if to in Allowed(record.status) then
      Returned(record.(status := to, endedAt := if Terminal(to) then Some(now) else record.endedAt))
    else Threw("illegal transition")
  }

  // ----- chains of transitions -----

  datatype Move = Move(to: Status, at: Time)

  /** Any number of transition calls one after the other, up to the first that throws. */
  function Transitions(record: ActionRun, moves: seq<Move>): Outcome<ActionRun> {
    if moves == [] then Returned(record)
    else
      var before := Transitions(record, moves[..|moves| - 1]);
      if before.Threw? then before
      else Transition(before.result, moves[|moves| - 1].to, moves[|moves| - 1].at)
  }

  predicate Fresh(r: ActionRun) {
    r.status.Pending? && r.endedAt.None?
  }

  function Targets(moves: seq<Move>): (ss: seq<Status>)
    ensures |ss| == |moves| && forall i :: 0 <= i < |ss| ==> ss[i] == moves[i].to
  {
    seq(|moves|, i requires 0 <= i < |moves| => moves[i].to)
  }

  lemma LastMove(record: ActionRun, moves: seq<Move>)
    requires Transitions(record, moves).Returned?
    ensures moves == [] ==> Transitions(record, moves).result == record
    ensures moves != [] ==> var before := Transitions(record, moves[..|moves| - 1]);
      && before.Returned?
      && moves[|moves| - 1].to in Allowed(before.result.status)
      && Transitions(record, moves).result.status == moves[|moves| - 1].to
  {
  }

  /** Success is reached only as snapshotting, applying, verifying, succeeded, in that order. */
  lemma SucceededInOrder(record: ActionRun, moves: seq<Move>)
    requires Fresh(record)
    requires Transitions(record, moves).Returned? && Transitions(record, moves).result.status.Succeeded?
    ensures |moves| >= 4 && Targets(moves)[|moves| - 4..] == [Snapshotting, Applying, Verifying, Succeeded]
  {
    hide Transitions, Transition, Allowed;
    var n := |moves|;
    Before(record, moves);
    Before(record, moves[..n - 1]);
    assert moves[..n - 1][..n - 2] == moves[..n - 2];
    Before(record, moves[..n - 2]);
    assert moves[..n - 2][..n - 3] == moves[..n - 3];
    Before(record, moves[..n - 3]);
    assert moves[..n - 3][..n - 4] == moves[..n - 4];
  }

  /** The way to success has no side entrance. */
  predicate Follows(from: Status, to: Status) {
    && (to.Succeeded? ==> from.Verifying?) && (to.Verifying? ==> from.Applying?)
    && (to.Applying? ==> from.Snapshotting?) && (to.Snapshotting? ==> from.Pending?)
  }

  lemma AllowedFollows(from: Status, to: Status)
    requires to in Allowed(from)
    ensures Follows(from, to)
  {
  }

  /** The state before the last one, when that is not the first state of all. */
  lemma Before(record: ActionRun, moves: seq<Move>)
    requires Fresh(record) && Transitions(record, moves).Returned? && !Transitions(record, moves).result.status.Pending?
    ensures moves != [] && var before := Transitions(record, moves[..|moves| - 1]);
      && before.Returned?
      && Follows(before.result.status, moves[|moves| - 1].to)
      && Transitions(record, moves).result.status == moves[|moves| - 1].to
  {
    hide Transitions, Allowed, Follows;
    LastMove(record, moves);
    AllowedFollows(Transitions(record, moves[..|moves| - 1]).result.status, moves[|moves| - 1].to);
  }

  /** Nothing leaves succeeded, rolled-back, rollback-failed or skipped; failed and manual-required can be left. */
  predicate Absorbing(s: Status) {
    s.Succeeded? || s.RolledBack? || s.RollbackFailed? || s.Skipped?
  }

  lemma {:induction false} AbsorbingStays(record: ActionRun, moves: seq<Move>)
    ensures Absorbing(record.status) ==> (Transitions(record, moves).Returned? <==> moves == [])
    ensures Terminal(record.status) && !Absorbing(record.status) ==> exists to :: Transition(record, to, 0).Returned?
  {
    if moves != [] {
      AbsorbingStays(record, moves[..|moves| - 1]);
    }
    if record.status.Failed? {
      assert Transition(record, RollingBack, 0).Returned?;
    } else if record.status.ManualRequired? {
      assert Transition(record, Skipped, 0).Returned?;
    }
  }

  /** The time of the last move to a terminal state. */
  function LastEnd(moves: seq<Move>): Option<Time> {
    if moves == [] then None
    else if Terminal(moves[|moves| - 1].to) then Some(moves[|moves| - 1].at)
    else LastEnd(moves[..|moves| - 1])
  }

  /**
   * endedAt is the time of the last terminal state visited, and unset iff there was none. So a
   * terminal status has it set, and a record rolling back keeps the time at which it failed.
   */
  lemma {:induction false} EndedAtIsLastEnd(record: ActionRun, moves: seq<Move>)
    requires Fresh(record) && Transitions(record, moves).Returned?
    ensures var r := Transitions(record, moves).result;
      && r.endedAt == LastEnd(moves)
      && (Terminal(r.status) ==> r.endedAt.Some?)
      && r.startedAt == record.startedAt
  {
    if moves == [] {
    } else {
      EndedAtIsLastEnd(record, moves[..|moves| - 1]);
    }
  }

  /** How often a chain reopens a manual-required record. */
  function Reopenings(moves: seq<Move>): nat {
    if moves == [] then 0
    else Reopenings(moves[..|moves| - 1]) + if moves[|moves| - 1].to.Pending? then 1 else 0
  }

  function MovesLeft(s: Status): nat {
    match s
    case Pending => 6
    case Snapshotting => 5
    case Applying => 4
    case Verifying => 3
    case Failed => 2
    case RollingBack => 1
    case ManualRequired => 5
    case _ => 0
  }

  /** A chain has at most six moves, and two more for every time manual-required is reopened. */
  lemma {:induction false} ChainsAreShort(record: ActionRun, moves: seq<Move>)
    requires Fresh(record) && Transitions(record, moves).Returned?
    ensures |moves| + MovesLeft(Transitions(record, moves).result.status) <= 6 + 2 * Reopenings(moves)
  {
    if moves == [] {
    } else {
      ChainsAreShort(record, moves[..|moves| - 1]);
    }
  }

  // ----- the table, read by target -----

  /** From which states each state is reached. */
  predicate ReachedFrom(to: Status, from: Status) {
    match to
    case Pending => from.ManualRequired?
    case Snapshotting => from.Pending?
    case Applying => from.Snapshotting?
    case Verifying => from.Applying?
    case Succeeded => from.Verifying?
    case Failed => from.Pending? || from.Snapshotting? || from.Applying? || from.Verifying?
    case RollingBack => from.Failed?
    case RolledBack => from.Failed? || from.RollingBack?
    case RollbackFailed => from.RollingBack?
    case Skipped => from.Pending? || from.Snapshotting? || from.ManualRequired?
    case ManualRequired => from.Pending?
  }

  /** A transition returns iff its target is reached from where the record is; else it throws. */
  lemma TransitionReturnsIff(record: ActionRun, to: Status, now: Time)
    ensures Transition(record, to, now).Returned? <==> ReachedFrom(to, record.status)
  {
  }
}
