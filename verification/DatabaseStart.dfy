/**
 * initializeDatabase: open the database, keep the handle, migrate, import the legacy file. A call
 * that finds a handle returns it at once. First as one call after the other, then as steps that
 * overlapping calls and the application interleave.
 */
module DatabaseStart {
  import opened Wrappers
  import L = LegacyImport
  import M = Migrations

  /** The steps a program ships, with the hash and the refusals of SQLite they meet. */
  datatype Release = Release(steps: seq<M.Step>, hash: M.Hash, refuses: M.Refusal)

  function Boot(db: M.Db, p: Release): Option<M.Db> {
    M.Boot(db, p.steps, p.hash, p.refuses)
  }

  /** The database with the first k steps applied. */
  function Prefix(p: Release, k: nat): M.Db
    requires k <= |p.steps|
  {
    M.Prefix(p.steps, k, p.hash)
  }

  // ----- one call after the other -----

  /** A process: handle is what initializeDatabase keeps between calls. */
  class Process {
    const schema: M.Schema
    const data: L.Database
    var handle: bool

    constructor (db: M.Db, disk: L.Disk)
      ensures fresh(schema) && fresh(data) && schema.db == db && data.disk == disk && !handle
    {
      schema := new M.Schema(db);
      data := new L.Database(disk);
      handle := false;
    }

    method InitializeDatabase(p: Release, fate: L.Fate, production: bool) returns (r: Outcome<bool>)
      modifies this, schema, data
      ensures handle
      ensures old(handle) ==> r.Returned? && schema.db == old(schema.db) && data.disk == old(data.disk)
      ensures !old(handle) ==>
        var booted := Boot(old(schema.db), p);
        && schema.db == (if booted.Some? then booted.value else old(schema.db))
        && data.disk == (if booted.Some? then L.AfterImport(old(data.disk), fate, production) else old(data.disk))
        && (r.Returned? <==> booted.Some? && L.ImportReturns(old(data.disk), fate, production))
    {
      if handle {
        return Returned(true);
      }
      handle := true;
      r := schema.RunMigrations(p.steps, p.hash, p.refuses, None);
      if r.Threw? {
        return;
      }
      r := data.MigrateLegacyJson(fate, production);
    }
  }

  /**
   * A second call always returns. What it gives is not migrated iff the first call threw in the
   * migrations, and not imported although there is a file iff the first call committed no import.
   */
  method SecondCall(db: M.Db, disk: L.Disk, p: Release, fate: L.Fate, production: bool)
    returns (first: Outcome<bool>, second: Outcome<bool>, givenDb: M.Db, givenDisk: L.Disk)
    ensures second.Returned?
    ensures if Boot(db, p).None? then first.Threw? && givenDb == db && givenDisk == disk
            else Some(givenDb) == Boot(db, p)
    ensures first.Returned? ==> givenDisk.store.runtime.Some? || disk.json.None?
    ensures disk.store.runtime.None? ==>
      (givenDisk.store.runtime.Some? <==> Boot(db, p).Some? && L.Commits(disk, fate))
  {
    var process := new Process(db, disk);
    first := process.InitializeDatabase(p, fate, production);
    second := process.InitializeDatabase(p, fate, production);
    givenDb, givenDisk := process.schema.db, process.data.disk;
  }

  // ----- overlapping calls -----

  /**
   * Where one call stands. Given is a return at the first check, NoFile and Finished are returns at
   * the end; NotMigrated, NotImported and NotArchived threw, the last after its commit.
   */
  datatype Stage =
    | Idle | Opening | Opened | Migrated | Checked
    | Given | NoFile | Finished
    | NotMigrated | NotImported | NotArchived

  datatype System = System(db: M.Db, disk: L.Disk, handle: bool, stages: seq<Stage>)

  /** The next step of one call. Either transaction is one step. */
  datatype Step =
    | Enter
    | Keep(opens: bool)
    | Migrate(locks: bool)
    | Check
    | Import(fate: L.Fate, production: bool)

  datatype Event = Call(who: nat, step: Step) | AppWrites(store: L.Store) | FileAppears(json: L.JsonFile)

  /** One event; a step that is not possible changes nothing. */
  function Next(s: System, p: Release, e: Event): (r: System)
    ensures |r.stages| == |s.stages|
  {
    match e
    case Call(i, step) => if i < |s.stages| then Stepped(s, p, i, step) else s
    case AppWrites(store) =>
      if s.disk.store.runtime.Some? && store.runtime.None? then s else s.(disk := s.disk.(store := store))
    case FileAppears(json) => s.(disk := s.disk.(json := Some(json)))
  }

  function Stepped(s: System, p: Release, i: nat, step: Step): (r: System)
    requires i < |s.stages|
    ensures |r.stages| == |s.stages|
  {
    match (step, s.stages[i])
    case (Enter, Idle) => To(s, i, if s.handle then Given else Opening)
    case (Keep(opens), Opening) => if opens then To(s, i, Opened).(handle := true) else To(s, i, NotMigrated)
    case (Migrate(locks), Opened) =>
      var booted := Boot(s.db, p);
      if !locks || booted.None? then To(s, i, NotMigrated) else To(s, i, Migrated).(db := booted.value)
    case (Check, Migrated) =>
      To(s, i, if s.disk.json.None? then NoFile else if s.disk.store.runtime.Some? then Finished else Checked)
    case (Import(fate, production), Checked) =>
      if Unreadable(s.disk.json) || fate.BeforeCommit? then To(s, i, NotImported)
      else
        To(s, i, if L.CommitReturns(fate, production) then Finished else NotArchived).
          (disk := L.AfterCommit(s.disk, fate, production))
    case _ => s
  }

  function To(s: System, i: nat, stage: Stage): System
    requires i < |s.stages|
  {
    s.(stages := s.stages[i := stage])
  }

  predicate Unreadable(json: Option<L.JsonFile>) {
    json.None? || json.value.Malformed?
  }

  function Run(s: System, p: Release, events: seq<Event>): (r: System)
    ensures |r.stages| == |s.stages|
  {
    if events == [] then s else Next(Run(s, p, events[..|events| - 1]), p, events[|events| - 1])
  }

  /** A fresh process, on a database an earlier release migrated k steps far. */
  predicate Start(s: System, p: Release, k: nat) {
    && k <= |p.steps| && s.db == Prefix(p, k) && !s.handle
    && forall i :: 0 <= i < |s.stages| ==> s.stages[i].Idle?
  }

  // ----- when a handle is migrated -----

  predicate PastMigration(stage: Stage) {
    stage.Migrated? || stage.Checked? || stage.NoFile? || stage.Finished?
    || stage.NotImported? || stage.NotArchived?
  }

  predicate AnyPast(s: System) {
    exists i :: 0 <= i < |s.stages| && PastMigration(s.stages[i])
  }

  /**
   * At every moment of every interleaving the database a handle leads to has all steps applied iff
   * it had them at the start or some call is past its migrations; before that it has none of them.
   */
  lemma HandleIsMigratedIff(s: System, p: Release, k: nat, events: seq<Event>)
    requires M.DistinctVersions(p.steps) && Start(s, p, k)
    ensures var g := Run(s, p, events);
      && g.db == Prefix(p, if AnyPast(g) then |p.steps| else k)
      && (g.db == Prefix(p, |p.steps|) <==> k == |p.steps| || AnyPast(g))
  {
    hide Run, PastMigration;
    MigratedAlong(s, p, k, events);
    M.PrefixRecords(p.steps, k, p.hash);
    M.PrefixRecords(p.steps, |p.steps|, p.hash);
    if k < |p.steps| {
      assert |Prefix(p, k).effects| == k;
      assert |Prefix(p, |p.steps|).effects| == |p.steps|;
    }
  }

  lemma {:induction false} MigratedAlong(s: System, p: Release, k: nat, events: seq<Event>)
    requires M.DistinctVersions(p.steps) && Start(s, p, k)
    ensures Run(s, p, events).db == Prefix(p, if AnyPast(Run(s, p, events)) then |p.steps| else k)
  {
    hide Next;
    if events == [] {
    } else {
      var n := |events| - 1;
      MigratedAlong(s, p, k, events[..n]);
      MigratedStep(Run(s, p, events[..n]), p, k, events[n]);
    }
  }

  lemma MigratedStep(s: System, p: Release, k: nat, e: Event)
    requires M.DistinctVersions(p.steps) && k <= |p.steps|
    requires s.db == Prefix(p, if AnyPast(s) then |p.steps| else k)
    ensures Next(s, p, e).db == Prefix(p, if AnyPast(Next(s, p, e)) then |p.steps| else k)
  {
    hide M.Prefix, Boot, Next, PastMigration;
    var t := Next(s, p, e);
    BootsToEnd(p, if AnyPast(s) then |p.steps| else k);
    forall i | 0 <= i < |s.stages|
      ensures PastMigration(s.stages[i]) ==> PastMigration(t.stages[i])
      ensures PastMigration(t.stages[i]) ==> PastMigration(s.stages[i]) || Some(t.db) == Boot(s.db, p)
    {
      OneCall(s, p, e, i);
    }
    OnlyMigrateWrites(s, p, e);
  }

  lemma OneCall(s: System, p: Release, e: Event, i: nat)
    requires i < |s.stages|
    ensures var t := Next(s, p, e);
      && (PastMigration(s.stages[i]) ==> PastMigration(t.stages[i]))
      && (PastMigration(t.stages[i]) ==> PastMigration(s.stages[i]) || Some(t.db) == Boot(s.db, p))
  {
    hide Boot;
  }

  lemma OnlyMigrateWrites(s: System, p: Release, e: Event)
    ensures var t := Next(s, p, e);
      t.db == s.db || (AnyPast(t) && Some(t.db) == Boot(s.db, p))
  {
    hide Boot;
    var t := Next(s, p, e);
    if t.db != s.db {
      assert PastMigration(t.stages[e.who]);
    }
  }

  lemma BootsToEnd(p: Release, k: nat)
    requires M.DistinctVersions(p.steps) && k <= |p.steps|
    ensures Boot(Prefix(p, k), p).Some? ==> Boot(Prefix(p, k), p) == Some(Prefix(p, |p.steps|))
  {
    M.BootFromPrefix(p.steps, k, |p.steps|, p.hash, p.refuses);
    assert p.steps[..|p.steps|] == p.steps;
  }

  /** A second call in the middle of the first gets an unmigrated database, although the first then returns. */
  lemma OverlapGivesUnmigrated(s: System, p: Release, k: nat) returns (before: seq<Event>, after: seq<Event>)
    requires M.DistinctVersions(p.steps) && Start(s, p, k) && |s.stages| == 2 && k < |p.steps|
    requires Boot(s.db, p).Some? && s.disk.json.None?
    ensures var g := Run(s, p, before);
      g.stages[1].Given? && g.db == s.db != Prefix(p, |p.steps|)
    ensures Run(s, p, before + after).stages == [NoFile, Given]
  {
    hide Boot;
    before, after := [Call(0, Enter), Call(0, Keep(true)), Call(1, Enter)],
      [Call(0, Migrate(true)), Call(0, Check)];
    RunOn(s, p, [], before[0]);
    RunOn(s, p, before[..1], before[1]);
    RunOn(s, p, before[..2], before[2]);
    RunOn(s, p, before, after[0]);
    RunOn(s, p, before + after[..1], after[1]);
    assert before[..1] == [] + [before[0]] && before[..2] == before[..1] + [before[1]];
    assert before == before[..2] + [before[2]] && after[..1] == [after[0]];
    assert before + after == before + after[..1] + [after[1]];
    HandleIsMigratedIff(s, p, k, before);
  }

  lemma RunOn(s: System, p: Release, events: seq<Event>, e: Event)
    ensures Run(s, p, events + [e]) == Next(Run(s, p, events), p, e)
  {
    assert (events + [e])[..|events|] == events;
  }

  // ----- when a handle is imported -----

  predicate HasImported(stage: Stage) {
    stage.Finished? || stage.NotArchived?
  }

  predicate AnyImported(s: System) {
    exists i :: 0 <= i < |s.stages| && HasImported(s.stages[i])
  }

  predicate WritesRow(e: Event) {
    e.AppWrites? && e.store.runtime.Some?
  }

  predicate AnyRowWritten(events: seq<Event>) {
    exists i :: 0 <= i < |events| && WritesRow(events[i])
  }

  /**
   * At every moment of every interleaving a handle leads to a runtime document iff there was one at
   * the start, the application wrote one, or some call is past its import.
   */
  lemma {:induction false} HandleIsImportedIff(s: System, p: Release, k: nat, events: seq<Event>)
    requires Start(s, p, k)
    ensures var g := Run(s, p, events);
      g.disk.store.runtime.Some? <==> s.disk.store.runtime.Some? || AnyRowWritten(events) || AnyImported(g)
  {
    hide Next, WritesRow;
    if events == [] {
    } else {
      var n := |events| - 1;
      HandleIsImportedIff(s, p, k, events[..n]);
      ImportedStep(Run(s, p, events[..n]), p, events[n]);
      assert AnyRowWritten(events) <==> AnyRowWritten(events[..n]) || WritesRow(events[n]) by {
        assert forall i :: 0 <= i < n ==> events[..n][i] == events[i];
        if AnyRowWritten(events[..n]) {
          var i :| 0 <= i < n && WritesRow(events[..n][i]);
          assert WritesRow(events[i]);
        }
      }
    }
  }

  lemma ImportedStep(s: System, p: Release, e: Event)
    requires AnyImported(s) ==> s.disk.store.runtime.Some?
    ensures var t := Next(s, p, e);
      && (t.disk.store.runtime.Some? <==> s.disk.store.runtime.Some? || WritesRow(e) || AnyImported(t))
      && (AnyImported(s) ==> AnyImported(t))
  {
    hide Boot, Next, HasImported;
    var t := Next(s, p, e);
    forall i | 0 <= i < |s.stages|
      ensures HasImported(s.stages[i]) ==> HasImported(t.stages[i])
      ensures HasImported(t.stages[i]) ==> HasImported(s.stages[i]) || t.disk.store.runtime.Some?
    {
      OneImport(s, p, e, i);
    }
    OnlyImportWrites(s, p, e);
  }

  lemma OneImport(s: System, p: Release, e: Event, i: nat)
    requires i < |s.stages|
    ensures var t := Next(s, p, e);
      && (HasImported(s.stages[i]) ==> HasImported(t.stages[i]))
      && (HasImported(t.stages[i]) ==> HasImported(s.stages[i]) || t.disk.store.runtime.Some?)
  {
    hide Boot;
  }

  lemma OnlyImportWrites(s: System, p: Release, e: Event)
    ensures var t := Next(s, p, e);
      && (s.disk.store.runtime.Some? || WritesRow(e) ==> t.disk.store.runtime.Some?)
      && (t.disk.store.runtime.Some? ==> s.disk.store.runtime.Some? || WritesRow(e) || AnyImported(t))
  {
    hide Boot;
    var t := Next(s, p, e);
    if t.disk.store.runtime.Some? && s.disk.store.runtime.None? && !WritesRow(e) {
      assert HasImported(t.stages[e.who]);
    }
  }

  /** What the application alone would have left. */
  function LastWrite(events: seq<Event>, otherwise: L.Store): L.Store {
    if events == [] then otherwise
    else
      var e, s := events[|events| - 1], LastWrite(events[..|events| - 1], otherwise);
      if e.AppWrites? && (s.runtime.Some? ==> e.store.runtime.Some?) then e.store else s
  }

  /** No call has found the database empty and not yet imported. */
  predicate NoStaleCheck(s: System) {
    forall i :: 0 <= i < |s.stages| ==> !s.stages[i].Checked?
  }

  /**
   * Once there is a runtime document: the application alone changes it, whatever calls and files
   * come, iff no call is between its check and its import.
   */
  lemma SafeIffNoStaleCheck(s: System, p: Release)
    requires s.disk.store.runtime.Some?
    ensures (forall events :: Run(s, p, events).disk.store == LastWrite(events, s.disk.store)) <==> NoStaleCheck(s)
  {
    hide Run, LastWrite, Next;
    if NoStaleCheck(s) {
      forall events
        ensures Run(s, p, events).disk.store == LastWrite(events, s.disk.store)
      {
        OnlyTheApplication(s, p, events);
      }
    } else {
      var i :| 0 <= i < |s.stages| && s.stages[i].Checked?;
      var events := StaleImport(s, p, i);
      assert Run(s, p, events).disk.store != LastWrite(events, s.disk.store);
    }
  }

  lemma {:induction false} OnlyTheApplication(s: System, p: Release, events: seq<Event>)
    requires s.disk.store.runtime.Some? && NoStaleCheck(s)
    ensures var g := Run(s, p, events);
      g.disk.store == LastWrite(events, s.disk.store) && g.disk.store.runtime.Some? && NoStaleCheck(g)
  {
    hide Boot;
    if events == [] {
    } else {
      OnlyTheApplication(s, p, events[..|events| - 1]);
    }
  }

  /** A call that checked before the document was written replaces it with that of a file. */
  lemma StaleImport(s: System, p: Release, i: nat) returns (events: seq<Event>)
    requires s.disk.store.runtime.Some? && i < |s.stages| && s.stages[i].Checked?
    ensures Run(s, p, events).disk.store.runtime != s.disk.store.runtime
    ensures LastWrite(events, s.disk.store) == s.disk.store
  {
    hide Boot;
    var json := L.Document(L.Doc(s.disk.store.runtime.value.body + "x", None, None, None));
    var appears, imports := FileAppears(json), Call(i, Import(L.Completes, true));
    events := [appears, imports];
    RunOn(s, p, [], appears);
    RunOn(s, p, [appears], imports);
    assert [] + [appears] == [appears] && [appears] + [imports] == events;
    assert events[..1] == [appears] && [appears][..0] == [];
    assert LastWrite([appears], s.disk.store) == s.disk.store;
  }
}
