/**
 * migrateLegacyJson: moves a legacy JSON document into the database in one transaction, then
 * archives the file. The process can be killed, or a call can throw, between any two steps.
 */
module LegacyImport {
  import opened Wrappers

  /** A legacy record as its table sees it: required holds the NOT NULL columns, None where the JSON has none. */
  datatype Row = Row(id: Option<string>, required: seq<Option<string>>, other: seq<Option<string>>)

  /** The document; its three lists are optional, and deleted before the rest is stored. */
  datatype Doc = Doc(body: string, comments: Option<seq<Row>>, suggestions: Option<seq<Row>>, inbox: Option<seq<Row>>)

  datatype JsonFile = Malformed | Document(doc: Doc)

  datatype Tables = Tables(comments: seq<Row>, suggestions: seq<Row>, inbox: seq<Row>)

  /** runtime is the 'runtime_db' row of system_kv. */
  datatype Store = Store(runtime: Option<Doc>, tables: Tables)

  const EMPTY := Store(None, Tables([], [], []))

  datatype Disk = Disk(store: Store, json: Option<JsonFile>, archived: seq<JsonFile>)

  /** How far one call gets: killed or thrown before the commit, or at a step after it. */
  datatype Fate = BeforeCommit | BeforeCopy | BeforeRename | Completes

  // ----- rows -----

  predicate Complete(r: Row) {
    None !in r.required
  }

  predicate HasId(t: seq<Row>, id: string) {
    exists i :: 0 <= i < |t| && t[i].id == Some(id)
  }

  /** INSERT OR IGNORE: a row that misses a required column, or repeats an id, is dropped. A null id repeats nothing. */
  function InsertOrIgnore(t: seq<Row>, r: Row): seq<Row> {
    if !Complete(r) || (r.id.Some? && HasId(t, r.id.value)) then t else t + [r]
  }

  function InsertAll(t: seq<Row>, rows: seq<Row>): seq<Row> {
    if rows == [] then t else InsertOrIgnore(InsertAll(t, rows[..|rows| - 1]), rows[|rows| - 1])
  }

  function Listed(rows: Option<seq<Row>>): seq<Row> {
    if rows.Some? then rows.value else []
  }

  function Stripped(d: Doc): Doc {
    Doc(d.body, None, None, None)
  }

  // ----- what one call amounts to -----

  /** The database once the import of a document has committed. */
  function Imported(s: Store, d: Doc): Store {
    Store(Some(Stripped(d)),
          Tables(InsertAll(s.tables.comments, Listed(d.comments)),
                 InsertAll(s.tables.suggestions, Listed(d.suggestions)),
                 InsertAll(s.tables.inbox, Listed(d.inbox))))
  }

  predicate Commits(d: Disk, fate: Fate) {
    d.json.Some? && d.json.value.Document? && d.store.runtime.None? && !fate.BeforeCommit?
  }

  function AfterImport(d: Disk, fate: Fate, production: bool): Disk {
    if Commits(d, fate) then AfterCommit(d, fate, production) else d
  }

  /** The transaction commits; then the file is copied and, in production, renamed. */
  function AfterCommit(d: Disk, fate: Fate, production: bool): Disk
    requires d.json.Some? && d.json.value.Document?
  {
    Disk(Imported(d.store, d.json.value.doc),
         if fate.Completes? && production then None else d.json,
         if fate.BeforeCopy? then d.archived else d.archived + [d.json.value])
  }

  predicate CommitReturns(fate: Fate, production: bool) {
    fate.Completes? || (fate.BeforeRename? && !production)
  }

  predicate ImportReturns(d: Disk, fate: Fate, production: bool) {
    d.json.None? || d.store.runtime.Some? || (Commits(d, fate) && CommitReturns(fate, production))
  }

  class Database {
    var disk: Disk

    constructor (d: Disk)
      ensures disk == d
    {
      disk := d;
    }

    method MigrateLegacyJson(fate: Fate, production: bool) returns (r: Outcome<bool>)
      modifies this
      ensures disk == AfterImport(old(disk), fate, production)
      ensures r.Returned? <==> ImportReturns(old(disk), fate, production)
    {
      if disk.json.None? {
        return Returned(true);
      }
      if disk.store.runtime.Some? {
        return Returned(true);
      }
      var work := disk.store;
      if disk.json.value.Malformed? {
        return Threw("JSON error");
      }
      var parsed := disk.json.value.doc;
      var legacyComments := Listed(parsed.comments);
      var legacySuggestions := Listed(parsed.suggestions);
      var legacyInbox := Listed(parsed.inbox);
      parsed := parsed.(comments := None, suggestions := None, inbox := None);
      work := work.(runtime := Some(parsed));
      var comments := InsertRows(work.tables.comments, legacyComments);
      var suggestions := InsertRows(work.tables.suggestions, legacySuggestions);
      var inbox := InsertRows(work.tables.inbox, legacyInbox);
      work := work.(tables := Tables(comments, suggestions, inbox));
      if fate.BeforeCommit? {
        return Threw("rolled back");
      }
      disk := disk.(store := work);
      if fate.BeforeCopy? {
        return Threw("killed after commit");
      }
      disk := disk.(archived := disk.archived + [disk.json.value]);
      if production {
        if fate.BeforeRename? {
          return Threw("killed before rename");
        }
        disk := disk.(json := None);
      }
      r := Returned(true);
    }

    method InsertRows(before: seq<Row>, rows: seq<Row>) returns (t: seq<Row>)
      ensures t == InsertAll(before, rows)
    {
      t := before;
      for i := 0 to |rows|
        invariant t == InsertAll(before, rows[..i])
      {
        assert rows[..i + 1][..i] == rows[..i];
        if Complete(rows[i]) && (rows[i].id.None? || !HasId(t, rows[i].id.value)) {
          t := t + [rows[i]];
        }
      }
      assert rows[..|rows|] == rows;
    }
  }

  // ----- every id is stored once -----

  predicate DistinctIds(t: seq<Row>) {
    forall i, j :: 0 <= i < j < |t| ==> t[i].id.Some? ==> t[i].id != t[j].id
  }

  /** Some row of the list with this id has every required column. */
  predicate Storable(rows: seq<Row>, id: string) {
    exists i :: 0 <= i < |rows| && rows[i].id == Some(id) && Complete(rows[i])
  }

  /** After the insertions an id is in the table iff it was, or some complete row has it; and only once. */
  lemma {:induction false} StoredOnce(t: seq<Row>, rows: seq<Row>)
    requires DistinctIds(t)
    ensures DistinctIds(InsertAll(t, rows))
    ensures forall id :: HasId(InsertAll(t, rows), id) <==> HasId(t, id) || Storable(rows, id)
    ensures t <= InsertAll(t, rows)
  {
    if rows == [] {
    } else {
      var n := |rows| - 1;
      StoredOnce(t, rows[..n]);
      var u, v := InsertAll(t, rows[..n]), InsertAll(t, rows);
      forall id
        ensures HasId(v, id) <==> HasId(t, id) || Storable(rows, id)
      {
        StorableStep(rows, id);
        InsertStep(u, rows[n], id);
      }
    }
  }

  lemma StorableStep(rows: seq<Row>, id: string)
    requires rows != []
    ensures var n := |rows| - 1;
      Storable(rows, id) <==> Storable(rows[..n], id) || (rows[n].id == Some(id) && Complete(rows[n]))
  {
    hide Complete;
    var n := |rows| - 1;
    if Storable(rows, id) {
      var i :| 0 <= i < |rows| && rows[i].id == Some(id) && Complete(rows[i]);
      assert i < n ==> rows[..n][i] == rows[i];
    }
    if Storable(rows[..n], id) {
      var i :| 0 <= i < n && rows[..n][i].id == Some(id) && Complete(rows[..n][i]);
      assert rows[i].id == Some(id);
    }
  }

  lemma InsertStep(t: seq<Row>, r: Row, id: string)
    ensures HasId(InsertOrIgnore(t, r), id) <==> HasId(t, id) || (r.id == Some(id) && Complete(r))
  {
    hide Complete;
    var u := InsertOrIgnore(t, r);
    if HasId(t, id) {
      var i :| 0 <= i < |t| && t[i].id == Some(id);
      assert u[i].id == Some(id);
    }
    if r.id == Some(id) && Complete(r) && !HasId(t, id) {
      assert u[|t|].id == Some(id);
    }
  }

  /** Every id of a list is there already, or has a row with all required columns. */
  predicate NothingLost(t: seq<Row>, rows: seq<Row>) {
    forall i :: 0 <= i < |rows| && rows[i].id.Some? ==>
      HasId(t, rows[i].id.value) || Storable(rows, rows[i].id.value)
  }

  predicate AllStored(t: seq<Row>, rows: seq<Row>) {
    forall i :: 0 <= i < |rows| && rows[i].id.Some? ==> HasId(t, rows[i].id.value)
  }

  /** What an import makes of one list: earlier rows stay, ids are stored once, and all of them iff none is lost. */
  ghost predicate KeepsIds(before: seq<Row>, after: seq<Row>, rows: seq<Row>) {
    && before <= after && DistinctIds(after)
    && (forall id :: HasId(after, id) <==> HasId(before, id) || Storable(rows, id))
    && (AllStored(after, rows) <==> NothingLost(before, rows))
  }

  /**
   * Once an import has committed, whatever the tables held before, every distinct legacy id is
   * stored exactly once and the lists are gone from the runtime document.
   */
  lemma ImportKeepsIds(s: Store, d: Doc)
    requires DistinctIds(s.tables.comments) && DistinctIds(s.tables.suggestions) && DistinctIds(s.tables.inbox)
    ensures var g := Imported(s, d);
      && g.runtime == Some(Doc(d.body, None, None, None))
      && (if d.comments.Some? then KeepsIds(s.tables.comments, g.tables.comments, d.comments.value)
          else g.tables.comments == s.tables.comments)
      && (if d.suggestions.Some? then KeepsIds(s.tables.suggestions, g.tables.suggestions, d.suggestions.value)
          else g.tables.suggestions == s.tables.suggestions)
      && (if d.inbox.Some? then KeepsIds(s.tables.inbox, g.tables.inbox, d.inbox.value)
          else g.tables.inbox == s.tables.inbox)
  {
    hide KeepsIds, DistinctIds;
    InsertKeepsIds(s.tables.comments, Listed(d.comments));
    InsertKeepsIds(s.tables.suggestions, Listed(d.suggestions));
    InsertKeepsIds(s.tables.inbox, Listed(d.inbox));
  }

  lemma InsertKeepsIds(t: seq<Row>, rows: seq<Row>)
    requires DistinctIds(t)
    ensures KeepsIds(t, InsertAll(t, rows), rows)
  {
    hide Storable, HasId;
    StoredOnce(t, rows);
  }

  /** The loss is real: a comment without content ends up neither in its table nor in the document. */
  lemma IncompleteCommentLost()
    ensures var row := Row(Some("c1"), [Some("catalog"), Some("u"), Some("n"), Some("N"), None, Some("2025")], [None]);
      var s := Imported(EMPTY, Doc("{}", Some([row]), None, None));
      s.tables.comments == [] && s.runtime == Some(Doc("{}", None, None, None))
  {
    var row := Row(Some("c1"), [Some("catalog"), Some("u"), Some("n"), Some("N"), None, Some("2025")], [None]);
    assert row.required[4].None?;
    assert [row][..0] == [];
    assert InsertAll([], [row]) == InsertOrIgnore(InsertAll([], []), row);
  }

  // ----- any number of starts, crashes and application writes -----

  /** The application may write anything, but once there is a runtime document it keeps one. */
  datatype Event =
    | Boot(fate: Fate, production: bool)
    | AppWrites(store: Store)
    | FileAppears(json: JsonFile)

  function Next(d: Disk, e: Event): Disk {
    match e
    case Boot(fate, production) => AfterImport(d, fate, production)
    case AppWrites(_) => d.(store := Overwritten(d.store, e))
    case FileAppears(j) => d.(json := Some(j))
  }

  function Overwritten(s: Store, e: Event): Store {
    if e.AppWrites? && (s.runtime.Some? ==> e.store.runtime.Some?) then e.store else s
  }

  function History(d: Disk, events: seq<Event>): Disk {
    if events == [] then d else Next(History(d, events[..|events| - 1]), events[|events| - 1])
  }

  /** What the application alone would have left. */
  function LastWrite(events: seq<Event>, otherwise: Store): Store {
    if events == [] then otherwise
    else Overwritten(LastWrite(events[..|events| - 1], otherwise), events[|events| - 1])
  }

  /** The file that appeared last. */
  function LastFile(events: seq<Event>, otherwise: Option<JsonFile>): Option<JsonFile> {
    if events == [] then otherwise
    else
      var e := events[|events| - 1];
      if e.FileAppears? then Some(e.json) else LastFile(events[..|events| - 1], otherwise)
  }

  /** Once there is a runtime document, no boot and no leftover file ever changes the database again. */
  lemma {:induction false} LeftoverFileIsHarmless(d: Disk, events: seq<Event>)
    requires d.store.runtime.Some?
    ensures History(d, events).store == LastWrite(events, d.store)
    ensures History(d, events).store.runtime.Some?
  {
    if events == [] {
    } else {
      LeftoverFileIsHarmless(d, events[..|events| - 1]);
    }
  }

  /** A boot that gets to its commit with a readable file in place, before the application wrote a runtime row. */
  predicate InTime(d: Disk, events: seq<Event>, i: nat)
    requires i < |events|
  {
    && events[i].Boot? && !events[i].fate.BeforeCommit?
    && LastFile(events[..i], d.json).Some? && LastFile(events[..i], d.json).value.Document?
    && LastWrite(events[..i], d.store).runtime.None?
  }

  /** The first such boot. */
  function FirstInTime(d: Disk, events: seq<Event>): (k: Option<nat>)
    ensures k.Some? ==> k.value < |events| && InTime(d, events, k.value)
    ensures forall i :: 0 <= i < (if k.Some? then k.value else |events|) ==> !InTime(d, events, i)
  {
    if events == [] then None
    else
      var n := |events| - 1;
      var k := FirstInTime(d, events[..n]);
      assert forall i :: 0 <= i < n ==> events[..n][i] == events[i] && events[..n][..i] == events[..i];
      assert forall i :: 0 <= i < n ==> InTime(d, events[..n], i) == InTime(d, events, i);
      if k.Some? then k else if InTime(d, events, n) then Some(n) else None
  }

  /** The database after a history whose first boot in time is the k-th event: one import, of that moment. */
  function ImportedAt(d: Disk, events: seq<Event>, k: Option<nat>): Store
    requires k == FirstInTime(d, events)
  {
    if k.None? then LastWrite(events, d.store)
    else
      var doc := LastFile(events[..k.value], d.json).value.doc;
      LastWrite(events[k.value + 1..], Imported(LastWrite(events[..k.value], d.store), doc))
  }

  /**
   * From a database without a runtime row, through boots killed anywhere and repeated, application
   * writes and files that appear: the import happens iff some boot is in time, then exactly once
   * and in one piece, and after it only the application changes the database.
   */
  lemma {:induction false} CrashesAreInvisible(d: Disk, events: seq<Event>)
    requires d.store.runtime.None?
    ensures var g, k := History(d, events), FirstInTime(d, events);
      && g.store == ImportedAt(d, events, k)
      && (k.Some? ==> g.store.runtime.Some?)
      && (k.None? ==> g.json == LastFile(events, d.json) && g.archived == d.archived)
  {
    hide Imported, FirstInTime;
    if events == [] {
      NeverInTime(d);
    } else {
      var n := |events| - 1;
      CrashesAreInvisible(d, events[..n]);
      FirstStep(d, events);
      var k := FirstInTime(d, events);
      if k.Some? && k.value < n {
        var i := k.value;
        assert events[..n][..i] == events[..i];
        assert events[..n][i + 1..] == events[i + 1..][..n - i - 1];
        assert events[i + 1..][n - i - 1] == events[n];
      } else if k.Some? {
        assert events[n + 1..] == [];
        ImportedHasRuntime(LastWrite(events[..n], d.store), LastFile(events[..n], d.json).value.doc);
      }
    }
  }

  lemma NeverInTime(d: Disk)
    ensures FirstInTime(d, []) == None
  {
  }

  lemma FirstStep(d: Disk, events: seq<Event>)
    requires events != []
    ensures var n := |events| - 1;
      FirstInTime(d, events) ==
        if FirstInTime(d, events[..n]).Some? then FirstInTime(d, events[..n])
        else if InTime(d, events, n) then Some(n) else None
  {
  }

  lemma ImportedHasRuntime(s: Store, doc: Doc)
    ensures Imported(s, doc).runtime.Some?
  {
  }

  /** A boot of a history commits an import iff it is the first in time: never a second one, never a late one. */
  lemma CommitsOnce(d: Disk, events: seq<Event>, i: nat)
    requires d.store.runtime.None? && i < |events| && events[i].Boot?
    ensures Commits(History(d, events[..i]), events[i].fate) <==> FirstInTime(d, events) == Some(i)
  {
    hide History, FirstInTime;
    CrashesAreInvisible(d, events[..i]);
    var k := FirstInTime(d, events[..i]);
    FirstOfPrefix(d, events, i);
  }

  lemma FirstOfPrefix(d: Disk, events: seq<Event>, i: nat)
    requires i < |events|
    ensures var k := FirstInTime(d, events[..i]);
      && (k.Some? ==> FirstInTime(d, events) == k)
      && (k.None? ==> (FirstInTime(d, events) == Some(i) <==> InTime(d, events, i)))
  {
    assert forall j :: 0 <= j < i ==> events[..i][j] == events[j] && events[..i][..j] == events[..j];
    assert forall j :: 0 <= j < i ==> InTime(d, events[..i], j) == InTime(d, events, j);
  }

  // ----- the file and its copies -----

  predicate NoFileAppears(events: seq<Event>) {
    forall i :: 0 <= i < |events| ==> !events[i].FileAppears?
  }

  /** The file goes with the one import that commits, if that gets to its end in production. */
  predicate Gone(d: Disk, events: seq<Event>, k: Option<nat>)
    requires k == FirstInTime(d, events)
  {
    k.Some? && events[k.value].fate.Completes? && events[k.value].production && NoFileAppears(events[k.value + 1..])
  }

  /** The copies: one more, of the file imported, if that import got past its copy. */
  function Copies(d: Disk, events: seq<Event>, k: Option<nat>): seq<JsonFile>
    requires k == FirstInTime(d, events)
  {
    if k.Some? && !events[k.value].fate.BeforeCopy? then d.archived + [LastFile(events[..k.value], d.json).value]
    else d.archived
  }

  /**
   * The file is the one that appeared last, and is gone iff the import in time finished in
   * production and none appeared since; the copies are the old ones and at most one of that import.
   */
  lemma {:induction false} FilesOfHistory(d: Disk, events: seq<Event>)
    requires d.store.runtime.None?
    ensures var g, k := History(d, events), FirstInTime(d, events);
      && g.json == (if Gone(d, events, k) then None else LastFile(events, d.json))
      && g.archived == Copies(d, events, k)
  {
    hide Imported, FirstInTime, InTime;
    if events == [] {
      NeverInTime(d);
    } else {
      var n := |events| - 1;
      FilesOfHistory(d, events[..n]);
      CrashesAreInvisible(d, events[..n]);
      FirstStep(d, events);
      var k := FirstInTime(d, events);
      if k.Some? && k.value < n {
        LaterFiles(events, k.value);
      } else if k.Some? {
        assert events[n + 1..] == [];
      }
      OneMoreFile(d, events);
    }
  }

  lemma LaterFiles(events: seq<Event>, i: nat)
    requires i < |events| - 1
    ensures var n := |events| - 1;
      && events[..n][..i] == events[..i] && events[..n][i] == events[i]
      && (NoFileAppears(events[i + 1..]) <==> NoFileAppears(events[..n][i + 1..]) && !events[n].FileAppears?)
  {
    var n := |events| - 1;
    assert events[i + 1..] == events[..n][i + 1..] + [events[n]];
  }

  /** What the last event does to the file, and when it commits. */
  lemma OneMoreFile(d: Disk, events: seq<Event>)
    requires events != [] && d.store.runtime.None?
    ensures var n := |events| - 1; var before := History(d, events[..n]); var e := events[n];
      && (e.Boot? ==> (Commits(before, e.fate) <==> FirstInTime(d, events) == Some(n)))
      && (!e.Boot? ==> FirstInTime(d, events) != Some(n))
      && LastFile(events, d.json) == if e.FileAppears? then Some(e.json) else LastFile(events[..n], d.json)
  {
    hide FirstInTime, History, Imported;
    var n := |events| - 1;
    if events[n].Boot? {
      CommitsOnce(d, events, n);
    } else {
      NotABoot(d, events, n);
    }
  }

  lemma NotABoot(d: Disk, events: seq<Event>, n: nat)
    requires n < |events| && !events[n].Boot?
    ensures FirstInTime(d, events) != Some(n)
  {
  }

  /** A file that is gone has its copy. */
  lemma GoneHasCopy(d: Disk, events: seq<Event>)
    requires d.store.runtime.None? && LastFile(events, d.json).Some? && History(d, events).json.None?
    ensures LastFile(events, d.json).value in History(d, events).archived
  {
    hide FirstInTime, History, Imported;
    FilesOfHistory(d, events);
    var k := FirstInTime(d, events);
    NoneSince(events, k.value + 1, d.json);
  }

  lemma {:induction false} NoneSince(events: seq<Event>, i: nat, first: Option<JsonFile>)
    requires i <= |events| && NoFileAppears(events[i..]) && (i > 0 ==> !events[i - 1].FileAppears?)
    ensures LastFile(events, first) == LastFile(events[..if i > 0 then i - 1 else 0], first)
    decreases |events|
  {
    if |events| == 0 {
    } else if i == |events| {
    } else {
      var n := |events| - 1;
      assert events[i..][n - i] == events[n];
      assert events[..n][i..] == events[i..][..n - i];
      assert forall j :: 0 <= j < n - i ==> events[..n][i..][j] == events[i..][j];
      NoneSince(events[..n], i, first);
      assert events[..n][..if i > 0 then i - 1 else 0] == events[..if i > 0 then i - 1 else 0];
    }
  }

  /** Once there is a runtime document, boots touch no file at all. */
  lemma {:induction false} FilesStayPut(d: Disk, events: seq<Event>)
    requires d.store.runtime.Some?
    ensures History(d, events).json == LastFile(events, d.json) && History(d, events).archived == d.archived
  {
    if events == [] {
    } else {
      LeftoverFileIsHarmless(d, events[..|events| - 1]);
      FilesStayPut(d, events[..|events| - 1]);
    }
  }
}
