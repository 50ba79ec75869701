/**
 * runProgrammaticMigrations: one transaction that applies the steps not yet recorded. A database
 * is told by the steps it records and by the SQL texts that took effect, in order; what the texts
 * mean is left to SQLite.
 */
module Migrations {
  import opened Wrappers

  datatype Step = Step(version: int, sql: string)

  datatype Db = Db(applied: map<int, string>, effects: seq<string>)

  const FRESH := Db(map[], [])

  /** SHA-256 of a text, any function here; and whether SQLite refuses a text after others took effect. */
  type Hash = string -> string
  type Refusal = (seq<string>, string) -> bool

  // ----- what a boot amounts to -----

  /** The steps from here on, given the rows read at the beginning; None when the boot throws. */
  function Migrate(seen: map<int, string>, work: Db, steps: seq<Step>, hash: Hash, refuses: Refusal): Option<Db>
    decreases |steps|
  {
    if steps == [] then Some(work)
    else
      var s := steps[0];
      if s.version in seen then
        if seen[s.version] != hash(s.sql) then None else Migrate(seen, work, steps[1..], hash, refuses)
      else if refuses(work.effects, s.sql) || s.version in work.applied then None
      else Migrate(seen, Applied(work, s, hash), steps[1..], hash, refuses)
  }

  function Applied(d: Db, s: Step, hash: Hash): Db {
    Db(d.applied[s.version := hash(s.sql)], d.effects + [s.sql])
  }

  function Boot(d: Db, steps: seq<Step>, hash: Hash, refuses: Refusal): Option<Db> {
    Migrate(d.applied, d, steps, hash, refuses)
  }

  // ----- the method -----

  class Schema {
    var db: Db

    constructor (d: Db)
      ensures db == d
    {
      db := d;
    }

    /** dies counts the steps after which the process is killed; the open transaction is lost with it. */
    method RunMigrations(steps: seq<Step>, hash: Hash, refuses: Refusal, dies: Option<nat>) returns (r: Outcome<bool>)
      modifies this`db
      ensures var booted := Boot(old(db), steps, hash, refuses);
        && (r.Returned? ==> booted == Some(db))
        && (r.Threw? ==> db == old(db))
        && (dies.None? || dies.value > |steps| ==> (r.Returned? <==> booted.Some?))
    {
      var work := db;
      var seen := work.applied;
      assert steps[0..] == steps;
      for i := 0 to |steps|
        invariant db == old(db) && seen == db.applied
        invariant Boot(db, steps, hash, refuses) == Migrate(seen, work, steps[i..], hash, refuses)
      {
        if dies == Some(i) {
          return Threw("killed");
        }
        var s := steps[i];
        assert steps[i..][0] == s && steps[i..][1..] == steps[i + 1..];
        if s.version in seen {
          if seen[s.version] != hash(s.sql) {
            return Threw("Database Integrity Mismatch");
          }
        } else {
          if refuses(work.effects, s.sql) {
            return Threw("SQL error");
          }
          work := work.(effects := work.effects + [s.sql]);
          if s.version in work.applied {
            return Threw("UNIQUE constraint failed");
          }
          work := work.(applied := work.applied[s.version := hash(s.sql)]);
        }
      }
      if dies == Some(|steps|) {
        return Threw("killed");
      }
      db := work;
      r := Returned(true);
    }
  }

  // ----- each step takes effect once, in order -----

  ghost predicate DistinctVersions(steps: seq<Step>) {
    forall i, j :: 0 <= i < j < |steps| ==> steps[i].version != steps[j].version
  }

  /** The database in which exactly the first k steps have been applied, in order. */
  function Prefix(steps: seq<Step>, k: nat, hash: Hash): Db
    requires k <= |steps|
  {
    if k == 0 then FRESH else Applied(Prefix(steps, k - 1, hash), steps[k - 1], hash)
  }

  lemma {:induction false} PrefixRecords(steps: seq<Step>, k: nat, hash: Hash)
    requires k <= |steps|
    ensures var d := Prefix(steps, k, hash);
      && d.effects == seq(k, i requires 0 <= i < k => steps[i].sql)
      && (forall v :: v in d.applied <==> exists i :: 0 <= i < k && steps[i].version == v)
      && (DistinctVersions(steps) ==> forall i :: 0 <= i < k ==>
          steps[i].version in d.applied && d.applied[steps[i].version] == hash(steps[i].sql))
  {
    if k == 0 {
    } else {
      PrefixRecords(steps, k - 1, hash);
      var e := Prefix(steps, k - 1, hash);
      var d := Prefix(steps, k, hash);
      forall v
        ensures v in d.applied <==> exists i :: 0 <= i < k && steps[i].version == v
      {
        if v in e.applied {
          var i :| 0 <= i < k - 1 && steps[i].version == v;
        }
        if v == steps[k - 1].version {
          assert 0 <= k - 1 < k;
        }
      }
    }
  }

  lemma {:induction false} PrefixOfPrefix(steps: seq<Step>, n: nat, k: nat, hash: Hash)
    requires k <= n <= |steps|
    ensures Prefix(steps[..n], k, hash) == Prefix(steps, k, hash)
  {
    if k == 0 {
    } else {
      PrefixOfPrefix(steps, n, k - 1, hash);
    }
  }

  /** Recorded steps are passed over: what is left is the steps after the recorded prefix. */
  lemma {:induction false} SkipsRecorded(steps: seq<Step>, k: nat, n: nat, i: nat, hash: Hash, refuses: Refusal)
    requires DistinctVersions(steps) && k <= |steps| && n <= |steps| && i <= k && i <= n
    ensures var d := Prefix(steps, k, hash); var j := if k <= n then k else n;
      Migrate(d.applied, d, steps[i..n], hash, refuses) == Migrate(d.applied, d, steps[j..n], hash, refuses)
    decreases n - i
  {
    if i == k || i == n {
    } else {
      PrefixRecords(steps, k, hash);
      assert steps[i..n][0] == steps[i] && steps[i..n][1..] == steps[i + 1..n];
      SkipsRecorded(steps, k, n, i + 1, hash, refuses);
    }
  }

  /** Applying the steps after a prefix, whatever rows were read, ends in the longer prefix or nowhere. */
  lemma {:induction false} AppliesRest(steps: seq<Step>, k: nat, at: nat, n: nat, hash: Hash, refuses: Refusal)
    requires DistinctVersions(steps) && k <= at <= n <= |steps|
    ensures var r := Migrate(Prefix(steps, k, hash).applied, Prefix(steps, at, hash), steps[at..n], hash, refuses);
      && (r.Some? ==> r == Some(Prefix(steps, n, hash)))
      && (r.Some? <==> forall i :: at <= i < n ==> Accepted(steps, i, hash, refuses))
    decreases n - at
  {
    if at == n {
    } else {
      var s := steps[at];
      assert steps[at..n][0] == s && steps[at..n][1..] == steps[at + 1..n];
      NotYetRecorded(steps, k, at, hash);
      NotYetRecorded(steps, at, at, hash);
      AppliesRest(steps, k, at + 1, n, hash, refuses);
      AcceptedSplit(steps, at, n, hash, refuses);
      assert Applied(Prefix(steps, at, hash), s, hash) == Prefix(steps, at + 1, hash);
    }
  }

  lemma NotYetRecorded(steps: seq<Step>, k: nat, at: nat, hash: Hash)
    requires DistinctVersions(steps) && k <= at < |steps|
    ensures steps[at].version !in Prefix(steps, k, hash).applied
  {
    PrefixRecords(steps, k, hash);
  }

  /** SQLite takes step i after the steps before it. */
  predicate Accepted(steps: seq<Step>, i: int, hash: Hash, refuses: Refusal)
    requires 0 <= i < |steps|
  {
    !refuses(Prefix(steps, i, hash).effects, steps[i].sql)
  }

  lemma AcceptedSplit(steps: seq<Step>, at: nat, n: nat, hash: Hash, refuses: Refusal)
    requires at < n <= |steps|
    ensures (forall i :: at <= i < n ==> Accepted(steps, i, hash, refuses))
      <==> Accepted(steps, at, hash, refuses) && forall i :: at + 1 <= i < n ==> Accepted(steps, i, hash, refuses)
  {
    hide Accepted;
  }

  /** Booting the first n steps on a database that has the first k. */
  lemma BootFromPrefix(steps: seq<Step>, k: nat, n: nat, hash: Hash, refuses: Refusal)
    requires DistinctVersions(steps) && k <= |steps| && n <= |steps|
    ensures var r := Boot(Prefix(steps, k, hash), steps[..n], hash, refuses);
      && (r.Some? ==> r == Some(Prefix(steps, if k <= n then n else k, hash)))
      && (r.Some? <==> forall i :: k <= i < n ==> Accepted(steps, i, hash, refuses))
  {
    SkipsRecorded(steps, k, n, 0, hash, refuses);
    assert steps[0..n] == steps[..n];
    if k <= n {
      AppliesRest(steps, k, k, n, hash, refuses);
    } else {
      assert steps[n..n] == [];
    }
  }

  /** Booting with the first n steps and then with all gives what one fresh boot with all gives. */
  lemma UpgradeIsFreshBoot(steps: seq<Step>, n: nat, hash: Hash, refuses: Refusal)
    requires DistinctVersions(steps) && n <= |steps| && Boot(FRESH, steps[..n], hash, refuses).Some?
    ensures Boot(Boot(FRESH, steps[..n], hash, refuses).value, steps, hash, refuses)
         == Boot(FRESH, steps, hash, refuses)
  {
    assert Prefix(steps, 0, hash) == FRESH;
    assert steps[..|steps|] == steps;
    BootFromPrefix(steps, 0, n, hash, refuses);
    BootFromPrefix(steps, 0, |steps|, hash, refuses);
    BootFromPrefix(steps, n, |steps|, hash, refuses);
  }

  // ----- any number of boots, upgrades, downgrades and crashes -----

  /** A boot of a release that ships the first n steps, killed before it commits or not. */
  datatype Start = Start(n: nat, killed: bool)

  function AfterStart(d: Db, steps: seq<Step>, s: Start, hash: Hash, refuses: Refusal): Db {
    if s.killed || s.n > |steps| then d
    else var r := Boot(d, steps[..s.n], hash, refuses); if r.Some? then r.value else d
  }

  function History(steps: seq<Step>, starts: seq<Start>, hash: Hash, refuses: Refusal): Db {
    if starts == [] then FRESH
    else AfterStart(History(steps, starts[..|starts| - 1], hash, refuses), steps, starts[|starts| - 1], hash, refuses)
  }

  /** The i-th boot of a history returned. */
  predicate Booted(steps: seq<Step>, starts: seq<Start>, i: nat, hash: Hash, refuses: Refusal)
    requires i < |starts|
  {
    !starts[i].killed && starts[i].n <= |steps|
    && Boot(History(steps, starts[..i], hash, refuses), steps[..starts[i].n], hash, refuses).Some?
  }

  /** Through every history each step has taken effect at most once, in list order, with none left out between. */
  lemma {:induction false} HistoryIsPrefix(steps: seq<Step>, starts: seq<Start>, hash: Hash, refuses: Refusal)
    returns (k: nat)
    requires DistinctVersions(steps)
    ensures k <= |steps| && History(steps, starts, hash, refuses) == Prefix(steps, k, hash)
    ensures forall i :: 0 <= i < |starts| && Booted(steps, starts, i, hash, refuses) ==> starts[i].n <= k
  {
    if starts == [] {
      k := 0;
    } else {
      var m := |starts| - 1;
      var before := HistoryIsPrefix(steps, starts[..m], hash, refuses);
      var s := starts[m];
      k := before;
      if !s.killed && s.n <= |steps| {
        BootFromPrefix(steps, before, s.n, hash, refuses);
        if Boot(Prefix(steps, before, hash), steps[..s.n], hash, refuses).Some? && before <= s.n {
          k := s.n;
        }
      }
      forall i | 0 <= i < |starts| && Booted(steps, starts, i, hash, refuses)
        ensures starts[i].n <= k
      {
        if i < m {
          assert starts[..m][i] == starts[i] && starts[..m][..i] == starts[..i];
          assert Booted(steps, starts[..m], i, hash, refuses);
        }
      }
    }
  }

  /** A step edited after it was applied stops every later boot, if its hash changed. */
  lemma EditedStepRefused(d: Db, steps: seq<Step>, i: nat, hash: Hash, refuses: Refusal)
    requires i < |steps| && steps[i].version in d.applied && d.applied[steps[i].version] != hash(steps[i].sql)
    ensures Boot(d, steps, hash, refuses).None?
  {
    EditedStepStops(d.applied, d, steps, i, hash, refuses);
  }

  lemma {:induction false} EditedStepStops(seen: map<int, string>, work: Db, steps: seq<Step>, i: nat,
                                            hash: Hash, refuses: Refusal)
    requires i < |steps| && steps[i].version in seen && seen[steps[i].version] != hash(steps[i].sql)
    ensures Migrate(seen, work, steps, hash, refuses).None?
    decreases |steps|
  {
    if i == 0 {
    } else {
      EditedStepStops(seen, work, steps[1..], i - 1, hash, refuses);
      EditedStepStops(seen, Applied(work, steps[0], hash), steps[1..], i - 1, hash, refuses);
    }
  }
}
