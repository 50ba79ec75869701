/**
 * The generic path of safeWriteConfigFile, and restoreConfigFileFromBackup: commands on a remote
 * host, each of which may fail. A failed copy or install changes nothing; a shell line of several
 * commands can stop between two of them. When a line ends without an exit status, because it was
 * killed or the connection dropped, its status is read as 0.
 */
module ConfigWrite {
  import opened Wrappers

  datatype File = File(content: string, mode: string, owner: string)

  /** The answer of validateConfigFile; NoAnswer when it threw. */
  datatype Verdict = NotChecked | Passed | Failed | NoAnswer

  /** How the commands of one restore fare. */
  datatype RestoreWorld = RestoreWorld(connects: bool, runs: bool, copies: bool, reports: bool)

  /**
   * How the commands of one write fare: "runs" is false when the connection rejects the command,
   * "reports" when its exit status never arrives. `left` is what the temp file holds, if there is
   * one, when it was not written in full.
   */
  datatype WriteWorld = WriteWorld(
    stamp: int, user: string, connects: bool,
    statRuns: bool, statAnswers: bool,
    backupRuns: bool, copiesTimed: bool, copiesStable: bool,
    tempRuns: bool, writesTemp: bool, left: Option<string>, tempReports: bool,
    before: Verdict, cleanupRuns: bool,
    installRuns: bool, installs: bool, removesTemp: bool, installReports: bool,
    after: Verdict, restore: RestoreWorld)

  // ----- paths -----

  const EXCLUDED_PATHS := ["/etc/shadow", "/etc/gshadow", "/etc/ssl/private", "/etc/pki/", "/etc/machine-id"]

  predicate Excluded(path: string) {
    exists i :: 0 <= i < |EXCLUDED_PATHS| && EXCLUDED_PATHS[i] <= path
  }

  predicate NeedsSudo(path: string) {
    "/etc/" <= path || "/usr/" <= path || "/var/" <= path
  }

  predicate Restorable(path: string) {
    !Excluded(path) && ("/" <= path || "~" <= path)
  }

  predicate Includes(s: string, part: string) {
    exists i :: 0 <= i <= |s| && part <= s[i..]
  }

  /** Paths that have no writer of their own. */
  predicate Generic(path: string) {
    !Includes(path, "sudoers") && !Includes(path, "/ssh/sshd_config") && !Includes(path, "/ufw/")
    && !Includes(path, "firewalld") && !Includes(path, "/systemd/")
    && !(|path| >= 8 && path[|path| - 8..] == ".service")
  }

  /** Exactly which paths have one: those that hold one of five words, and those that end in ".service". */
  lemma SpecialPaths(path: string)
    ensures !Generic(path) <==>
      || Holds(path, "sudoers") || Holds(path, "/ssh/sshd_config") || Holds(path, "/ufw/") || Holds(path, "firewalld")
      || Holds(path, "/systemd/") || exists before: string :: path == before + ".service"
  {
    HoldsIff(path, "sudoers");
    HoldsIff(path, "/ssh/sshd_config");
    HoldsIff(path, "/ufw/");
    HoldsIff(path, "firewalld");
    HoldsIff(path, "/systemd/");
    if |path| >= 8 && path[|path| - 8..] == ".service" {
      assert path == path[..|path| - 8] + ".service";
    }
  }

  ghost predicate Holds(s: string, part: string) {
    exists before, after :: s == before + part + after
  }

  lemma HoldsIff(s: string, part: string)
    ensures Includes(s, part) <==> Holds(s, part)
  {
    if Includes(s, part) {
      var i :| 0 <= i <= |s| && part <= s[i..];
      assert s == s[..i] + part + s[i + |part|..];
    }
    if Holds(s, part) {
      var before, after :| s == before + part + after;
      assert s[|before|..] == part + after;
    }
  }

  // ----- the files of one path -----

  /** The live file, its stable backup, and its timestamped backups. */
  datatype Files = Files(live: Option<File>, stable: Option<File>, timed: map<int, File>)

  /** The file the install command makes: mode and owner as stat reported them, or the command's defaults. */
  function NewFile(path: string, content: string, live: Option<File>, w: WriteWorld): File {
    var known := live.Some? && w.statAnswers;
    File(content,
         if known then live.value.mode else "644",
         if !NeedsSudo(path) then w.user else if known then live.value.owner else "root:root")
  }

  /** Whoever copies may give the copy to another user. */
  predicate Privileged(path: string, user: string) {
    NeedsSudo(path) || "root:" <= user
  }

  /** What `cp -p` makes of a file: without privileges the copy belongs to the user who copies. */
  function CopyOf(path: string, user: string, file: File): File {
    if Privileged(path, user) then file else file.(owner := user)
  }

  predicate KeepsOwner(path: string, user: string, file: File) {
    Privileged(path, user) || file.owner == user
  }

  // ----- what one call amounts to -----

  predicate BacksUp(path: string, backup: bool, w: WriteWorld) {
    !Excluded(path) && w.connects && w.statRuns && backup && w.backupRuns
  }

  /** What the temp file holds after the line that writes it. */
  function TempHolds(content: string, w: WriteWorld): Option<string> {
    if w.writesTemp then Some(content) else w.left
  }

  /** The install line is run. */
  predicate Prepared(path: string, backup: bool, w: WriteWorld) {
    !Excluded(path) && w.connects && w.statRuns && (backup ==> w.backupRuns)
    && w.tempRuns && (w.writesTemp || !w.tempReports) && !w.before.Failed? && w.installRuns
  }

  /** The install line replaces the live file. */
  predicate Installs(path: string, backup: bool, w: WriteWorld) {
    Prepared(path, backup, w) && w.installs && (w.writesTemp || w.left.Some?)
  }

  /** The install line reads as done. */
  predicate Accepted(path: string, backup: bool, w: WriteWorld) {
    Prepared(path, backup, w) && (w.installReports ==> Installs(path, backup, w) && w.removesTemp)
  }

  predicate Succeeds(path: string, backup: bool, w: WriteWorld) {
    Accepted(path, backup, w) && !w.after.Failed?
  }

  function Backups(f: Files, path: string, backup: bool, w: WriteWorld): Files {
    if BacksUp(path, backup, w) then Copied(f, path, w) else f
  }

  function Copied(f: Files, path: string, w: WriteWorld): Files {
    if f.live.None? then f
    else
      var copy := CopyOf(path, w.user, f.live.value);
      f.(stable := if w.copiesStable then Some(copy) else f.stable,
         timed := if w.copiesTimed then f.timed[w.stamp := copy] else f.timed)
  }

  predicate RestoreWorks(f: Files, path: string, w: RestoreWorld) {
    Restorable(path) && w.connects && w.runs && w.copies && f.stable.Some?
  }

  predicate RestoreReturns(f: Files, path: string, w: RestoreWorld) {
    Restorable(path) && w.connects && w.runs && (w.reports ==> w.copies && f.stable.Some?)
  }

  function AfterRestore(f: Files, path: string, user: string, w: RestoreWorld): Files {
    if RestoreWorks(f, path, w) then f.(live := Some(CopyOf(path, user, f.stable.value))) else f
  }

  /** The files after a write, whatever happened on the way. */
  function AfterWrite(f: Files, path: string, content: string, backup: bool, w: WriteWorld): Files {
    var saved := Backups(f, path, backup, w);
    if Prepared(path, backup, w) then AfterInstall(saved, path, TempHolds(content, w), w) else saved
  }

  /** The files after the install line and the validation that follows it, from what the temp file holds. */
  function AfterInstall(f: Files, path: string, temp: Option<string>, w: WriteWorld): Files {
    var done := w.installs && temp.Some?;
    var written := if done then f.(live := Some(NewFile(path, temp.value, f.live, w))) else f;
    if (w.installReports ==> done && w.removesTemp) && w.after.Failed? then
      AfterRestore(written, path, w.user, w.restore)
    else written
  }

  /** The file the install line puts in place. */
  function Written(path: string, content: string, live: Option<File>, w: WriteWorld): File
    requires w.writesTemp || w.left.Some?
  {
    NewFile(path, TempHolds(content, w).value, live, w)
  }

  /** The temp files of other calls. */
  function OtherTemps(temps: map<int, string>, stamp: int): map<int, string> {
    temps - {stamp}
  }

  // ----- the two methods -----

  class Host {
    var files: Files
    var temps: map<int, string>

    constructor (f: Files)
      ensures files == f && temps == map[]
    {
      files, temps := f, map[];
    }

    method SafeWriteConfigFile(path: string, content: string, backup: bool, w: WriteWorld)
      returns (r: Outcome<int>)
      requires Generic(path)
      modifies this
      ensures files == AfterWrite(old(files), path, content, backup, w)
      ensures r.Returned? <==> Succeeds(path, backup, w)
      ensures r.Returned? ==> r.result == w.stamp
      ensures r.Returned? && w.installReports ==> w.stamp !in temps
      ensures OtherTemps(temps, w.stamp) == OtherTemps(old(temps), w.stamp)
    {
      hide Excluded, NeedsSudo, Restorable, Generic, Copied, AfterInstall;
      if Excluded(path) {
        return Threw("Access denied");
      }
      if !w.connects {
        return Threw("connection failed");
      }
      if !w.statRuns {
        return Threw("connection failed");
      }
      var mode: Option<string> := None;
      var owner: Option<string> := None;
      if files.live.Some? && w.statAnswers {
        mode, owner := Some(files.live.value.mode), Some(files.live.value.owner);
      }
      if backup {
        if !w.backupRuns {
          return Threw("connection failed");
        }
        CopyLive(path, w);
      }
      if !w.tempRuns {
        return Threw("connection failed");
      }
      var exitCode := WriteTemp(content, w);
      if exitCode != 0 {
        return Threw("Write temp failed");
      }
      if w.before.Failed? {
        RemoveTemp(w.stamp, w.cleanupRuns);
        return Threw("Pre-validate failed");
      }
      if !w.installRuns {
        return Threw("connection failed");
      }
      r := InstallAndValidate(path, mode, owner, w);
    }

    ghost function Temp(stamp: int): Option<string>
      reads this
    {
      if stamp in temps then Some(temps[stamp]) else None
    }

    /** The rest of a write, once its temp file is there. */
    method InstallAndValidate(path: string, mode: Option<string>, owner: Option<string>, w: WriteWorld)
      returns (r: Outcome<int>)
      requires mode == if files.live.Some? && w.statAnswers then Some(files.live.value.mode) else None
      requires owner == if files.live.Some? && w.statAnswers then Some(files.live.value.owner) else None
      modifies this
      ensures files == AfterInstall(old(files), path, old(Temp(w.stamp)), w)
      ensures r.Returned? <==>
        (w.installReports ==> w.installs && old(Temp(w.stamp)).Some? && w.removesTemp) && !w.after.Failed?
      ensures r.Returned? ==> r.result == w.stamp
      ensures r.Returned? && w.installReports ==> w.stamp !in temps
      ensures OtherTemps(temps, w.stamp) == OtherTemps(old(temps), w.stamp)
    {
      hide NeedsSudo, AfterRestore;
      var exitCode := InstallTemp(path, mode, owner, w);
      if exitCode != 0 {
        RemoveTemp(w.stamp, w.cleanupRuns);
        return Threw("Write failed");
      }
      if w.after.Failed? {
        var restored := RestoreConfigFileFromBackup(path, w.user, w.restore);
        return Threw("Post-validate failed; backup restored");
      }
      r := Returned(w.stamp);
    }

    /** The two copies of the backup line; a copy that fails is ignored. */
    method CopyLive(path: string, w: WriteWorld)
      modifies this`files
      ensures files == Copied(old(files), path, w)
      ensures files.live == old(files).live
    {
      if files.live.Some? && w.copiesTimed {
        files := files.(timed := files.timed[w.stamp := CopyOf(path, w.user, files.live.value)]);
      }
      if files.live.Some? && w.copiesStable {
        files := files.(stable := Some(CopyOf(path, w.user, files.live.value)));
      }
    }

    /** The line that writes the temp file. */
    method WriteTemp(content: string, w: WriteWorld) returns (exitCode: int)
      modifies this`temps
      ensures exitCode == 0 <==> w.writesTemp || !w.tempReports
      ensures Temp(w.stamp) == TempHolds(content, w)
      ensures OtherTemps(temps, w.stamp) == OtherTemps(old(temps), w.stamp)
    {
      temps := temps - {w.stamp};
      if w.writesTemp {
        temps := temps[w.stamp := content];
      } else if w.left.Some? {
        temps := temps[w.stamp := w.left.value];
      }
      exitCode := if w.writesTemp || !w.tempReports then 0 else 1;
    }

    /** The install line: the temp file over the live one, and then the temp file's removal. */
    method InstallTemp(path: string, mode: Option<string>, owner: Option<string>, w: WriteWorld) returns (exitCode: int)
      modifies this
      ensures exitCode == 0 <==> !w.installReports || (w.installs && w.stamp in old(temps) && w.removesTemp)
      ensures files == if !w.installs || w.stamp !in old(temps) then old(files) else old(files).(live := Some(File(
        old(temps)[w.stamp],
        if mode.Some? then mode.value else "644",
        if !NeedsSudo(path) then w.user else if owner.Some? then owner.value else "root:root")))
      ensures temps == if w.installs && w.removesTemp then old(temps) - {w.stamp} else old(temps)
    {
      exitCode := 1;
      if w.installs && w.stamp in temps {
        files := files.(live := Some(File(
          temps[w.stamp],
          if mode.Some? then mode.value else "644",
          if !NeedsSudo(path) then w.user else if owner.Some? then owner.value else "root:root")));
        RemoveTemp(w.stamp, w.removesTemp);
        exitCode := if w.removesTemp then 0 else 1;
      }
      if !w.installReports {
        exitCode := 0;
      }
    }

    method RemoveTemp(stamp: int, runs: bool)
      modifies this`temps
      ensures temps == if runs then old(temps) - {stamp} else old(temps)
    {
      if runs {
        temps := temps - {stamp};
      }
    }

    method RestoreConfigFileFromBackup(path: string, user: string, w: RestoreWorld) returns (r: Outcome<bool>)
      modifies this`files
      ensures files == AfterRestore(old(files), path, user, w)
      ensures r.Returned? <==> RestoreReturns(old(files), path, w)
    {
      if Excluded(path) {
        return Threw("Access denied");
      }
      if !("/" <= path) && !("~" <= path) {
        return Threw("Invalid path");
      }
      if !w.connects || !w.runs {
        return Threw("connection failed");
      }
      var copied := files.stable.Some? && w.copies;
      if copied {
        files := files.(live := Some(CopyOf(path, user, files.stable.value)));
      }
      if w.reports && !copied {
        return Threw("Rollback failed");
      }
      r := Returned(true);
    }
  }

  // ----- one write is all or nothing -----

  /** A write that returns leaves the new content live; a write that throws leaves the live file as it was. */
  predicate Atomic(f: Files, path: string, content: string, backup: bool, w: WriteWorld) {
    var g := AfterWrite(f, path, content, backup, w);
    if Succeeds(path, backup, w) then g.live == Some(NewFile(path, content, f.live, w)) else g.live == f.live
  }

  /** Three ways a write that throws can change the live file, and two ways a write can return without its content. */
  datatype Leak = TempNotRemoved | NotRestored | RestoredOther | NotInstalled | WrongContent

  predicate Leaks(f: Files, path: string, content: string, backup: bool, w: WriteWorld, leak: Leak) {
    var saved := Backups(f, path, backup, w);
    var changes := Installs(path, backup, w) && Some(Written(path, content, f.live, w)) != f.live;
    var refused := Accepted(path, backup, w) && w.after.Failed?;
    match leak
    // installed, but the removal of the temp file after it fails and fails the whole line
    case TempNotRemoved => changes && !Accepted(path, backup, w)
    // refused by validation, and the restore fails as well
    case NotRestored => changes && refused && !RestoreWorks(saved, path, w.restore)
    // refused by validation, and what is restored is not the file that was replaced: an older one, or of another owner
    case RestoredOther =>
      refused && RestoreWorks(saved, path, w.restore) && Some(CopyOf(path, w.user, saved.stable.value)) != f.live
    // the install line ended early, and its status never arrived
    case NotInstalled => Succeeds(path, backup, w) && !Installs(path, backup, w)
    // the temp line ended early, its status never arrived, and what it left was installed
    case WrongContent =>
      Succeeds(path, backup, w) && Installs(path, backup, w) && TempHolds(content, w) != Some(content)
  }

  /** Apart from these five, every write is atomic, and each of the five breaks it when there is a change to see. */
  lemma AtomicUnlessLeaks(f: Files, path: string, content: string, backup: bool, w: WriteWorld)
    requires f.live != Some(NewFile(path, content, f.live, w))
    ensures Atomic(f, path, content, backup, w) <==> forall leak :: !Leaks(f, path, content, backup, w, leak)
  {
    hide Excluded, NeedsSudo, Restorable, Prepared;
    var saved := Backups(f, path, backup, w);
    if Leaks(f, path, content, backup, w, TempNotRemoved) || Leaks(f, path, content, backup, w, NotRestored)
       || Leaks(f, path, content, backup, w, RestoredOther) || Leaks(f, path, content, backup, w, NotInstalled)
       || Leaks(f, path, content, backup, w, WrongContent) {
      assert !Atomic(f, path, content, backup, w);
    } else {
      forall leak
        ensures !Leaks(f, path, content, backup, w, leak)
      {
        match leak
        case TempNotRemoved =>
        case NotRestored =>
        case RestoredOther =>
        case NotInstalled =>
        case WrongContent =>
      }
    }
  }

  /** When the statuses arrive, what a write returns for is there. */
  lemma ReportedSuccessIsReal(f: Files, path: string, content: string, backup: bool, w: WriteWorld)
    requires Succeeds(path, backup, w) && w.tempReports && w.installReports
    ensures AfterWrite(f, path, content, backup, w).live == Some(NewFile(path, content, f.live, w))
  {
    hide Excluded, NeedsSudo, Restorable, NewFile;
  }

  /**
   * With a backup of an existing file, working copies, a working clean-up and statuses that
   * arrive, nothing leaks.
   */
  predicate Reliable(path: string, backup: bool, w: WriteWorld) {
    backup && Restorable(path) && w.copiesStable && w.removesTemp && w.tempReports && w.installReports
    && w.restore.connects && w.restore.runs && w.restore.copies
  }

  /**
   * A reliable write leaves the new content or the old one; and it is atomic, owner and all, iff it
   * is not refused, or the copies keep the owner.
   */
  lemma ReliableIsAtomic(f: Files, path: string, content: string, backup: bool, w: WriteWorld)
    requires f.live.Some? && Reliable(path, backup, w)
    ensures var g := AfterWrite(f, path, content, backup, w);
      && g.live.Some?
      && g.live.value.content == if Succeeds(path, backup, w) then content else f.live.value.content
    ensures Atomic(f, path, content, backup, w)
      <==> (Accepted(path, backup, w) && w.after.Failed? ==> KeepsOwner(path, w.user, f.live.value))
  {
    hide Excluded, NeedsSudo;
  }

  // ----- sequences of calls -----

  datatype Call =
    | Write(content: string, backup: bool, world: WriteWorld)
    | Restore(user: string, restoreWorld: RestoreWorld)

  function After(f: Files, path: string, c: Call): Files {
    match c
    case Write(content, backup, w) => AfterWrite(f, path, content, backup, w)
    case Restore(user, w) => AfterRestore(f, path, user, w)
  }

  /** The files after a run of calls on one path. */
  function Run(f: Files, path: string, calls: seq<Call>): Files {
    if calls == [] then f else After(Run(f, path, calls[..|calls| - 1]), path, calls[|calls| - 1])
  }

  /** The content a register would hold: that of the last write that returned, or the first content. */
  function Register(path: string, calls: seq<Call>, initial: string): string
    requires forall i :: 0 <= i < |calls| ==> calls[i].Write?
  {
    if calls == [] then initial
    else
      var c := calls[|calls| - 1];
      if Succeeds(path, c.backup, c.world) then c.content else Register(path, calls[..|calls| - 1], initial)
  }

  /** Any run of reliable writes to an existing file behaves like a register, after every call. */
  lemma {:induction false} WritesAreRegister(f: Files, path: string, calls: seq<Call>)
    requires f.live.Some?
    requires forall i :: 0 <= i < |calls| ==> calls[i].Write? && Reliable(path, calls[i].backup, calls[i].world)
    ensures var g := Run(f, path, calls);
      g.live.Some? && g.live.value.content == Register(path, calls, f.live.value.content)
  {
    hide Excluded, NeedsSudo, Reliable, AfterWrite, Succeeds;
    if calls == [] {
    } else {
      var n := |calls| - 1;
      WritesAreRegister(f, path, calls[..n]);
      var c := calls[n];
      ReliableIsAtomic(Run(f, path, calls[..n]), path, c.content, c.backup, c.world);
    }
  }

  // ----- restoring -----

  /**
   * Restoring after a backed-up write brings back content and mode of the file before the write;
   * and its owner too, iff neither copy changed it.
   */
  lemma RestoreUndoesWrite(f: Files, path: string, content: string, w: WriteWorld, user: string, r: RestoreWorld)
    requires f.live.Some? && Succeeds(path, true, w) && w.copiesStable
    requires Restorable(path) && r.connects && r.runs && r.copies
    ensures var g := AfterWrite(f, path, content, true, w);
      && RestoreWorks(g, path, r) && AfterRestore(g, path, user, r).live.Some?
      && var file := AfterRestore(g, path, user, r).live.value;
      && file.content == f.live.value.content && file.mode == f.live.value.mode
      && (file == f.live.value <==>
            KeepsOwner(path, user, f.live.value)
            && (Privileged(path, user) ==> KeepsOwner(path, w.user, f.live.value)))
  {
    hide Excluded, NeedsSudo;
  }

  /** A write that ran its backup step on an existing file, and whose copy to the stable name worked. */
  predicate Saves(f: Files, path: string, c: Call) {
    c.Write? && BacksUp(path, c.backup, c.world) && f.live.Some? && c.world.copiesStable
  }

  /** The last call of a run that saved, if any. */
  function LastSave(f: Files, path: string, calls: seq<Call>): (k: int)
    ensures -1 <= k < |calls|
    ensures k >= 0 ==> Saves(Run(f, path, calls[..k]), path, calls[k])
  {
    if calls == [] then -1
    else
      var n := |calls| - 1;
      if Saves(Run(f, path, calls[..n]), path, calls[n]) then n
      else
        var k := LastSave(f, path, calls[..n]);
        assert k >= 0 ==> calls[..n][..k] == calls[..k];
        k
  }

  /** Over any run the stable backup is a copy of the live file as it was before the last write that saved it. */
  lemma {:induction false} StableIsLastSaved(f: Files, path: string, calls: seq<Call>)
    ensures var k := LastSave(f, path, calls);
      Run(f, path, calls).stable ==
        if k < 0 then f.stable else Some(CopyOf(path, calls[k].world.user, Run(f, path, calls[..k]).live.value))
  {
    hide Excluded, NeedsSudo, Restorable, After, Saves;
    if calls == [] {
    } else {
      var n := |calls| - 1;
      StableIsLastSaved(f, path, calls[..n]);
      var k := LastSave(f, path, calls[..n]);
      assert k >= 0 ==> calls[..n][..k] == calls[..k];
      StableStep(Run(f, path, calls[..n]), path, calls[n]);
    }
  }

  lemma StableStep(f: Files, path: string, c: Call)
    ensures After(f, path, c).stable ==
      if Saves(f, path, c) then Some(CopyOf(path, c.world.user, f.live.value)) else f.stable
  {
    hide Excluded, NeedsSudo, Restorable, Prepared;
  }

  /** An installed write under a system directory changes only the content, whenever stat answered. */
  lemma WriteKeepsModeAndOwner(f: Files, path: string, content: string, backup: bool, w: WriteWorld)
    requires f.live.Some? && w.statAnswers && NeedsSudo(path)
    requires Succeeds(path, backup, w) && Installs(path, backup, w)
    ensures AfterWrite(f, path, content, backup, w).live
         == Some(f.live.value.(content := TempHolds(content, w).value))
  {
    hide Excluded;
  }

  /** The failing families are real: without a fresh backup, a refused write puts an older file back. */
  lemma StaleBackupIsRestored(a: File, b: File, c: string, w: WriteWorld)
    requires a != b && Succeeds("/etc/nginx/nginx.conf", false, w.(after := Passed))
    requires w.after.Failed? && w.restore == RestoreWorld(true, true, true, true)
    requires w.writesTemp && w.installs
    ensures var g := AfterWrite(Files(Some(b), Some(a), map[]), "/etc/nginx/nginx.conf", c, false, w);
      !Succeeds("/etc/nginx/nginx.conf", false, w) && g.live == Some(a)
  {
    assert "/" <= "/etc/nginx/nginx.conf";
  }

  // ----- timestamped backups -----

  /** A write with this stamp that ran its backup step on an existing file, and whose dated copy worked. */
  predicate SavesTimed(f: Files, path: string, c: Call, stamp: int) {
    c.Write? && c.world.stamp == stamp && BacksUp(path, c.backup, c.world) && f.live.Some? && c.world.copiesTimed
  }

  /** The last call of a run that saved under a stamp, if any. */
  function LastTimed(f: Files, path: string, calls: seq<Call>, stamp: int): (k: int)
    ensures -1 <= k < |calls|
    ensures k >= 0 ==> SavesTimed(Run(f, path, calls[..k]), path, calls[k], stamp)
  {
    if calls == [] then -1
    else
      var n := |calls| - 1;
      if SavesTimed(Run(f, path, calls[..n]), path, calls[n], stamp) then n
      else
        var k := LastTimed(f, path, calls[..n], stamp);
        assert k >= 0 ==> calls[..n][..k] == calls[..k];
        k
  }

  lemma TimedStep(f: Files, path: string, c: Call, stamp: int)
    ensures var g := After(f, path, c);
      if SavesTimed(f, path, c, stamp) then
        stamp in g.timed && g.timed[stamp] == CopyOf(path, c.world.user, f.live.value)
      else
        (stamp in g.timed <==> stamp in f.timed) && (stamp in g.timed ==> g.timed[stamp] == f.timed[stamp])
  {
    hide Excluded, NeedsSudo, Restorable, Prepared;
  }

  /** Over any run the backup of a stamp is a copy of the live file as it was before the last write that saved it. */
  lemma {:induction false} TimedIsLastSaved(f: Files, path: string, calls: seq<Call>, stamp: int)
    ensures var g, k := Run(f, path, calls), LastTimed(f, path, calls, stamp);
      if k < 0 then (stamp in g.timed <==> stamp in f.timed) && (stamp in g.timed ==> g.timed[stamp] == f.timed[stamp])
      else (
        && stamp in g.timed
        && g.timed[stamp] == CopyOf(path, calls[k].world.user, Run(f, path, calls[..k]).live.value))
  {
    hide Excluded, NeedsSudo, Restorable, After, SavesTimed;
    if calls == [] {
    } else {
      var n := |calls| - 1;
      TimedIsLastSaved(f, path, calls[..n], stamp);
      var k := LastTimed(f, path, calls[..n], stamp);
      assert k >= 0 ==> calls[..n][..k] == calls[..k];
      TimedStep(Run(f, path, calls[..n]), path, calls[n], stamp);
    }
  }

  // ----- paths, spelled out -----

  /** A write or restore of a protected path does nothing at all. */
  lemma ProtectedPaths(f: Files, path: string, content: string, backup: bool, w: WriteWorld,
                       user: string, r: RestoreWorld)
    requires "/etc/shadow" <= path || "/etc/gshadow" <= path || "/etc/ssl/private" <= path || "/etc/pki/" <= path
          || "/etc/machine-id" <= path
    ensures AfterWrite(f, path, content, backup, w) == f && !Succeeds(path, backup, w)
    ensures AfterRestore(f, path, user, r) == f && !RestoreReturns(f, path, r)
  {
    assert EXCLUDED_PATHS[0] == "/etc/shadow" && EXCLUDED_PATHS[1] == "/etc/gshadow";
    assert EXCLUDED_PATHS[2] == "/etc/ssl/private" && EXCLUDED_PATHS[3] == "/etc/pki/";
    assert EXCLUDED_PATHS[4] == "/etc/machine-id";
    assert Excluded(path);
  }

  /** No other path is protected. */
  lemma OnlyThese(path: string)
    requires Excluded(path)
    ensures "/etc/shadow" <= path || "/etc/gshadow" <= path || "/etc/ssl/private" <= path || "/etc/pki/" <= path
         || "/etc/machine-id" <= path
  {
  }

  /** Who owns a file after an installed write: below three directories its old owner or root, elsewhere the user. */
  lemma OwnerAfterWrite(f: Files, path: string, content: string, backup: bool, w: WriteWorld)
    requires Succeeds(path, backup, w) && Installs(path, backup, w)
    ensures var g := AfterWrite(f, path, content, backup, w); var system :=
        "/etc/" <= path || "/usr/" <= path || "/var/" <= path;
      && g.live.Some?
      && g.live.value.owner == (if !system then w.user
                                else if f.live.Some? && w.statAnswers then f.live.value.owner else "root:root")
      && g.live.value.mode == if f.live.Some? && w.statAnswers then f.live.value.mode else "644"
  {
    hide Excluded;
  }

  /** A copy keeps content and mode; its owner too, when sudo or root makes it, else it is the user's. */
  lemma OwnerOfCopy(path: string, user: string, file: File)
    ensures var c := CopyOf(path, user, file); var system := "/etc/" <= path || "/usr/" <= path || "/var/" <= path;
      && c.content == file.content && c.mode == file.mode
      && c.owner == if system || "root:" <= user then file.owner else user
  {
  }
}
