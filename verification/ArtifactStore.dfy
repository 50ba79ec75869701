/**
 * The content-addressed store of plan artifacts. Names keep 24 digits of a hash; contents are
 * checked by all of it.
 */
module ArtifactStore {
  import opened Wrappers
  import opened Text

  type Bytes = seq<bv8>

  /** Hexadecimal text; all that matters here is that it is one segment of a path. */
  type Digest = s: string | '/' !in s

  /** SHA-256 of bytes and of a plan id: any functions here. */
  datatype Hashes = Hashes(content: Bytes -> Digest, planId: string -> Digest)

  datatype Kind = Config | Recipe | DataManifest | Script | Report

  datatype Artifact = Artifact(id: string, kind: Kind, contentSha256: string, storageRef: string)

  function KindName(k: Kind): string {
    match k
    case Config => "config"
    case Recipe => "recipe"
    case DataManifest => "data-manifest"
    case Script => "script"
    case Report => "report"
  }

  function Short(s: string): string {
    if |s| > 24 then s[..24] else s
  }

  function PlanStorageKey(planId: string, h: Hashes): string {
    "plan-" + Short(h.planId(planId))
  }

  function ArtifactId(kind: Kind, content: Bytes, h: Hashes): string {
    "artifact-" + KindName(kind) + "-" + Short(h.content(content))
  }

  function StorageRef(planId: string, kind: Kind, content: Bytes, h: Hashes): string {
    PlanStorageKey(planId, h) + "/" + ArtifactId(kind, content, h) + ".bin"
  }

  /** The files of the store, by storage reference. */
  type Files = map<string, Bytes>

  /**
   * How the file system treats one put. A write that fails leaves the first `written` bytes behind;
   * a number as large as the content stands for a file that could not be created at all.
   */
  datatype Disk = Works | MkdirFails | WriteFails(written: nat) | ReadFails

  // ----- what one put amounts to -----

  datatype Put = Put(planId: string, kind: Kind, content: Bytes, disk: Disk)

  function RefOf(p: Put, h: Hashes): string {
    StorageRef(p.planId, p.kind, p.content, h)
  }

  predicate Returns(f: Files, p: Put, h: Hashes) {
    !p.disk.MkdirFails?
    && if RefOf(p, h) in f then !p.disk.ReadFails? && h.content(f[RefOf(p, h)]) == h.content(p.content)
       else !p.disk.WriteFails?
  }

  function AfterPut(f: Files, p: Put, h: Hashes): Files {
    var ref := RefOf(p, h);
    if p.disk.MkdirFails? || ref in f then f
    else if p.disk.WriteFails? then (if p.disk.written < |p.content| then f[ref := p.content[..p.disk.written]] else f)
    else f[ref := p.content]
  }

  function Record(p: Put, h: Hashes): Artifact {
    Artifact(ArtifactId(p.kind, p.content, h), p.kind, h.content(p.content), RefOf(p, h))
  }

  // ----- references -----

  /** path.resolve, segment by segment, from a directory given as its segments. */
  function Walk(at: seq<string>, segments: seq<string>): seq<string>
    decreases |segments|
  {
    if segments == [] then at else Walk(Enter(at, segments[0]), segments[1..])
  }

  function Enter(at: seq<string>, segment: string): seq<string> {
    if segment == "" || segment == "." then at
    else if segment != ".." then at + [segment]
    else if at == [] then []
    else at[..|at| - 1]
  }

  function Joined(segments: seq<string>): string {
    if segments == [] then ""
    else if |segments| == 1 then segments[0]
    else segments[0] + "/" + Joined(segments[1..])
  }

  /**
   * Where in the store a reference leads; None when it leaves the root. When the store is the root
   * directory itself, what is compared with begins with two slashes, and every reference seems to.
   */
  function Resolve(root: seq<string>, ref: string): Option<string> {
    var to := Walk(root, Split(ref, '/'));
    if to == root || (root != [] && root <= to) then Some(Joined(to[|root|..])) else None
  }

  /** The record is served: its reference begins with the plan's key, and leads to a file with its full hash. */
  predicate Serves(root: seq<string>, f: Files, planId: string, a: Artifact, h: Hashes) {
    var to := Resolve(root, a.storageRef);
    PlanStorageKey(planId, h) + "/" <= a.storageRef
    && to.Some? && to.value in f && h.content(f[to.value]) == a.contentSha256
  }

  function Served(root: seq<string>, f: Files, planId: string, a: Artifact, h: Hashes): Bytes
    requires Serves(root, f, planId, a, h)
  {
    f[Resolve(root, a.storageRef).value]
  }

  predicate PlainSegment(s: string) {
    s != "" && s != "." && s != ".." && '/' !in s
  }

  lemma OnePiece(s: string)
    requires '/' !in s
    ensures Split(s, '/') == [s]
  {
  }

  lemma KeyIsPlain(planId: string, h: Hashes)
    ensures PlainSegment(PlanStorageKey(planId, h))
  {
    assert PlanStorageKey(planId, h)[0] == 'p';
  }

  lemma NameIsPlain(kind: Kind, content: Bytes, h: Hashes)
    ensures PlainSegment(ArtifactId(kind, content, h) + ".bin")
  {
    assert '/' !in KindName(kind);
    assert (ArtifactId(kind, content, h) + ".bin")[0] == 'a';
  }

  lemma TwoSegments(root: seq<string>, a: string, b: string)
    requires PlainSegment(a) && PlainSegment(b)
    ensures Resolve(root, a + "/" + b) == if root == [] then None else Some(a + "/" + b)
  {
    OnePiece(a);
    OnePiece(b);
    SplitJoined(a, b, '/');
    assert a + ['/'] + b == a + "/" + b;
    var segments, to := Split(a + "/" + b, '/'), root + [a] + [b];
    assert segments == [a, b] && segments[1..] == [b];
    assert Walk(root, segments) == Walk(root + [a], [b]);
    assert Walk(root + [a], [b]) == Walk(to, []);
    assert to[|root|..] == [a, b] && [a, b][1..] == [b];
    assert Joined([b]) == b && Joined([a, b]) == a + "/" + b;
    assert root == to[..|root|] && root != to;
  }

  /** A reference that a put makes leads to itself, in every store but the root directory. */
  lemma PutResolves(root: seq<string>, p: Put, h: Hashes)
    ensures Resolve(root, RefOf(p, h)) == if root == [] then None else Some(RefOf(p, h))
  {
    hide PlanStorageKey, ArtifactId, Resolve, PlainSegment;
    var key, name := PlanStorageKey(p.planId, h), ArtifactId(p.kind, p.content, h) + ".bin";
    KeyIsPlain(p.planId, h);
    NameIsPlain(p.kind, p.content, h);
    TwoSegments(root, key, name);
    assert RefOf(p, h) == key + "/" + name;
  }

  /** The directory of a dot-free reference is never left. */
  lemma {:induction false} WalkStays(at: seq<string>, segments: seq<string>)
    requires "." !in segments && ".." !in segments
    ensures at <= Walk(at, segments)
    decreases |segments|
  {
    if segments == [] {
    } else {
      WalkStays(Enter(at, segments[0]), segments[1..]);
    }
  }

  class Store {
    const root: seq<string>
    var files: Files

    constructor (root: seq<string>)
      ensures this.root == root && files == map[]
    {
      this.root, files := root, map[];
    }

    method PutPlanArtifact(p: Put, h: Hashes) returns (r: Outcome<Artifact>)
      modifies this
      ensures files == if root == [] then old(files) else AfterPut(old(files), p, h)
      ensures r.Returned? <==> root != [] && Returns(old(files), p, h)
      ensures r.Returned? ==> r.result == Record(p, h)
      ensures RefOf(p, h) in old(files) ==> files == old(files)
      ensures RefOf(p, h) in old(files) && h.content(old(files)[RefOf(p, h)]) != h.content(p.content) ==> r.Threw?
    {
      PutResolves(root, p, h);
      var contentSha256 := h.content(p.content);
      var id := ArtifactId(p.kind, p.content, h);
      var storageRef := PlanStorageKey(p.planId, h) + "/" + id + ".bin";
      var resolved := Resolve(root, storageRef);
      if resolved.None? {
        return Threw("Artifact storage reference escapes the artifact store.");
      }
      var target := resolved.value;
      if p.disk.MkdirFails? {
        return Threw("mkdir failed");
      }
      if target !in files {
        if p.disk.WriteFails? {
          if p.disk.written < |p.content| {
            files := files[target := p.content[..p.disk.written]];
          }
          return Threw("write failed");
        }
        files := files[target := p.content];
      } else {
        if p.disk.ReadFails? {
          return Threw("read failed");
        }
        if h.content(files[target]) != contentSha256 {
          return Threw("Existing content-addressed artifact has an unexpected hash.");
        }
      }
      r := Returned(Artifact(id, p.kind, contentSha256, storageRef));
    }

    method GetPlanArtifact(planId: string, a: Artifact, h: Hashes) returns (r: Outcome<Bytes>)
      ensures r.Returned? <==> Serves(root, files, planId, a, h)
      ensures r.Returned? ==> r.result == Served(root, files, planId, a, h) && h.content(r.result) == a.contentSha256
    {
      var expectedPrefix := PlanStorageKey(planId, h) + "/";
      if !(expectedPrefix <= a.storageRef) {
        return Threw("Artifact is not bound to this Environment Plan.");
      }
      var target := Resolve(root, a.storageRef);
      if target.None? {
        return Threw("Artifact storage reference escapes the artifact store.");
      }
      if target.value !in files {
        return Threw("ENOENT");
      }
      var content := files[target.value];
      if h.content(content) != a.contentSha256 {
        return Threw("Artifact hash mismatch");
      }
      r := Returned(content);
    }
  }

  // ----- what is returned stays -----

  function AfterPuts(f: Files, puts: seq<Put>, h: Hashes): Files {
    if puts == [] then f else AfterPut(AfterPuts(f, puts[..|puts| - 1], h), puts[|puts| - 1], h)
  }

  /** No put, failing or not, changes or removes a file that is there. */
  lemma {:induction false} FilesStay(f: Files, puts: seq<Put>, h: Hashes)
    ensures forall ref :: ref in f ==> ref in AfterPuts(f, puts, h) && AfterPuts(f, puts, h)[ref] == f[ref]
  {
    hide RefOf;
    if puts == [] {
    } else {
      FilesStay(f, puts[..|puts| - 1], h);
    }
  }

  /** Nothing else has the hash of these bytes. */
  ghost predicate NoCollision(content: Bytes, h: Hashes) {
    forall other: Bytes :: h.content(other) == h.content(content) ==> other == content
  }

  /**
   * Once a put has returned its record, fetching it gives those bytes after any further puts: of
   * this or other plans, colliding in their 24 digits or not, failing half-way or not.
   */
  lemma FetchReturnsWhatWasPut(root: seq<string>, f: Files, p: Put, puts: seq<Put>, h: Hashes)
    requires root != [] && Returns(f, p, h) && NoCollision(p.content, h)
    ensures var g := AfterPuts(AfterPut(f, p, h), puts, h);
      Serves(root, g, p.planId, Record(p, h), h) && Served(root, g, p.planId, Record(p, h), h) == p.content
  {
    hide ArtifactId, PlanStorageKey, Resolve;
    PutResolves(root, p, h);
    var g := AfterPut(f, p, h);
    assert RefOf(p, h) in g && h.content(g[RefOf(p, h)]) == h.content(p.content);
    FilesStay(g, puts, h);
    var prefix := PlanStorageKey(p.planId, h) + "/";
    assert RefOf(p, h) == prefix + (ArtifactId(p.kind, p.content, h) + ".bin");
  }

  /**
   * Whether a working put of a content can ever return again is settled by the file under its
   * name: a write cut short leaves one whose hash differs, and then it never can.
   */
  lemma CutShortIsFinal(f: Files, p: Put, puts: seq<Put>, again: Put, h: Hashes)
    requires RefOf(p, h) !in f && p.disk.WriteFails? && p.disk.written < |p.content| && NoCollision(p.content, h)
    requires again == p.(disk := Works)
    ensures !Returns(AfterPuts(AfterPut(f, p, h), puts, h), again, h)
    ensures Returns(f, again, h)
  {
    hide StorageRef;
    var g := AfterPut(f, p, h);
    FilesStay(g, puts, h);
    assert |g[RefOf(p, h)]| < |p.content|;
  }

  lemma PrefixesDiffer(k: string, l: string, s: string)
    requires |k| == |l| && k != l && l <= s
    ensures !(k <= s)
  {
    var i :| 0 <= i < |k| && k[i] != l[i];
    assert l[i] == s[i];
  }

  /** A record is refused under every plan whose storage key differs. */
  lemma BoundToPlan(root: seq<string>, f: Files, p: Put, planId: string, h: Hashes)
    requires PlanStorageKey(planId, h) != PlanStorageKey(p.planId, h)
    requires |PlanStorageKey(planId, h)| == |PlanStorageKey(p.planId, h)|
    ensures !Serves(root, f, planId, Record(p, h), h)
  {
    hide ArtifactId, PlanStorageKey, Resolve;
    var k, l := PlanStorageKey(planId, h), PlanStorageKey(p.planId, h);
    var ref := RefOf(p, h);
    assert ref == l + ("/" + ArtifactId(p.kind, p.content, h) + ".bin");
    assert l <= ref && k <= k + "/";
    PrefixesDiffer(k, l, ref);
  }

  /**
   * Any record, whoever made its reference: as long as that has no dot segments, what is served
   * lies in the directory of the plan.
   */
  lemma PlainReferenceStaysInPlan(root: seq<string>, f: Files, planId: string, a: Artifact, h: Hashes)
    requires Serves(root, f, planId, a, h)
    requires "." !in Split(a.storageRef, '/') && ".." !in Split(a.storageRef, '/')
    ensures InDirectory(PlanStorageKey(planId, h), Resolve(root, a.storageRef).value)
  {
    hide PlanStorageKey, Resolve, PlainSegment, InDirectory;
    var key := PlanStorageKey(planId, h);
    KeyIsPlain(planId, h);
    var rest := a.storageRef[|key| + 1..];
    assert a.storageRef == key + "/" + rest;
    StaysBelow(root, key, rest);
  }

  predicate InDirectory(key: string, ref: string) {
    ref == key || key + "/" <= ref
  }

  lemma StaysBelow(root: seq<string>, key: string, rest: string)
    requires PlainSegment(key)
    requires "." !in Split(key + "/" + rest, '/') && ".." !in Split(key + "/" + rest, '/')
    ensures var to := Resolve(root, key + "/" + rest);
      (to.Some? <==> root != []) && (to.Some? ==> InDirectory(key, to.value))
  {
    hide Split;
    var segments := Split(rest, '/');
    OnePiece(key);
    SplitJoined(key, rest, '/');
    assert key + ['/'] + rest == key + "/" + rest;
    var all := [key] + segments;
    assert Split(key + "/" + rest, '/') == all && all[0] == key && all[1..] == segments;
    assert forall s :: s in segments ==> s in all;
    WalkStays(root + [key], segments);
    JoinedBelow(root, key, Walk(root, all));
  }

  lemma JoinedBelow(root: seq<string>, key: string, to: seq<string>)
    requires root + [key] <= to
    ensures root < to && InDirectory(key, Joined(to[|root|..]))
  {
    var inner := to[|root|..];
    assert inner[0] == (root + [key])[|root|] == key;
    assert root == (root + [key])[..|root|];
  }

  // ----- names -----

  /** Digests of one length: SHA-256 in hexadecimal has 64 digits. */
  ghost predicate SixtyFourDigits(h: Hashes) {
    (forall b: Bytes :: |h.content(b)| == 64) && forall p: string :: |h.planId(p)| == 64
  }

  lemma KindNames(k: Kind, l: Kind)
    ensures 6 <= |KindName(k)| <= 13
    ensures |KindName(k)| == |KindName(l)| && KindName(k)[0] == KindName(l)[0] && KindName(k)[2] == KindName(l)[2]
      ==> k == l
  {
  }

  /**
   * Two puts meet under one name iff their plans' hashes and their contents' hashes begin with the
   * same 24 digits, and they are of one kind.
   */
  lemma SameNameIff(p: Put, q: Put, h: Hashes)
    requires SixtyFourDigits(h)
    ensures RefOf(p, h) == RefOf(q, h) <==>
      && h.planId(p.planId)[..24] == h.planId(q.planId)[..24]
      && p.kind == q.kind && h.content(p.content)[..24] == h.content(q.content)[..24]
  {
    var a, b := h.planId(p.planId)[..24], h.planId(q.planId)[..24];
    var c, d := h.content(p.content)[..24], h.content(q.content)[..24];
    var k, l := KindName(p.kind), KindName(q.kind);
    KindNames(p.kind, q.kind);
    NameLayout(p, h);
    NameLayout(q, h);
    var x, y := RefOf(p, h), RefOf(q, h);
    if x == y {
      assert |k| == |l|;
      assert x[5..29] == a && y[5..29] == b;
      assert x[39..39 + |k|] == k && y[39..39 + |l|] == l;
      assert x[40 + |k|..64 + |k|] == c && y[40 + |l|..64 + |l|] == d;
      assert k[0] == l[0] && k[2] == l[2];
    }
  }

  lemma NameLayout(p: Put, h: Hashes)
    requires SixtyFourDigits(h)
    ensures var x, k := RefOf(p, h), KindName(p.kind);
      && |x| == 68 + |k|
      && x[5..29] == h.planId(p.planId)[..24] && x[39..39 + |k|] == k
      && x[40 + |k|..64 + |k|] == h.content(p.content)[..24]
  {
    var a, k, c := h.planId(p.planId)[..24], KindName(p.kind), h.content(p.content)[..24];
    assert RefOf(p, h) == "plan-" + a + "/" + ("artifact-" + k + "-" + c) + ".bin";
  }

  /** Going up undoes going down, a dot stays, and above the root directory there is nothing. */
  lemma UpUndoesDown(at: seq<string>, s: string)
    requires PlainSegment(s)
    ensures Walk(at, [s, ".."]) == at && Walk(at, ["."]) == at && Walk(at, [""]) == at && Walk([], [".."]) == []
    ensures Walk(at, [s]) == at + [s]
  {
    assert [s, ".."][1..] == [".."] && [".."][1..] == [] && ["."][1..] == [] && [""][1..] == [] && [s][1..] == [];
    assert Walk(at, [s, ".."]) == Walk(at + [s], [".."]) == Walk(Enter(at + [s], ".."), []);
    assert (at + [s])[..|at|] == at;
  }
}
