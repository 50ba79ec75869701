/**
 * Concurrent puts. Creating a file exclusively, writing it and reading it back are separate steps,
 * which any number of puts can interleave; a writer can also die half-way.
 */
module ArtifactRaces {
  import opened ArtifactStore

  /** Where one put stands: `written` bytes of its file are on disk while it writes. */
  datatype Stage = Waiting | Writing(written: nat) | Reading | Returned | Thrown

  datatype System = System(files: Files, stages: seq<Stage>)

  /** The next thing the put number `who` does. */
  datatype Step =
    | Open(who: nat)
    | Write(who: nat, upTo: nat)
    | Close(who: nat)
    | Die(who: nat)
    | Compare(who: nat)

  /** One step; a step that is not possible changes nothing. */
  function Next(s: System, puts: seq<Put>, h: Hashes, step: Step): System
    requires |s.stages| == |puts|
  {
    var i := step.who;
    if i >= |puts| then s
    else
      var ref, content := RefOf(puts[i], h), puts[i].content;
      match (step, s.stages[i])
      case (Open(_), Waiting) =>
        if ref in s.files then s.(stages := s.stages[i := Reading])
        else System(s.files[ref := []], s.stages[i := Writing(0)])
      case (Write(_, upTo), Writing(n)) =>
        if n < upTo <= |content| then System(s.files[ref := content[..upTo]], s.stages[i := Writing(upTo)]) else s
      case (Close(_), Writing(n)) =>
        if n == |content| then s.(stages := s.stages[i := Returned]) else s
      case (Die(_), Writing(_)) => s.(stages := s.stages[i := Thrown])
      case (Compare(_), Reading) =>
        if ref in s.files && h.content(s.files[ref]) == h.content(content) then s.(stages := s.stages[i := Returned])
        else s.(stages := s.stages[i := Thrown])
      case _ => s
  }

  function Run(s: System, puts: seq<Put>, h: Hashes, steps: seq<Step>): (r: System)
    requires |s.stages| == |puts|
    ensures |r.stages| == |puts|
  {
    if steps == [] then s else Next(Run(s, puts, h, steps[..|steps| - 1]), puts, h, steps[|steps| - 1])
  }

  // ----- what every interleaving keeps -----

  /** A writer's file holds what it has written, and no file has two writers. */
  predicate WritersApart(s: System, puts: seq<Put>, h: Hashes)
    requires |s.stages| == |puts|
  {
    (forall i :: 0 <= i < |puts| && s.stages[i].Writing? ==>
      && RefOf(puts[i], h) in s.files && s.stages[i].written <= |puts[i].content|
      && s.files[RefOf(puts[i], h)] == puts[i].content[..s.stages[i].written])
    && (forall i, j :: 0 <= i < |puts| && 0 <= j < |puts| && i != j && s.stages[i].Writing? && s.stages[j].Writing? ==>
      RefOf(puts[i], h) != RefOf(puts[j], h))
  }

  /** What every put that has returned can rely on: its own bytes under its name. */
  predicate ReturnedHold(s: System, puts: seq<Put>, h: Hashes)
    requires |s.stages| == |puts|
  {
    forall i :: 0 <= i < |puts| && s.stages[i].Returned? ==>
      RefOf(puts[i], h) in s.files && s.files[RefOf(puts[i], h)] == puts[i].content
  }

  predicate Start(s: System, puts: seq<Put>) {
    |s.stages| == |puts| && forall i :: 0 <= i < |puts| ==> s.stages[i].Waiting?
  }

  predicate Begins(short: Bytes, long: Bytes) {
    |short| < |long| && long[..|short|] == short
  }

  /** No put's content is the beginning of a longer one with the same name, 24 digits of the hash and all. */
  predicate NoneBegins(puts: seq<Put>, h: Hashes) {
    forall i, j :: 0 <= i < |puts| && 0 <= j < |puts| && RefOf(puts[i], h) == RefOf(puts[j], h) ==>
      !Begins(puts[i].content, puts[j].content)
  }

  ghost predicate NoCollisions(puts: seq<Put>, h: Hashes) {
    forall i :: 0 <= i < |puts| ==> NoCollision(puts[i].content, h)
  }

  lemma StepKeepsWriters(s: System, puts: seq<Put>, h: Hashes, step: Step)
    requires |s.stages| == |puts| && WritersApart(s, puts, h)
    ensures WritersApart(Next(s, puts, h, step), puts, h)
    ensures forall ref :: ref in s.files ==> ref in Next(s, puts, h, step).files
  {
    hide RefOf;
  }

  /** A step changes only the file of its own put, and only while that put is writing. */
  lemma StepChangesOwnFile(s: System, puts: seq<Put>, h: Hashes, step: Step, ref: string)
    requires |s.stages| == |puts| && ref in s.files
    ensures var t := Next(s, puts, h, step);
      && ref in t.files
      && (t.files[ref] != s.files[ref] ==>
        && step.Write? && step.who < |puts| && s.stages[step.who].Writing? && RefOf(puts[step.who], h) == ref
        && s.stages[step.who].written < |puts[step.who].content|)
  {
    hide RefOf;
  }

  lemma StepKeepsReturned(s: System, puts: seq<Put>, h: Hashes, step: Step)
    requires |s.stages| == |puts| && WritersApart(s, puts, h) && ReturnedHold(s, puts, h)
    requires NoneBegins(puts, h) && NoCollisions(puts, h)
    ensures ReturnedHold(Next(s, puts, h, step), puts, h)
  {
    hide RefOf;
    var t := Next(s, puts, h, step);
    StepKeepsWriters(s, puts, h, step);
    forall i | 0 <= i < |puts| && t.stages[i].Returned?
      ensures RefOf(puts[i], h) in t.files && t.files[RefOf(puts[i], h)] == puts[i].content
    {
      var ref := RefOf(puts[i], h);
      if s.stages[i].Returned? {
        StepChangesOwnFile(s, puts, h, step, ref);
        assert t.files[ref] != s.files[ref] ==> Begins(puts[i].content, puts[step.who].content);
      } else {
        JustReturned(s, puts, h, step, i);
      }
    }
  }

  lemma JustReturned(s: System, puts: seq<Put>, h: Hashes, step: Step, i: nat)
    requires |s.stages| == |puts| && WritersApart(s, puts, h) && i < |puts| && NoCollision(puts[i].content, h)
    requires !s.stages[i].Returned? && Next(s, puts, h, step).stages[i].Returned?
    ensures var t := Next(s, puts, h, step);
      RefOf(puts[i], h) in t.files && t.files[RefOf(puts[i], h)] == puts[i].content
  {
    hide RefOf;
  }

  /**
   * Through every interleaving of any number of puts, of writers dying included: whatever has
   * returned its record has exactly its bytes under its name, and keeps them.
   */
  lemma {:induction false} EveryInterleavingIsSafe(s: System, puts: seq<Put>, h: Hashes, steps: seq<Step>)
    requires Start(s, puts) && NoneBegins(puts, h) && NoCollisions(puts, h)
    ensures WritersApart(Run(s, puts, h, steps), puts, h) && ReturnedHold(Run(s, puts, h, steps), puts, h)
  {
    hide RefOf, WritersApart, ReturnedHold, Next;
    if steps == [] {
      StartIsSafe(s, puts, h);
    } else {
      var n := |steps| - 1;
      EveryInterleavingIsSafe(s, puts, h, steps[..n]);
      StepKeepsWriters(Run(s, puts, h, steps[..n]), puts, h, steps[n]);
      StepKeepsReturned(Run(s, puts, h, steps[..n]), puts, h, steps[n]);
    }
  }

  lemma StartIsSafe(s: System, puts: seq<Put>, h: Hashes)
    requires Start(s, puts)
    ensures WritersApart(s, puts, h) && ReturnedHold(s, puts, h)
  {
  }

  lemma ReturnedCanBeFetched(root: seq<string>, s: System, puts: seq<Put>, h: Hashes, steps: seq<Step>, i: nat)
    requires Start(s, puts) && NoneBegins(puts, h) && NoCollisions(puts, h) && i < |puts|
    requires root != [] && Run(s, puts, h, steps).stages[i].Returned?
    ensures var f, a := Run(s, puts, h, steps).files, Record(puts[i], h);
      Serves(root, f, puts[i].planId, a, h) && Served(root, f, puts[i].planId, a, h) == puts[i].content
  {
    hide ArtifactId, PlanStorageKey, Run, Resolve;
    EveryInterleavingIsSafe(s, puts, h, steps);
    PutResolves(root, puts[i], h);
    var prefix := PlanStorageKey(puts[i].planId, h) + "/";
    assert RefOf(puts[i], h) == prefix + (ArtifactId(puts[i].kind, puts[i].content, h) + ".bin");
  }

  // ----- what the hypotheses exclude is real -----

  /**
   * A put of the shorter content returns on the unfinished file of the longer one, and loses its
   * bytes when that is finished.
   */
  lemma BeginningIsOverwritten(s: System, puts: seq<Put>, h: Hashes, short: nat, long: nat)
    returns (steps: seq<Step>)
    requires Start(s, puts) && short < |puts| && long < |puts|
    requires RefOf(puts[long], h) == RefOf(puts[short], h) && RefOf(puts[long], h) !in s.files
    requires Begins(puts[short].content, puts[long].content)
    ensures var r := Run(s, puts, h, steps);
      && r.stages[short].Returned? && RefOf(puts[short], h) in r.files
      && r.files[RefOf(puts[short], h)] == puts[long].content
  {
    hide RefOf;
    var n, all := |puts[short].content|, |puts[long].content|;
    steps := [Open(long), Write(long, n), Open(short), Compare(short), Write(long, all)];
    RunsOn(s, puts, h, [], Open(long));
    RunsOn(s, puts, h, steps[..1], Write(long, n));
    RunsOn(s, puts, h, steps[..2], Open(short));
    RunsOn(s, puts, h, steps[..3], Compare(short));
    RunsOn(s, puts, h, steps[..4], Write(long, all));
    assert steps[..1] == [] + [Open(long)] && steps[..2] == steps[..1] + [Write(long, n)];
    assert steps[..3] == steps[..2] + [Open(short)] && steps[..4] == steps[..3] + [Compare(short)];
    assert steps == steps[..4] + [Write(long, all)];
    assert puts[long].content[..all] == puts[long].content;
  }

  /** The exact condition: every interleaving keeps what has returned iff no content begins another of its name. */
  lemma SafeIffNoneBegins(puts: seq<Put>, h: Hashes, s: System)
    requires Start(s, puts) && s.files == map[] && NoCollisions(puts, h)
    ensures (forall steps :: ReturnedHold(Run(s, puts, h, steps), puts, h)) <==> NoneBegins(puts, h)
  {
    hide RefOf, Run, Next;
    if NoneBegins(puts, h) {
      forall steps ensures ReturnedHold(Run(s, puts, h, steps), puts, h) {
        EveryInterleavingIsSafe(s, puts, h, steps);
      }
    } else {
      var i, j :| 0 <= i < |puts| && 0 <= j < |puts| && RefOf(puts[i], h) == RefOf(puts[j], h)
        && Begins(puts[i].content, puts[j].content);
      var steps := BeginningIsOverwritten(s, puts, h, i, j);
      assert !ReturnedHold(Run(s, puts, h, steps), puts, h);
    }
  }

  lemma RunsOn(s: System, puts: seq<Put>, h: Hashes, steps: seq<Step>, step: Step)
    requires |s.stages| == |puts|
    ensures Run(s, puts, h, steps + [step]) == Next(Run(s, puts, h, steps), puts, h, step)
  {
    assert (steps + [step])[..|steps|] == steps;
  }

  /** Two puts of one content can still disturb each other: the second can throw on the first's unfinished file. */
  lemma TwinCanThrow(p: Put, h: Hashes) returns (steps: seq<Step>)
    requires p.content != [] && NoCollision(p.content, h)
    ensures var r := Run(System(map[], [Waiting, Waiting]), [p, p], h, steps);
      r.stages == [Returned, Thrown] && RefOf(p, h) in r.files && r.files[RefOf(p, h)] == p.content
  {
    hide RefOf;
    var puts, s, n := [p, p], System(map[], [Waiting, Waiting]), |p.content|;
    steps := [Open(0), Open(1), Compare(1), Write(0, n), Close(0)];
    RunsOn(s, puts, h, [], Open(0));
    RunsOn(s, puts, h, steps[..1], Open(1));
    RunsOn(s, puts, h, steps[..2], Compare(1));
    RunsOn(s, puts, h, steps[..3], Write(0, n));
    RunsOn(s, puts, h, steps[..4], Close(0));
    assert steps[..1] == [] + [Open(0)] && steps[..2] == steps[..1] + [Open(1)];
    assert steps[..3] == steps[..2] + [Compare(1)] && steps[..4] == steps[..3] + [Write(0, n)];
    assert steps == steps[..4] + [Close(0)];
    assert p.content[..n] == p.content;
  }

  // ----- when no put throws -----

  predicate NoDeath(steps: seq<Step>) {
    forall k :: 0 <= k < |steps| ==> !steps[k].Die?
  }

  predicate NoneThrown(s: System) {
    forall i :: 0 <= i < |s.stages| ==> !s.stages[i].Thrown?
  }

  /** Two puts share a name only if both contents are empty. */
  predicate OwnNames(puts: seq<Put>, h: Hashes) {
    forall i, j :: 0 <= i < |puts| && 0 <= j < |puts| && i != j && RefOf(puts[i], h) == RefOf(puts[j], h) ==>
      puts[i].content == puts[j].content == []
  }

  /** No put has thrown, and one that finds its name taken finds what it would write. */
  predicate Calm(s: System, puts: seq<Put>, h: Hashes)
    requires |s.stages| == |puts|
  {
    forall i :: 0 <= i < |puts| ==>
      && !s.stages[i].Thrown?
      && (s.stages[i].Reading? ==> RefOf(puts[i], h) in s.files)
      && ((s.stages[i].Waiting? || s.stages[i].Reading?) && RefOf(puts[i], h) in s.files ==>
            puts[i].content == [] && s.files[RefOf(puts[i], h)] == [])
  }

  lemma StepKeepsCalm(s: System, puts: seq<Put>, h: Hashes, step: Step)
    requires |s.stages| == |puts| && OwnNames(puts, h) && Calm(s, puts, h) && !step.Die?
    ensures Calm(Next(s, puts, h, step), puts, h)
  {
    hide RefOf;
  }

  lemma {:induction false} RunKeepsCalm(s: System, puts: seq<Put>, h: Hashes, steps: seq<Step>)
    requires Start(s, puts) && s.files == map[] && OwnNames(puts, h) && NoDeath(steps)
    ensures Calm(Run(s, puts, h, steps), puts, h)
  {
    hide RefOf, Next;
    if steps == [] {
    } else {
      var n := |steps| - 1;
      RunKeepsCalm(s, puts, h, steps[..n]);
      StepKeepsCalm(Run(s, puts, h, steps[..n]), puts, h, steps[n]);
    }
  }

  /** The second put to open a shared name reads an empty file, and throws if its content is not empty. */
  lemma SharedNameThrows(s: System, puts: seq<Put>, h: Hashes, i: nat, j: nat) returns (steps: seq<Step>)
    requires Start(s, puts) && s.files == map[] && i < |puts| && j < |puts| && i != j
    requires RefOf(puts[i], h) == RefOf(puts[j], h) && puts[j].content != [] && NoCollision(puts[j].content, h)
    ensures NoDeath(steps) && Run(s, puts, h, steps).stages[j].Thrown?
  {
    hide RefOf;
    steps := [Open(i), Open(j), Compare(j)];
    RunsOn(s, puts, h, [], Open(i));
    RunsOn(s, puts, h, [Open(i)], Open(j));
    RunsOn(s, puts, h, [Open(i), Open(j)], Compare(j));
    assert [] + [Open(i)] == [Open(i)] && [Open(i)] + [Open(j)] == [Open(i), Open(j)];
    assert steps == [Open(i), Open(j)] + [Compare(j)];
  }

  /**
   * The exact condition: as long as no writer dies, no put ever throws in any interleaving iff puts
   * that share a name write nothing. Two puts of one content are safe only if it is empty.
   */
  lemma NoneThrownIffOwnNames(puts: seq<Put>, h: Hashes, s: System)
    requires Start(s, puts) && s.files == map[] && NoCollisions(puts, h)
    ensures (forall steps :: NoDeath(steps) ==> NoneThrown(Run(s, puts, h, steps))) <==> OwnNames(puts, h)
  {
    hide RefOf, Run, Next;
    if OwnNames(puts, h) {
      forall steps | NoDeath(steps)
        ensures NoneThrown(Run(s, puts, h, steps))
      {
        RunKeepsCalm(s, puts, h, steps);
      }
    } else {
      var i, j :| 0 <= i < |puts| && 0 <= j < |puts| && i != j && RefOf(puts[i], h) == RefOf(puts[j], h)
        && !(puts[i].content == puts[j].content == []);
      var first, second := if puts[j].content != [] then i else j, if puts[j].content != [] then j else i;
      var steps := SharedNameThrows(s, puts, h, first, second);
      assert !NoneThrown(Run(s, puts, h, steps));
    }
  }
}
