// src/cli.rs: `ryve release close`, a procedure of several steps with a hand-written
// compensation for each failure point. Git, cargo and the database are tables that a step
// updates or fails to update.
module ReleaseClose {
  import opened Prelude

  datatype Release = Release(version: string, status: string, tag: Option<string>, artifactPath: Option<string>)

  datatype Head = OnBranch(name: string) | Detached

  datatype World = World(
    release: Option<Release>,             // the row, if the id names one
    members: seq<string>,                 // its member epics
    epicStatus: map<string, string>,
    tags: set<string>,
    files: set<string>,
    head: Head)

  datatype SetStatus =
    | Written
    | NotWritten             // the update failed
    | WrittenThenUnread      // the update went through, reading the row back failed

  // What goes wrong during one attempt.
  datatype Faults = Faults(
    symbolicRef: bool,
    checkout: bool,
    targetTriple: bool,
    tagging: bool,
    build: bool,
    record: bool,
    setStatus: SetStatus,
    untag: bool,             // compensations
    unlink: bool,
    clearMetadata: bool,
    restore: bool)

  datatype Stage = Fetch | Epics | Checkout | TargetTriple | Tag | Build | Record | Status

  datatype Outcome = Closed | Died(at: Stage)

  function TagName(version: string): string { "v" + version }

  function BranchName(version: string): string { "release/" + version }

  predicate MemberMissing(w: World) {
    exists i :: 0 <= i < |w.members| && w.members[i] !in w.epicStatus
  }

  predicate AllEpicsClosed(w: World) {
    forall i :: 0 <= i < |w.members| ==> w.members[i] in w.epicStatus && w.epicStatus[w.members[i]] == "closed"
  }

  // ---- Compensations, each best-effort -----------------------------------------------------------

  function DeleteTag(w: World, tag: string, f: Faults): World {
    if f.untag then w else w.(tags := w.tags - {tag})
  }

  function RemoveFile(w: World, path: string, f: Faults): World {
    if f.unlink then w else w.(files := w.files - {path})
  }

  function ClearMetadata(w: World, f: Faults): World {
    if f.clearMetadata || w.release.None? then w
    else w.(release := Some(w.release.value.(tag := None, artifactPath := None)))
  }

  // ---- One attempt -------------------------------------------------------------------------------

  // `artifact` is the deterministic path the build stages its file at.
  function Attempt(w: World, artifact: string, f: Faults): (World, Outcome) {
    if w.release.None? then (w, Died(Fetch))
    else if !AllEpicsClosed(w) then (w, Died(Epics))
    else if f.checkout then (w, Died(Checkout))
    else AfterCheckout(w.(head := OnBranch(BranchName(w.release.value.version))), w.head, artifact, f)
  }

  function AfterCheckout(w: World, original: Head, artifact: string, f: Faults): (World, Outcome)
    requires w.release.Some?
  {
    var r := w.release.value;
    var tag := TagName(r.version);
    if f.targetTriple then (w, Died(TargetTriple))
    else if f.tagging || tag in w.tags then (w, Died(Tag))     // git refuses an existing tag
    else
      var tagged := w.(tags := w.tags + {tag});
      if f.build then (DeleteTag(tagged, tag, f), Died(Build))
      else
        var built := tagged.(files := tagged.files + {artifact});
        if f.record then (RemoveFile(DeleteTag(built, tag, f), artifact, f), Died(Record))
        else
          var recorded := built.(release := Some(r.(tag := Some(tag), artifactPath := Some(artifact))));
          LastStep(recorded, original, tag, artifact, f)
  }

  function LastStep(w: World, original: Head, tag: string, artifact: string, f: Faults): (World, Outcome)
    requires w.release.Some?
  {
    var closed := w.(release := Some(w.release.value.(status := "closed")));
    match f.setStatus
    case Written => (Restore(closed, original, f), Closed)
    case NotWritten => (Undo(w, tag, artifact, f), Died(Status))
    case WrittenThenUnread => (Undo(closed, tag, artifact, f), Died(Status))
  }

  function Undo(w: World, tag: string, artifact: string, f: Faults): World {
    RemoveFile(DeleteTag(ClearMetadata(w, f), tag, f), artifact, f)
  }

  // The branch name is known only if HEAD was on a branch and git could say so.
  function BranchToRestore(original: Head, f: Faults): Option<string> {
    if original.OnBranch? && !f.symbolicRef then Some(original.name) else None
  }

  function Restore(w: World, original: Head, f: Faults): World {
    if BranchToRestore(original, f).None? || f.restore then w else w.(head := original)
  }

  // ---- How an attempt ends -----------------------------------------------------------------------

  // What makes each stage fail, in the world the attempt starts from.
  predicate Fails(w: World, f: Faults, at: Stage) {
    match at
    case Fetch => w.release.None?
    case Epics => exists i :: 0 <= i < |w.members| && (w.members[i] !in w.epicStatus || w.epicStatus[w.members[i]] != "closed")
    case Checkout => f.checkout
    case TargetTriple => f.targetTriple
    case Tag => f.tagging || (w.release.Some? && "v" + w.release.value.version in w.tags)
    case Build => f.build
    case Record => f.record
    case Status => f.setStatus != Written
  }

  function Place(at: Stage): nat {
    match at
    case Fetch => 0
    case Epics => 1
    case Checkout => 2
    case TargetTriple => 3
    case Tag => 4
    case Build => 5
    case Record => 6
    case Status => 7
  }

  // An attempt closes the release if and only if no stage fails, and dies of the first that does.
  lemma OutcomeExactly(w: World, artifact: string, f: Faults)
    ensures var outcome := Attempt(w, artifact, f).1;
      && (outcome == Closed <==> forall at :: !Fails(w, f, at))
      && (forall at :: outcome == Died(at) <==>
            Fails(w, f, at) && forall earlier :: Place(earlier) < Place(at) ==> !Fails(w, f, earlier))
  {
    assert AllEpicsClosed(w) <==> !Fails(w, f, Epics);
    assert Fails(w, f, Checkout) == f.checkout && Fails(w, f, TargetTriple) == f.targetTriple;
    assert Fails(w, f, Build) == f.build && Fails(w, f, Record) == f.record;
    forall at ensures Attempt(w, artifact, f).1 == Died(at) <==>
                        Fails(w, f, at) && forall earlier :: Place(earlier) < Place(at) ==> !Fails(w, f, earlier)
    {
      match at
      case Fetch =>
      case Epics => assert Place(Fetch) < Place(Epics);
      case _ => DiesAfterEpics(w, artifact, f, at);
    }
    if Attempt(w, artifact, f).1 == Closed {
      forall at ensures !Fails(w, f, at) { ClosesAfterAll(w, artifact, f, at); }
    }
    if forall at :: !Fails(w, f, at) {
      assert !Fails(w, f, Fetch) && !Fails(w, f, Tag) && !Fails(w, f, Status);
    }
  }

  lemma ClosesAfterAll(w: World, artifact: string, f: Faults, at: Stage)
    requires Attempt(w, artifact, f).1 == Closed
    ensures !Fails(w, f, at)
  {
  }

  lemma DiesAfterEpics(w: World, artifact: string, f: Faults, at: Stage)
    requires Place(at) > 1
    ensures Attempt(w, artifact, f).1 == Died(at) <==>
            Fails(w, f, at) && forall earlier :: Place(earlier) < Place(at) ==> !Fails(w, f, earlier)
  {
    assert AllEpicsClosed(w) <==> !Fails(w, f, Epics);
    if Attempt(w, artifact, f).1 == Died(at) {
      forall earlier | Place(earlier) < Place(at) ensures !Fails(w, f, earlier) {
      }
    }
    if Fails(w, f, at) && forall earlier :: Place(earlier) < Place(at) ==> !Fails(w, f, earlier) {
      assert !Fails(w, f, Fetch) && !Fails(w, f, Epics);
      assert Place(at) > 2 ==> !Fails(w, f, Checkout);
      assert Place(at) > 3 ==> !Fails(w, f, TargetTriple);
      assert Place(at) > 4 ==> !Fails(w, f, Tag);
      assert Place(at) > 5 ==> !Fails(w, f, Build);
      assert Place(at) > 6 ==> !Fails(w, f, Record);
    }
  }

  // ---- All or nothing ----------------------------------------------------------------------------

  // Nothing of this release's close exists yet.
  predicate Untouched(w: World, artifact: string) {
    w.release.Some? ==>
      var r := w.release.value;
      r.status != "closed" && r.tag == None && r.artifactPath == None
      && TagName(r.version) !in w.tags && artifact !in w.files
  }

  // The four things a close produces are as they were; HEAD is not among them.
  predicate SameRelease(w: World, w': World) {
    w' == w.(head := w'.head)
  }

  // Every compensation the failing stage asks for works, and the row does not turn `closed`
  // behind the caller's back.
  predicate Compensated(at: Stage, f: Faults) {
    match at
    case Build => !f.untag
    case Record => !f.untag && !f.unlink
    case Status => !f.untag && !f.unlink && !f.clearMetadata && f.setStatus == NotWritten
    case _ => true
  }

  // A close that succeeds leaves all four products; a close that dies leaves none of them if and
  // only if it was compensated.
  lemma AllOrNothing(w: World, artifact: string, f: Faults)
    requires Untouched(w, artifact)
    ensures var (w', outcome) := Attempt(w, artifact, f);
      match outcome
      case Closed =>
        && w.release.Some? && AllEpicsClosed(w)
        && w'.release == Some(Release(w.release.value.version, "closed", Some(TagName(w.release.value.version)), Some(artifact)))
        && w'.tags == w.tags + {TagName(w.release.value.version)} && w'.files == w.files + {artifact}
      case Died(at) => SameRelease(w, w') <==> Compensated(at, f)
  {
    if w.release.Some? {
      var tag := TagName(w.release.value.version);
      assert (w.tags + {tag}) - {tag} == w.tags && (w.files + {artifact}) - {artifact} == w.files;
    }
  }

  // The half-closed release: the row reads `closed` while tag, artifact and pointers are gone.
  lemma UnreadWriteLeavesHalfClosed(w: World, artifact: string, f: Faults)
    requires Untouched(w, artifact)
    requires Attempt(w, artifact, f).1 == Died(Status) && f.setStatus == WrittenThenUnread
    requires !f.untag && !f.unlink && !f.clearMetadata
    ensures var w' := Attempt(w, artifact, f).0;
      w'.release == Some(w.release.value.(status := "closed")) && w'.tags == w.tags && w'.files == w.files
  {
    AllOrNothing(w, artifact, f);
    var tag := TagName(w.release.value.version);
    assert (w.tags + {tag}) - {tag} == w.tags && (w.files + {artifact}) - {artifact} == w.files;
  }

  // Whatever was there before and whatever fails: other releases' tags and files are untouched, a
  // tag that already existed is never deleted, and no run closes a release over an open epic.
  lemma NothingElseTouched(w: World, artifact: string, f: Faults, tag: string, file: string)
    ensures var (w', outcome) := Attempt(w, artifact, f);
      && (tag in w.tags ==> tag in w'.tags)
      && (w.release.Some? && tag != TagName(w.release.value.version) ==> (tag in w'.tags <==> tag in w.tags))
      && (file != artifact ==> (file in w'.files <==> file in w.files))
      && (w.release.Some? && TagName(w.release.value.version) in w.tags ==> outcome != Closed && SameRelease(w, w'))
      && (!AllEpicsClosed(w) ==> outcome != Closed && w' == w)
      && w'.epicStatus == w.epicStatus && w'.members == w.members
  {
  }

  // ---- Retrying ----------------------------------------------------------------------------------

  function Attempts(w: World, artifact: string, fs: seq<Faults>): World {
    if fs == [] then w else Attempt(Attempts(w, artifact, fs[..|fs| - 1]), artifact, fs[|fs| - 1]).0
  }

  // Attempt `i` of the run dies and is compensated.
  ghost predicate FailsCleanly(w: World, artifact: string, fs: seq<Faults>, i: nat)
    requires i < |fs|
  {
    var outcome := Attempt(Attempts(w, artifact, fs[..i]), artifact, fs[i]).1;
    outcome.Died? && Compensated(outcome.at, fs[i])
  }

  // Any number of clean failures leaves the release as it was, so that the next attempt without
  // faults still closes it.
  lemma {:induction false} FailuresLeaveRelease(w: World, artifact: string, fs: seq<Faults>, last: Faults)
    requires Untouched(w, artifact)
    requires forall i :: 0 <= i < |fs| ==> FailsCleanly(w, artifact, fs, i)
    ensures SameRelease(w, Attempts(w, artifact, fs))
    ensures w.release.Some? && AllEpicsClosed(w) && NoFaults(last)
            ==> Attempt(Attempts(w, artifact, fs), artifact, last).1 == Closed
  {
    if fs != [] {
      var init := fs[..|fs| - 1];
      forall i | 0 <= i < |init| ensures FailsCleanly(w, artifact, init, i) {
        assert FailsCleanly(w, artifact, fs, i);
        assert init[..i] == fs[..i];
      }
      FailuresLeaveRelease(w, artifact, init, last);
      assert FailsCleanly(w, artifact, fs, |fs| - 1);
      AllOrNothing(Attempts(w, artifact, init), artifact, fs[|fs| - 1]);
    }
  }

  predicate NoFaults(f: Faults) {
    !f.checkout && !f.targetTriple && !f.tagging && !f.build && !f.record && f.setStatus == Written
  }

  // ---- Where HEAD ends up ------------------------------------------------------------------------

  predicate PastCheckout(outcome: Outcome) {
    outcome.Died? && outcome.at !in {Fetch, Epics, Checkout}
  }

  // The original branch is put back only by a close that succeeds.
  lemma HeadAfterAttempt(w: World, artifact: string, f: Faults)
    ensures var (w', outcome) := Attempt(w, artifact, f);
      if outcome == Closed then
        w'.head == if w.head.OnBranch? && !f.symbolicRef && !f.restore then w.head
                   else OnBranch(BranchName(w.release.value.version))
      else if PastCheckout(outcome) then w'.head == OnBranch(BranchName(w.release.value.version))
      else w'.head == w.head
  {
  }

  lemma AttemptKeepsVersion(w: World, artifact: string, f: Faults)
    ensures var w' := Attempt(w, artifact, f).0;
      w'.release.Some? == w.release.Some? && (w.release.Some? ==> w'.release.value.version == w.release.value.version)
  {
  }

  // Once an attempt has died past its checkout, no later attempt, failing or not, brings HEAD back.
  lemma {:induction false} HeadStaysOnReleaseBranch(w: World, artifact: string, fs: seq<Faults>)
    requires w.release.Some? && w.head == OnBranch(BranchName(w.release.value.version))
    ensures var w' := Attempts(w, artifact, fs);
      && w'.release.Some? && w'.release.value.version == w.release.value.version
      && w'.head == w.head
  {
    if fs != [] {
      HeadStaysOnReleaseBranch(w, artifact, fs[..|fs| - 1]);
      var before := Attempts(w, artifact, fs[..|fs| - 1]);
      HeadAfterAttempt(before, artifact, fs[|fs| - 1]);
      AttemptKeepsVersion(before, artifact, fs[|fs| - 1]);
    }
  }

  // ---- The command -------------------------------------------------------------------------------

  class Repository {
    var release: Option<Release>
    var members: seq<string>
    var epicStatus: map<string, string>
    var tags: set<string>
    var files: set<string>
    var head: Head

    function Model(): World
      reads this
    {
      World(release, members, epicStatus, tags, files, head)
    }

    method UnclosedEpics() returns (missing: bool, unclosed: seq<string>)
      ensures missing <==> MemberMissing(Model())
      ensures !missing ==> (unclosed == [] <==> AllEpicsClosed(Model()))
    {
      missing, unclosed := false, [];
      for i := 0 to |members|
        invariant !missing
        invariant forall k :: 0 <= k < i ==> members[k] in epicStatus
        invariant unclosed == [] <==> forall k :: 0 <= k < i ==> members[k] in epicStatus && epicStatus[members[k]] == "closed"
      {
        var eid := members[i];
        if eid !in epicStatus {
          missing := true;
          return;
        }
        if epicStatus[eid] != "closed" {
          unclosed := unclosed + [eid];
        }
      }
    }

    method Close(artifact: string, f: Faults) returns (outcome: Outcome)
      modifies this
      ensures (Model(), outcome) == old(Attempt(Model(), artifact, f))
    {
      if release.None? {
        return Died(Fetch);
      }
      var missing, unclosed := UnclosedEpics();
      if missing || unclosed != [] {
        return Died(Epics);
      }
      var originalBranch := BranchToRestore(head, f);
      if f.checkout {
        return Died(Checkout);
      }
      head := OnBranch(BranchName(release.value.version));
      outcome := CloseOnBranch(old(head), originalBranch, artifact, f);
    }

    method CloseOnBranch(ghost original: Head, originalBranch: Option<string>, artifact: string, f: Faults) returns (outcome: Outcome)
      requires release.Some? && originalBranch == BranchToRestore(original, f)
      modifies this
      ensures (Model(), outcome) == old(AfterCheckout(Model(), original, artifact, f))
    {
      var tag := TagName(release.value.version);
      if f.targetTriple {
        return Died(TargetTriple);
      }
      if f.tagging || tag in tags {
        return Died(Tag);
      }
      tags := tags + {tag};
      if f.build {
        DeleteGitTag(tag, f);
        return Died(Build);
      }
      files := files + {artifact};
      if f.record {
        DeleteGitTag(tag, f);
        RemoveArtifact(artifact, f);
        return Died(Record);
      }
      release := Some(release.value.(tag := Some(tag), artifactPath := Some(artifact)));
      outcome := MarkClosed(original, originalBranch, tag, artifact, f);
    }

    method MarkClosed(ghost original: Head, originalBranch: Option<string>, tag: string, artifact: string, f: Faults) returns (outcome: Outcome)
      requires release.Some? && originalBranch == BranchToRestore(original, f)
      modifies this
      ensures (Model(), outcome) == old(LastStep(Model(), original, tag, artifact, f))
    {
      if f.setStatus != NotWritten {
        release := Some(release.value.(status := "closed"));
      }
      if f.setStatus != Written {
        if !f.clearMetadata {
          release := Some(release.value.(tag := None, artifactPath := None));
        }
        DeleteGitTag(tag, f);
        RemoveArtifact(artifact, f);
        return Died(Status);
      }
      if originalBranch.Some? && !f.restore {
        head := OnBranch(originalBranch.value);
      }
      return Closed;
    }

    method DeleteGitTag(tag: string, f: Faults)
      modifies this`tags
      ensures tags == if f.untag then old(tags) else old(tags) - {tag}
    {
      if !f.untag {
        tags := tags - {tag};
      }
    }

    method RemoveArtifact(path: string, f: Faults)
      modifies this`files
      ensures files == if f.unlink then old(files) else old(files) - {path}
    {
      if !f.unlink {
        files := files - {path};
      }
    }
  }
}
