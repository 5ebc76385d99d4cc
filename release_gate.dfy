/**
 * The main part of prep_for_release.py: read the declared version and the
 * last version tag (either failing ends the run), then run four checks in a
 * fixed order, collecting each one's verdict in `all_checks` and its
 * warnings in the transcript, and stop with an error unless all passed.
 * The repository and the replies of git are inputs.
 */
module ReleaseGate {
  import opened Text
  import opened Outcomes
  import opened LooseVersions
  import VersionSource
  import TagSource
  import ReleaseNotes
  import LicenseHeaders
  import WorkingTree

  /** What the script reads: two files, two git replies and the directory tree under the home directory. */
  datatype Repository = Repository(
    initFile: FileRead,     // easybuild/__init__.py
    tags: GitReply,         // git tag -l
    releaseNotes: FileRead, // RELEASE_NOTES
    tree: LicenseHeaders.Listing,
    status: GitReply)       // git status

  /** How the run ends: it lets the release go ahead, or `error(...)` ends it. */
  datatype Exit = Released | Stopped(error: FatalError)

  /** The verdicts gathered in `all_checks`, the warnings written, and the ending. */
  datatype Run = Run(checks: seq<bool>, warnings: seq<Warning>, exit: Exit)

  /**
   * check_version (lines 97-109): `==` on two LooseVersions compares their
   * number lists, so "1.4" and "1..4" are the same version.
   */
  function CheckVersion(declared: Version, tag: Version): (r: CheckReport)
    ensures r.passed <==> declared.parts == tag.parts
    ensures r.passed ==> r.warnings == []
    ensures !r.passed ==> r.warnings == [VersionMismatch(declared.text, tag.text)]
  {
    CmpZeroIffEqual(declared.parts, tag.parts);
    if Cmp(declared.parts, tag.parts) == 0 then CheckReport(true, [])
    else CheckReport(false, [VersionMismatch(declared.text, tag.text)])
  }

  /** The license check with the verdict it evidently intends: no warning written. */
  function LicenseCheck(tree: LicenseHeaders.Listing): Result<CheckReport> {
    var scan := LicenseHeaders.ScanListing([], tree);
    LicenseHeaders.Report(scan, scan.Ok? && scan.value == [])
  }

  /** The four checks, in the order the script runs them; release notes are looked up for the larger version. */
  function Stages(repo: Repository, declared: Version, tag: Version): seq<Result<CheckReport>> {
    [Ok(CheckVersion(declared, tag)),
     ReleaseNotes.CheckReleaseNotes(repo.releaseNotes, Max(declared, tag)),
     LicenseCheck(repo.tree),
     WorkingTree.StatusCheck(repo.status)]
  }

  /**
   * Running the remaining checks after `checks` and `warnings`: a fatal
   * error ends the run at once, and after the last check `not
   * all(all_checks)` decides.
   */
  function Finish(steps: seq<Result<CheckReport>>, checks: seq<bool>, warnings: seq<Warning>): Run
    decreases |steps|
  {
    if steps == [] then
      Run(checks, warnings, if false in checks then Stopped(NotReadyForRelease) else Released)
    else
      match steps[0]
      case Fatal(e) => Run(checks, warnings, Stopped(e))
      case Ok(c) => Finish(steps[1..], checks + [c.passed], warnings + c.warnings)
  }

  /** The whole run (lines 202-229). */
  function Gate(repo: Repository): Run {
    match VersionSource.DeclaredVersion(repo.initFile)
    case Fatal(e) => Run([], [], Stopped(e))
    case Ok(declared) =>
      match TagSource.LastVersionTag(repo.tags)
      case Fatal(e) => Run([], [], Stopped(e))
      case Ok(tag) => Finish(Stages(repo, declared, tag), [], [])
  }

  lemma FinishStep(steps: seq<Result<CheckReport>>, k: nat, checks: seq<bool>, warnings: seq<Warning>)
    requires k < |steps| && steps[k].Ok?
    ensures Finish(steps[k..], checks, warnings) ==
      Finish(steps[k + 1..], checks + [steps[k].value.passed], warnings + steps[k].value.warnings)
  {
    assert steps[k..][0] == steps[k];
    assert steps[k..][1..] == steps[k + 1..];
  }

  lemma FinishFatal(steps: seq<Result<CheckReport>>, k: nat, checks: seq<bool>, warnings: seq<Warning>)
    requires k < |steps| && steps[k].Fatal?
    ensures Finish(steps[k..], checks, warnings) == Run(checks, warnings, Stopped(steps[k].error))
  {
    assert steps[k..][0] == steps[k];
  }

  /**
   * The script's main part, step by step: each check's verdict is appended
   * to `all_checks`, a fatal error stops the run where it happens.
   */
  method RunReleaseChecks(repo: Repository) returns (run: Run)
    ensures run == Gate(repo)
  {
    var declared := VersionSource.DeclaredVersion(repo.initFile);
    if declared.Fatal? {
      return Run([], [], Stopped(declared.error));
    }
    var tag := TagSource.LastVersionTag(repo.tags);
    if tag.Fatal? {
      return Run([], [], Stopped(tag.error));
    }
    run := RunChecks(repo, declared.value, tag.value);
  }

  /** The four checks after both versions are known (lines 207-229). */
  method RunChecks(repo: Repository, declared: Version, tag: Version) returns (run: Run)
    ensures run == Finish(Stages(repo, declared, tag), [], [])
  {
    ghost var stages := Stages(repo, declared, tag);
    assert stages[0..] == stages;
    var allChecks: seq<bool> := [];
    var warnings: seq<Warning> := [];

    var version := CheckVersion(declared, tag);
    FinishStep(stages, 0, allChecks, warnings);
    allChecks := allChecks + [version.passed];
    warnings := warnings + version.warnings;

    var notes := ReleaseNotes.CheckReleaseNotes(repo.releaseNotes, Max(declared, tag));
    if notes.Fatal? {
      FinishFatal(stages, 1, allChecks, warnings);
      return Run(allChecks, warnings, Stopped(notes.error));
    }
    FinishStep(stages, 1, allChecks, warnings);
    allChecks := allChecks + [notes.value.passed];
    warnings := warnings + notes.value.warnings;

    var licenses := LicenseHeaders.CheckLicenseHeaders([], repo.tree);
    assert licenses == LicenseCheck(repo.tree);
    if licenses.Fatal? {
      FinishFatal(stages, 2, allChecks, warnings);
      return Run(allChecks, warnings, Stopped(licenses.error));
    }
    FinishStep(stages, 2, allChecks, warnings);
    allChecks := allChecks + [licenses.value.passed];
    warnings := warnings + licenses.value.warnings;

    var status := WorkingTree.CheckCleanMasterBranch(repo.status);
    if status.Fatal? {
      FinishFatal(stages, 3, allChecks, warnings);
      return Run(allChecks, warnings, Stopped(status.error));
    }
    FinishStep(stages, 3, allChecks, warnings);
    allChecks := allChecks + [status.value.passed];
    warnings := warnings + status.value.warnings;

    assert stages[4..] == [];
    if false in allChecks {
      return Run(allChecks, warnings, Stopped(NotReadyForRelease));
    }
    return Run(allChecks, warnings, Released);
  }

  // ------------------------------------------------------------ meaning

  predicate Passes(r: Result<CheckReport>) {
    r.Ok? && r.value.passed
  }

  /** A check passes exactly when it writes no warning, and no check fails as "not ready". */
  predicate Consistent(r: Result<CheckReport>) {
    (r.Ok? ==> (r.value.passed <==> r.value.warnings == [])) &&
    (r.Fatal? ==> r.error != NotReadyForRelease)
  }

  /**
   * The remaining checks release exactly when every one of them and every
   * earlier one passed; "not ready" means they all ran and some warning was
   * written.
   */
  lemma {:induction false} FinishVerdict(steps: seq<Result<CheckReport>>, checks: seq<bool>, warnings: seq<Warning>)
    requires forall i | 0 <= i < |steps| :: Consistent(steps[i])
    requires false !in checks <==> warnings == []
    ensures Finish(steps, checks, warnings).exit == Released <==>
      false !in checks && forall i | 0 <= i < |steps| :: Passes(steps[i])
    ensures Finish(steps, checks, warnings).exit == Released ==> Finish(steps, checks, warnings).warnings == []
    ensures Finish(steps, checks, warnings).exit == Stopped(NotReadyForRelease) <==>
      (forall i | 0 <= i < |steps| :: steps[i].Ok?) && Finish(steps, checks, warnings).warnings != []
    ensures (forall i | 0 <= i < |steps| :: steps[i].Ok?) ==>
      |Finish(steps, checks, warnings).checks| == |checks| + |steps|
    ensures (forall i | 0 <= i < |steps| :: steps[i].Ok?) ==>
      Finish(steps, checks, warnings).exit == Released || Finish(steps, checks, warnings).exit == Stopped(NotReadyForRelease)
    decreases |steps|
  {
    if steps != [] {
      match steps[0] {
        case Fatal(e) =>
        case Ok(c) =>
          var tail := steps[1..];
          var checks' := checks + [c.passed];
          var warnings' := warnings + c.warnings;
          assert forall i | 0 <= i < |tail| :: tail[i] == steps[i + 1];
          assert false !in checks' <==> warnings' == [];
          FinishVerdict(tail, checks', warnings');
          assert (forall i | 0 <= i < |steps| :: Passes(steps[i])) <==>
            c.passed && forall i | 0 <= i < |tail| :: Passes(tail[i]);
          assert (forall i | 0 <= i < |steps| :: steps[i].Ok?) <==> forall i | 0 <= i < |tail| :: tail[i].Ok?;
      }
    }
  }

  /** The verdicts and warnings gathered before are kept. */
  lemma {:induction false} FinishKeeps(steps: seq<Result<CheckReport>>, checks: seq<bool>, warnings: seq<Warning>)
    ensures checks <= Finish(steps, checks, warnings).checks
    ensures warnings <= Finish(steps, checks, warnings).warnings
    decreases |steps|
  {
    if steps != [] && steps[0].Ok? {
      var c := steps[0].value;
      FinishKeeps(steps[1..], checks + [c.passed], warnings + c.warnings);
      assert checks <= checks + [c.passed];
      assert warnings <= warnings + c.warnings;
    }
  }

  /** A fatal error ends the run at the first check that meets one, after the verdicts of those before it. */
  lemma {:induction false} FinishStopsAtFirstFatal(steps: seq<Result<CheckReport>>, checks: seq<bool>, warnings: seq<Warning>, i: nat)
    requires i < |steps| && steps[i].Fatal?
    ensures exists k | 0 <= k <= i ::
      steps[k].Fatal? && (forall j | 0 <= j < k :: steps[j].Ok?) &&
      Finish(steps, checks, warnings).exit == Stopped(steps[k].error) &&
      |Finish(steps, checks, warnings).checks| == |checks| + k
    decreases |steps|
  {
    if steps[0].Ok? {
      var c := steps[0].value;
      var tail := steps[1..];
      assert tail[i - 1] == steps[i];
      FinishStopsAtFirstFatal(tail, checks + [c.passed], warnings + c.warnings, i - 1);
      var k :| 0 <= k <= i - 1 &&
        tail[k].Fatal? && (forall j | 0 <= j < k :: tail[j].Ok?) &&
        Finish(tail, checks + [c.passed], warnings + c.warnings).exit == Stopped(tail[k].error) &&
        |Finish(tail, checks + [c.passed], warnings + c.warnings).checks| == |checks| + 1 + k;
      assert steps[k + 1] == tail[k];
      assert forall j | 0 <= j < k + 1 :: steps[j].Ok? by {
        forall j | 0 <= j < k + 1 ensures steps[j].Ok? {
          if j > 0 {
            assert steps[j] == tail[j - 1];
          }
        }
      }
    }
  }

  // ------------------------------------------------------ the whole run

  /**
   * Four checks in a row: the run releases exactly when all pass and then
   * wrote no warning; when none is fatal all four verdicts are gathered and
   * the run stops as not ready exactly when a warning was written; a fatal
   * check ends the run with its own error.
   */
  lemma FinishFour(s0: Result<CheckReport>, s1: Result<CheckReport>, s2: Result<CheckReport>, s3: Result<CheckReport>)
    requires Consistent(s0) && Consistent(s1) && Consistent(s2) && Consistent(s3)
    ensures Finish([s0, s1, s2, s3], [], []).exit == Released <==>
      Passes(s0) && Passes(s1) && Passes(s2) && Passes(s3)
    ensures Finish([s0, s1, s2, s3], [], []).exit == Released ==> Finish([s0, s1, s2, s3], [], []).warnings == []
    ensures s0.Ok? && s1.Ok? && s2.Ok? && s3.Ok? ==>
      var run := Finish([s0, s1, s2, s3], [], []);
      |run.checks| == 4 && run.exit == (if run.warnings == [] then Released else Stopped(NotReadyForRelease))
    ensures !(s0.Ok? && s1.Ok? && s2.Ok? && s3.Ok?) ==>
      Finish([s0, s1, s2, s3], [], []).exit.Stopped? &&
      Finish([s0, s1, s2, s3], [], []).exit.error != NotReadyForRelease
    ensures s0.Ok? ==>
      var run := Finish([s0, s1, s2, s3], [], []);
      |run.checks| >= 1 && run.checks[0] == s0.value.passed && s0.value.warnings <= run.warnings
  {
    var st := [s0, s1, s2, s3];
    FinishVerdict(st, [], []);
    assert st[0] == s0 && st[1] == s1 && st[2] == s2 && st[3] == s3;
    if s0.Ok? && s1.Ok? && s2.Ok? && s3.Ok? {
      forall i | 0 <= i < 4 ensures st[i].Ok? {
        assert i == 0 || i == 1 || i == 2 || i == 3;
      }
    } else {
      var i :| 0 <= i < 4 && st[i].Fatal?;
      FinishStopsAtFirstFatal(st, [], [], i);
    }
    if Passes(s0) && Passes(s1) && Passes(s2) && Passes(s3) {
      forall i | 0 <= i < 4 ensures Passes(st[i]) {
        assert i == 0 || i == 1 || i == 2 || i == 3;
      }
    }
    if s0.Ok? {
      var c := s0.value;
      assert Finish(st, [], []) == Finish(st[1..], [] + [c.passed], [] + c.warnings);
      FinishKeeps(st[1..], [] + [c.passed], [] + c.warnings);
      assert [] + [c.passed] == [c.passed];
      assert [] + c.warnings == c.warnings;
    }
  }

  /** The release-notes check fails only when the file cannot be read. */
  lemma NotesCheckMeaning(notes: FileRead, v: Version)
    ensures ReleaseNotes.CheckReleaseNotes(notes, v).Fatal? <==> notes.ReadFailed?
    ensures Consistent(ReleaseNotes.CheckReleaseNotes(notes, v))
    ensures Passes(ReleaseNotes.CheckReleaseNotes(notes, v)) <==> NotesFound(notes, v)
  {
  }

  /** The notes can be read and hold an entry for `v`. */
  ghost predicate NotesFound(notes: FileRead, v: Version) {
    notes.Read? && exists p | 0 <= p <= |notes.text| :: ReleaseNotes.EntryLineAt(notes.text, p, v.text)
  }

  /** The walk is not blocked and reaches no code file without a header. */
  ghost predicate HeadersPresent(tree: LicenseHeaders.Listing) {
    !LicenseHeaders.BlockedListing(tree) && tree.Listed? &&
    forall q :: !LicenseHeaders.OffendingIn([], tree.entries, q)
  }

  /** `git status` answered and shows both lines. */
  predicate OnCleanMaster(status: GitReply) {
    status.Output? && WorkingTree.MasterLine in Split(status.text, '\n') &&
    WorkingTree.CleanLine in Split(status.text, '\n')
  }

  /** The license check fails only when the walk is blocked, and passes exactly when no code file lacks a header. */
  lemma LicenseCheckMeaning(tree: LicenseHeaders.Listing)
    ensures LicenseCheck(tree).Fatal? <==> LicenseHeaders.BlockedListing(tree)
    ensures Consistent(LicenseCheck(tree))
    ensures Passes(LicenseCheck(tree)) <==> HeadersPresent(tree)
  {
    LicenseHeaders.ScanListingMeaning([], tree);
    var scan := LicenseHeaders.ScanListing([], tree);
    if scan.Ok? {
      var ws := scan.value;
      if ws != [] {
        var w := ws[0];
        assert w.MissingHeader?;
        assert MissingHeader(w.path) in ws;
        assert LicenseHeaders.OffendingIn([], tree.entries, w.path);
      } else {
        forall q ensures !LicenseHeaders.OffendingIn([], tree.entries, q) {
          assert MissingHeader(q) !in ws;
        }
      }
    }
  }

  /** The status check fails only when git does, and passes exactly when both lines are there. */
  lemma StatusCheckMeaning(status: GitReply)
    ensures WorkingTree.StatusCheck(status).Fatal? <==> status.CommandFailed?
    ensures Consistent(WorkingTree.StatusCheck(status))
    ensures Passes(WorkingTree.StatusCheck(status)) <==> OnCleanMaster(status)
  {
    if status.Output? {
      WorkingTree.StatusReportMeaning(status.text);
    }
  }

  /** The checks after the versions can all be run: the notes, the tree and git can be read. */
  ghost predicate ChecksRun(repo: Repository) {
    repo.releaseNotes.Read? && !LicenseHeaders.BlockedListing(repo.tree) && repo.status.Output?
  }

  /** Ready for release with these two versions. */
  ghost predicate ReadyWith(repo: Repository, declared: Version, tag: Version) {
    declared.parts == tag.parts && NotesFound(repo.releaseNotes, Max(declared, tag)) &&
    HeadersPresent(repo.tree) && OnCleanMaster(repo.status)
  }

  /** What the four checks make of a repository once both versions are known. */
  lemma ChecksMeaning(repo: Repository, declared: Version, tag: Version)
    ensures var run := Finish(Stages(repo, declared, tag), [], []);
      (run.exit == Released <==> ReadyWith(repo, declared, tag)) &&
      (run.exit == Released ==> run.warnings == []) &&
      (ChecksRun(repo) ==>
        |run.checks| == 4 && run.exit == (if run.warnings == [] then Released else Stopped(NotReadyForRelease))) &&
      (!ChecksRun(repo) ==> run.exit.Stopped? && run.exit.error != NotReadyForRelease) &&
      (|run.checks| >= 1 && run.checks[0] == (declared.parts == tag.parts)) &&
      (declared.parts != tag.parts ==> VersionMismatch(declared.text, tag.text) in run.warnings)
  {
    var s0 := Ok(CheckVersion(declared, tag));
    var s1 := ReleaseNotes.CheckReleaseNotes(repo.releaseNotes, Max(declared, tag));
    var s2 := LicenseCheck(repo.tree);
    var s3 := WorkingTree.StatusCheck(repo.status);
    assert Stages(repo, declared, tag) == [s0, s1, s2, s3];
    NotesCheckMeaning(repo.releaseNotes, Max(declared, tag));
    LicenseCheckMeaning(repo.tree);
    StatusCheckMeaning(repo.status);
    FinishFour(s0, s1, s2, s3);
    if declared.parts != tag.parts {
      var ws := Finish([s0, s1, s2, s3], [], []).warnings;
      assert s0.value.warnings == [VersionMismatch(declared.text, tag.text)];
      assert ws[0] == VersionMismatch(declared.text, tag.text);
    }
  }

  /** Every input the script reads can be read and holds what it looks for. */
  ghost predicate Readable(repo: Repository) {
    VersionSource.DeclaredVersion(repo.initFile).Ok? && TagSource.LastVersionTag(repo.tags).Ok? && ChecksRun(repo)
  }

  /**
   * Ready for release: the declared version equals the last tag, the notes
   * have an entry for it, no code file lacks a header, and git is on a
   * clean master branch.
   */
  ghost predicate Ready(repo: Repository) {
    VersionSource.DeclaredVersion(repo.initFile).Ok? && TagSource.LastVersionTag(repo.tags).Ok? &&
    ReadyWith(repo, VersionSource.DeclaredVersion(repo.initFile).value, TagSource.LastVersionTag(repo.tags).value)
  }

  lemma GateAfterVersions(repo: Repository, declared: Version, tag: Version)
    requires VersionSource.DeclaredVersion(repo.initFile) == Ok(declared)
    requires TagSource.LastVersionTag(repo.tags) == Ok(tag)
    ensures Gate(repo) == Finish(Stages(repo, declared, tag), [], [])
  {
  }

  /**
   * The run releases exactly when the repository is ready; it then wrote no
   * warning. When every input can be read, all four checks run whatever
   * the earlier ones found, and the run stops as not ready exactly when a
   * warning was written. Otherwise it stops with a fatal error of its own.
   */
  lemma GateMeaning(repo: Repository)
    ensures Gate(repo).exit == Released <==> Ready(repo)
    ensures Gate(repo).exit == Released ==> Gate(repo).warnings == []
    ensures Readable(repo) ==> |Gate(repo).checks| == 4
    ensures Readable(repo) ==>
      Gate(repo).exit == (if Gate(repo).warnings == [] then Released else Stopped(NotReadyForRelease))
    ensures !Readable(repo) ==> Gate(repo).exit.Stopped? && Gate(repo).exit.error != NotReadyForRelease
  {
    var d := VersionSource.DeclaredVersion(repo.initFile);
    var t := TagSource.LastVersionTag(repo.tags);
    if d.Fatal? {
      GateWithoutDeclared(repo);
    } else if t.Fatal? {
      GateWithoutTag(repo, d.value);
    } else {
      GateAfterVersions(repo, d.value, t.value);
      ChecksMeaning(repo, d.value, t.value);
    }
  }

  lemma GateWithoutDeclared(repo: Repository)
    requires VersionSource.DeclaredVersion(repo.initFile).Fatal?
    ensures Gate(repo).exit.Stopped? && Gate(repo).exit.error != NotReadyForRelease
  {
  }

  lemma GateWithoutTag(repo: Repository, declared: Version)
    requires VersionSource.DeclaredVersion(repo.initFile) == Ok(declared)
    requires TagSource.LastVersionTag(repo.tags).Fatal?
    ensures Gate(repo).exit.Stopped? && Gate(repo).exit.error != NotReadyForRelease
  {
  }

  /**
   * A declared version that differs from the last tag fails the first
   * check with its warning, yet the other three still run, and the run
   * stops as not ready.
   */
  lemma MismatchStillRunsAll(repo: Repository)
    requires Readable(repo)
    requires VersionSource.DeclaredVersion(repo.initFile).value.parts != TagSource.LastVersionTag(repo.tags).value.parts
    ensures |Gate(repo).checks| == 4 && !Gate(repo).checks[0]
    ensures VersionMismatch(VersionSource.DeclaredVersion(repo.initFile).value.text,
      TagSource.LastVersionTag(repo.tags).value.text) in Gate(repo).warnings
    ensures Gate(repo).exit == Stopped(NotReadyForRelease)
  {
    var d := VersionSource.DeclaredVersion(repo.initFile).value;
    var t := TagSource.LastVersionTag(repo.tags).value;
    GateAfterVersions(repo, d, t);
    ChecksMeaning(repo, d, t);
  }

  lemma FinishOk(c: CheckReport, rest: seq<Result<CheckReport>>, checks: seq<bool>, warnings: seq<Warning>)
    ensures Finish([Ok(c)] + rest, checks, warnings) == Finish(rest, checks + [c.passed], warnings + c.warnings)
  {
    assert ([Ok(c)] + rest)[0] == Ok(c);
    assert ([Ok(c)] + rest)[1..] == rest;
  }

  /** Four checks that all return: their verdicts and warnings, in order, and the verdict of `all`. */
  lemma FinishFourReports(c0: CheckReport, c1: CheckReport, c2: CheckReport, c3: CheckReport)
    ensures Finish([Ok(c0), Ok(c1), Ok(c2), Ok(c3)], [], []) ==
      Run([c0.passed, c1.passed, c2.passed, c3.passed],
        c0.warnings + c1.warnings + c2.warnings + c3.warnings,
        if c0.passed && c1.passed && c2.passed && c3.passed then Released else Stopped(NotReadyForRelease))
  {
    var checks := [c0.passed, c1.passed, c2.passed, c3.passed];
    var ws := c0.warnings + c1.warnings + c2.warnings + c3.warnings;
    assert [Ok(c0), Ok(c1), Ok(c2), Ok(c3)] == [Ok(c0)] + ([Ok(c1)] + ([Ok(c2)] + ([Ok(c3)] + [])));
    FinishOk(c0, [Ok(c1)] + ([Ok(c2)] + ([Ok(c3)] + [])), [], []);
    FinishOk(c1, [Ok(c2)] + ([Ok(c3)] + []), [] + [c0.passed], [] + c0.warnings);
    FinishOk(c2, [Ok(c3)] + [], [] + [c0.passed] + [c1.passed], [] + c0.warnings + c1.warnings);
    FinishOk(c3, [], [] + [c0.passed] + [c1.passed] + [c2.passed], [] + c0.warnings + c1.warnings + c2.warnings);
    assert [] + [c0.passed] + [c1.passed] + [c2.passed] + [c3.passed] == checks;
    assert [] + c0.warnings + c1.warnings + c2.warnings + c3.warnings == ws;
    assert false in checks <==> !(c0.passed && c1.passed && c2.passed && c3.passed) by {
      assert checks[0] == c0.passed && checks[1] == c1.passed && checks[2] == c2.passed && checks[3] == c3.passed;
    }
  }

  /**
   * Line 222 appends what check_license_headers returns, which as written is
   * always true. A tree whose only code file lacks a header is then released
   * after writing its warning; with the verdict the gate uses, the same run
   * stops as not ready.
   */
  lemma AsWrittenReleasesMissingHeader(name: string, t: string)
    requires LicenseHeaders.IsCodeFileName(name) && !LicenseHeaders.HasLicenseHeader(t)
    ensures var tree := LicenseHeaders.Listed([LicenseHeaders.File(name, Read(t))]);
      var pass: Result<CheckReport> := Ok(CheckReport(true, []));
      var asWritten := Finish([pass, pass, LicenseHeaders.Report(LicenseHeaders.ScanListing([], tree), true), pass], [], []);
      var corrected := Finish([pass, pass, LicenseCheck(tree), pass], [], []);
      asWritten.exit == Released && asWritten.warnings == [MissingHeader([name])] &&
      corrected.exit == Stopped(NotReadyForRelease) && corrected.warnings == [MissingHeader([name])]
  {
    var tree := LicenseHeaders.Listed([LicenseHeaders.File(name, Read(t))]);
    LicenseHeaders.OneFileScan([], name, t);
    assert [] + [name] == [name];
    var w := [MissingHeader([name])];
    var ok := CheckReport(true, []);
    assert LicenseHeaders.Report(LicenseHeaders.ScanListing([], tree), true) == Ok(CheckReport(true, w));
    assert LicenseCheck(tree) == Ok(CheckReport(false, w));
    FinishFourReports(ok, ok, CheckReport(true, w), ok);
    FinishFourReports(ok, ok, CheckReport(false, w), ok);
    assert [] + [] + w + [] == w;
  }
}
