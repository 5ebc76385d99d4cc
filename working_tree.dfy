/**
 * check_clean_master_branch: the output of `git status` must have a line
 * `# On branch master` and a line `nothing to commit (working directory
 * clean)`, each searched for with `^...$` under re.M. Both are tested, and
 * each one missing writes its own warning.
 */
module WorkingTree {
  import opened Text
  import opened Outcomes

  const MasterLine: string := "# On branch master"
  const CleanLine: string := "nothing to commit (working directory clean)"

  /** `master_re.search(git_status)` succeeds. */
  predicate OnMaster(status: string) {
    HasLine(status, MasterLine)
  }

  /** `clean_re.search(git_status)` succeeds. */
  predicate IsClean(status: string) {
    HasLine(status, CleanLine)
  }

  lemma CleanLineIsOneLine()
    ensures '\n' !in CleanLine
  {
  }

  /** The report the check makes of a status text: one warning per missing line. */
  function StatusReport(status: string): CheckReport {
    var w1: seq<Warning> := if OnMaster(status) then [] else [NotOnMaster];
    var w2: seq<Warning> := if IsClean(status) then [] else [UncommittedWork];
    CheckReport(OnMaster(status) && IsClean(status), w1 + w2)
  }

  /** What the check makes of the reply of `git status`. */
  function StatusCheck(reply: GitReply): Result<CheckReport> {
    match reply
    case CommandFailed => Fatal(GitStatusFailed)
    case Output(text) => Ok(StatusReport(text))
  }

  /**
   * The two searches are line searches: each succeeds exactly when a line
   * of the status, split at '\n', is that line.
   */
  lemma StatusLines(status: string)
    ensures OnMaster(status) <==> MasterLine in Split(status, '\n')
    ensures IsClean(status) <==> CleanLine in Split(status, '\n')
  {
    assert '\n' !in MasterLine;
    CleanLineIsOneLine();
    HasLineIffSplit(status, MasterLine);
    HasLineIffSplit(status, CleanLine);
  }

  /**
   * The report passes exactly when both lines are present; each missing
   * line is reported on its own, and a failed branch test does not hide
   * the cleanliness test.
   */
  lemma StatusReportMeaning(status: string)
    ensures StatusReport(status).passed <==> StatusReport(status).warnings == []
    ensures StatusReport(status).passed <==>
      MasterLine in Split(status, '\n') && CleanLine in Split(status, '\n')
    ensures NotOnMaster in StatusReport(status).warnings <==> MasterLine !in Split(status, '\n')
    ensures UncommittedWork in StatusReport(status).warnings <==> CleanLine !in Split(status, '\n')
  {
    StatusLines(status);
    var r := StatusReport(status);
    var w1: seq<Warning> := if OnMaster(status) then [] else [NotOnMaster];
    var w2: seq<Warning> := if IsClean(status) then [] else [UncommittedWork];
    assert r.warnings == w1 + w2;
    assert NotOnMaster in w1 + w2 <==> NotOnMaster in w1;
    assert UncommittedWork in w1 + w2 <==> UncommittedWork in w2;
  }

  /**
   * check_clean_master_branch (lines 164-191): `ok` starts true and each
   * failed search sets it to false after writing its warning.
   */
  method CheckCleanMasterBranch(reply: GitReply) returns (r: Result<CheckReport>)
    ensures r == StatusCheck(reply)
  {
    if reply.CommandFailed? {
      return Fatal(GitStatusFailed);
    }
    var status := reply.text;
    var ok := true;
    var warnings: seq<Warning> := [];
    if !OnMaster(status) {
      warnings := warnings + [NotOnMaster];
      ok := false;
    }
    ghost var w1 := warnings;
    if !IsClean(status) {
      warnings := warnings + [UncommittedWork];
      ok := false;
    }
    assert w1 == (if OnMaster(status) then [] else [NotOnMaster]);
    assert warnings == w1 + (if IsClean(status) then [] else [UncommittedWork]);
    return Ok(CheckReport(ok, warnings));
  }

  const FeatureStatus: string := "# On branch feature-x" + "\n" + CleanLine

  lemma FeatureStatusLines()
    ensures Split(FeatureStatus, '\n') == ["# On branch feature-x", CleanLine]
  {
    assert '\n' !in "# On branch feature-x";
    CleanLineIsOneLine();
    SplitTwo("# On branch feature-x", CleanLine, '\n');
  }

  /** On another branch with a clean tree, only the branch test fails. */
  lemma FeatureBranchFails()
    ensures StatusReport(FeatureStatus) == CheckReport(false, [NotOnMaster])
  {
    FeatureStatusLines();
    assert |MasterLine| != |"# On branch feature-x"| && |MasterLine| != |CleanLine|;
    StatusLines(FeatureStatus);
    assert !OnMaster(FeatureStatus) && IsClean(FeatureStatus);
    assert [NotOnMaster] + [] == [NotOnMaster];
  }
}
