/** The release flow of `lib.rs`: the order of the steps of a version bump,
    the gate on release branches and the name of the branch, and the two
    decisions of the init dialogue that are not prompts. */
module GitScribe {
  import opened Wrappers
  import opened Strings
  import opened Configuration
  import opened Versions
  import opened VersionFileSync
  import Changes
  import Util

  // ---------------------------------------------------------------------
  // Designations and the release gate

  /** The names a designation is matched by in `commands_that_release`:
      the three entries the init dialogue offers. */
  function DesignationName(d: VersionDesignation): string
  {
    match d
    case Major => "major"
    case Minor => "minor"
    case Patch => "patch"
  }

  lemma DesignationNamesDistinct(d: VersionDesignation, e: VersionDesignation)
    ensures DesignationName(d) == DesignationName(e) <==> d == e
  {
  }

  /** The condition under which a bump creates a release branch. */
  predicate MakesBranch(branchForRelease: bool, commandsThatRelease: seq<string>, d: VersionDesignation) {
    branchForRelease && DesignationName(d) in commandsThatRelease
  }

  // ---------------------------------------------------------------------
  // The branch name

  /** `.take(2)` on the dot-separated parts. */
  function TakeTwo(parts: seq<string>): (r: seq<string>)
    ensures |parts| >= 2 ==> r == parts[..2]
    ensures |parts| < 2 ==> r == parts
  {
    if |parts| < 2 then parts else parts[..2]
  }

  /** The parts with the one at index 1, if any, replaced by "X". */
  function MarkSecond(parts: seq<string>): (r: seq<string>)
    ensures |r| == |parts|
    ensures forall i :: 0 <= i < |parts| ==> r[i] == (if i == 1 then "X" else parts[i])
  {
    seq(|parts|, i requires 0 <= i < |parts| => if i == 1 then "X" else parts[i])
  }

  /** The version without its patch number: the first two parts, then "X". */
  function WithoutPatch(version: string): (r: string)
    ensures Split(r, '.') == TakeTwo(Split(version, '.')) + ["X"]
  {
    var kept := Join(TakeTwo(Split(version, '.')), '.');
    SplitJoin(TakeTwo(Split(version, '.')), '.');
    SplitConcat(kept, "X", '.');
    SplitWithout("X", '.');
    assert kept + ".X" == kept + ['.'] + "X";
    kept + ".X"
  }

  /** The version with its minor number, the part at index 1, made "X". */
  function WithoutMinor(version: string): (r: string)
    ensures Split(r, '.') == MarkSecond(Split(version, '.'))
  {
    var marked := MarkSecond(Split(version, '.'));
    SplitJoin(marked, '.');
    Join(marked, '.')
  }

  /** The version part of the release branch's name, by the parts it
      splits into: the version itself when patch and minor releases both
      branch; the first two parts and "X" without patch; part 1 made "X"
      without minor; both rules, in that order, without either. */
  function BranchVersion(version: string, commandsThatRelease: seq<string>): (b: string)
    ensures var parts := Split(version, '.');
      && ("patch" in commandsThatRelease && "minor" in commandsThatRelease ==> b == version)
      && ("patch" !in commandsThatRelease && "minor" in commandsThatRelease ==>
            Split(b, '.') == TakeTwo(parts) + ["X"])
      && ("patch" in commandsThatRelease && "minor" !in commandsThatRelease ==>
            Split(b, '.') == MarkSecond(parts))
      && ("patch" !in commandsThatRelease && "minor" !in commandsThatRelease ==>
            Split(b, '.') == MarkSecond(TakeTwo(parts) + ["X"]))
  {
    var afterPatch := if "patch" !in commandsThatRelease then WithoutPatch(version) else version;
    if "minor" !in commandsThatRelease then WithoutMinor(afterPatch) else afterPatch
  }

  lemma SplitThree(a: string, b: string, c: string)
    requires '.' !in a && '.' !in b && '.' !in c
    ensures Split(a + "." + b + "." + c, '.') == [a, b, c]
  {
    JoinThree(a, b, c, '.');
    SplitJoin([a, b, c], '.');
  }

  lemma WithoutPatchOfThree(a: string, b: string, c: string)
    requires '.' !in a && '.' !in b && '.' !in c
    ensures WithoutPatch(a + "." + b + "." + c) == a + "." + b + ".X"
  {
    SplitThree(a, b, c);
    assert TakeTwo([a, b, c]) == [a, b];
    assert [a, b][1..] == [b];
    assert Join([a, b], '.') == a + "." + b;
  }

  lemma WithoutMinorOfThree(a: string, b: string, c: string)
    requires '.' !in a && '.' !in b && '.' !in c
    ensures WithoutMinor(a + "." + b + "." + c) == a + ".X." + c
  {
    SplitThree(a, b, c);
    assert MarkSecond([a, b, c]) == [a, "X", c];
    JoinThree(a, "X", c, '.');
  }

  /** On a version of three dot-free parts `a.b.c`: `a.b.X` without patch,
      `a.X.c` without minor, `a.X.X` without both. */
  lemma BranchVersionOfThreeParts(a: string, b: string, c: string, commandsThatRelease: seq<string>)
    requires '.' !in a && '.' !in b && '.' !in c
    ensures var v := a + "." + b + "." + c;
      && ("patch" !in commandsThatRelease && "minor" in commandsThatRelease ==>
            BranchVersion(v, commandsThatRelease) == a + "." + b + ".X")
      && ("patch" in commandsThatRelease && "minor" !in commandsThatRelease ==>
            BranchVersion(v, commandsThatRelease) == a + ".X." + c)
      && ("patch" !in commandsThatRelease && "minor" !in commandsThatRelease ==>
            BranchVersion(v, commandsThatRelease) == a + ".X.X")
  {
    WithoutPatchOfThree(a, b, c);
    WithoutMinorOfThree(a, b, c);
    WithoutMinorOfThree(a, b, "X");
    assert a + "." + b + ".X" == a + "." + b + "." + "X";
  }

  /** The examples of the release-branch naming: 1.2.3 gives 1.X.X when
      neither minor nor patch releases branch, and 1.X.3 when only minor
      releases do not. */
  lemma BranchVersionExamples()
    ensures BranchVersion("1.2.3", ["major"]) == "1.X.X"
    ensures BranchVersion("1.2.3", ["major", "patch"]) == "1.X.3"
    ensures BranchVersion("1.2.3", ["major", "minor"]) == "1.2.X"
    ensures BranchVersion("1.2.3", ["major", "minor", "patch"]) == "1.2.3"
  {
    assert "1" + "." + "2" + "." + "3" == "1.2.3";
    assert "1" + ".X.X" == "1.X.X" && "1" + ".X." + "3" == "1.X.3" && "1" + "." + "2" + ".X" == "1.2.X";
    assert "patch" !in ["major"] && "minor" !in ["major"];
    assert "minor" !in ["major", "patch"] && "patch" !in ["major", "minor"];
    BranchVersionOfThreeParts("1", "2", "3", ["major"]);
    BranchVersionOfThreeParts("1", "2", "3", ["major", "patch"]);
    BranchVersionOfThreeParts("1", "2", "3", ["major", "minor"]);
  }

  /** `branch_for_release`, up to the `git checkout -b` it runs: the name
      of the branch to create. `branch_version` starts as the configured
      version and is rewritten by each of the two rules whose command does
      not branch. */
  method BranchForRelease(config: Config, commandsThatRelease: seq<string>) returns (branchName: string)
    ensures branchName == "release/" + BranchVersion(config.version, commandsThatRelease)
  {
    var branchVersion := config.version;
    if "patch" !in commandsThatRelease {
      branchVersion := Join(TakeTwo(Split(branchVersion, '.')), '.') + ".X";
    }
    if "minor" !in commandsThatRelease {
      branchVersion := Join(MarkSecond(Split(branchVersion, '.')), '.');
    }
    branchName := "release/" + branchVersion;
  }

  // ---------------------------------------------------------------------
  // The version bump

  /** The observable steps of `handle_version_bump`, in the order they
      happen. The changelog step carries the release keys and the changes
      filed under them that the templates render. */
  datatype Step =
    | ConfigWritten(config: Config)
    | FilesSynced(files: seq<VersionSyncFile>)
    | ChangelogGenerated(version: Version, changes: Changes.ChangeMap)
    | Committed(versionText: string)
    | BranchCreated(name: string)

  /** How the run ends: normally, through `process::exit`, or in a panic. */
  datatype Ending = Finished | Exited(code: int) | Panicked

  /** The steps after the version files: the changelog, the commit of the
      version, and the branch when the gate lets it through. */
  function Closing(v: Version, changes: Changes.ChangeMap, branchForRelease: bool,
                   commandsThatRelease: seq<string>, d: VersionDesignation): (r: seq<Step>)
    ensures |r| == (if MakesBranch(branchForRelease, commandsThatRelease, d) then 3 else 2)
    ensures r[0] == ChangelogGenerated(v, changes) && r[1] == Committed(ToString(v))
    ensures |r| == 3 ==> r[2] == BranchCreated("release/" + BranchVersion(ToString(v), commandsThatRelease))
  {
    if MakesBranch(branchForRelease, commandsThatRelease, d)
    then [ChangelogGenerated(v, changes), Committed(ToString(v)),
          BranchCreated("release/" + BranchVersion(ToString(v), commandsThatRelease))]
    else [ChangelogGenerated(v, changes), Committed(ToString(v))]
  }

  /** The steps and the ending once `get_changes` has run after `before`:
      a panic when it fails, otherwise the closing steps and a normal end. */
  function AfterChangelog(before: seq<Step>, v: Version, changelog: Result<Changes.ChangeMap, Changes.Fault>,
                          branchForRelease: bool, commandsThatRelease: seq<string>, d: VersionDesignation): (seq<Step>, Ending)
  {
    match changelog
    case Err(_) => (before, Panicked)
    case Ok(changes) => (before + Closing(v, changes, branchForRelease, commandsThatRelease, d), Finished)
  }

  /** `handle_version_bump` over the status output, the store of version
      files, the text of the git log with the date parser and the clock
      reading `get_changes` uses, and the two release settings the
      configuration type does not declare. Uncommitted changes end the run
      before anything is written; an unreadable version panics; the version
      files are synchronised only when some are configured; a history
      `get_changes` cannot group panics before the commit; otherwise the
      changelog and the commit follow, in that order, and the branch comes
      last, named after the new version. */
  method HandleVersionBump(
    config: Config, designation: VersionDesignation, status: string, store: map<string, Doc>,
    gitLog: string, parseDate: string -> Option<int>, now: int,
    branchForRelease: bool, commandsThatRelease: seq<string>)
    returns (report: seq<string>, steps: seq<Step>, newStore: map<string, Doc>, ending: Ending)
    ensures |status| == 0 ==> report == []
    ensures |status| > 0 ==> report == [Util.UncommittedHeader] + Util.Described(NonEmptyLines(status))
    ensures |status| > 0 ==> steps == [] && newStore == store && ending == Exited(1)
    ensures |status| == 0 && NewVersion(config.version).None? ==>
      steps == [] && newStore == store && ending == Panicked
    ensures |status| == 0 && NewVersion(config.version).Some? ==>
      var v := Bumped(NewVersion(config.version).value, designation);
      var written := ConfigWritten(config.(version := ToString(v)));
      var changelog := Changes.ChangeLog(gitLog, config.projectRepo, parseDate, v, now);
      && (config.versionSyncFiles.None? ==>
            newStore == store && (steps, ending) == AfterChangelog([written], v, changelog, branchForRelease, commandsThatRelease, designation))
      && (config.versionSyncFiles.Some? ==>
            var synced := SyncAll(store, config.versionSyncFiles.value, ToString(v));
            var sync := FilesSynced(config.versionSyncFiles.value);
            && newStore == synced.0
            && (synced.1 != Synced ==> ending == Panicked && steps == [written])
            && (synced.1 == Synced ==>
                  (steps, ending) == AfterChangelog([written, sync], v, changelog, branchForRelease, commandsThatRelease, designation)))
  {
    steps := [];
    newStore := store;
    var exitCode;
    report, exitCode := Util.CheckForUncommittedChanges(status);
    if exitCode.Some? {
      return report, steps, newStore, Exited(exitCode.value);
    }
    var incremented := IncrementVersion(config, designation);
    if incremented.None? {
      return report, steps, newStore, Panicked;
    }
    var version := incremented.value;
    var newConfig := WriteNewVersionToFile(config, version);
    assert newConfig == config.(version := ToString(version));
    steps := [ConfigWritten(newConfig)];
    if newConfig.versionSyncFiles.Some? {
      var outcome;
      newStore, outcome := SyncVersionToFile(store, newConfig.versionSyncFiles.value, ToString(version));
      if outcome != Synced {
        return report, steps, newStore, Panicked;
      }
      steps := [ConfigWritten(newConfig), FilesSynced(newConfig.versionSyncFiles.value)];
    }
    var changes := Changes.GetChanges(gitLog, newConfig.projectRepo, parseDate, version, now);
    if changes.Err? {
      return report, steps, newStore, Panicked;
    }
    var closing := [ChangelogGenerated(version, changes.value), Committed(ToString(version))];
    if branchForRelease && DesignationName(designation) in commandsThatRelease {
      var name := BranchForRelease(newConfig, commandsThatRelease);
      closing := [ChangelogGenerated(version, changes.value), Committed(ToString(version)), BranchCreated(name)];
    }
    steps := steps + closing;
    ending := Finished;
  }

  /** The commit a bump makes is the one the next changelog reads as the
      release of the new version: its message carries the version commit
      marker, and for a one-digit major number its release key is the new
      version. */
  lemma CommitIsRelease(v: Version, now: int)
    requires 0 <= v.major < 10 && 0 <= v.minor && 0 <= v.patch
    ensures Changes.VersionKey(Changes.VersionCommitMessage + ToString(v)) == Some(ToString(v))
  {
    Changes.PendingReleaseKey(v, now);
  }

  // ---------------------------------------------------------------------
  // The init dialogue

  /** The validator of the release-command selection: valid exactly when
      "major" is among the selected entries. */
  function ValidReleaseSelection(input: seq<string>): (valid: bool)
    ensures valid <==> "major" in input
  {
    |input| > 0 && (input[0] == "major" || ValidReleaseSelection(input[1..]))
  }

  /** The default selection, major and minor, passes; one without major
      does not. */
  lemma DefaultSelectionValid()
    ensures ValidReleaseSelection(["major", "minor"])
    ensures !ValidReleaseSelection(["minor", "patch"])
  {
  }

  /** The repository prompt: an empty answer leaves `project_repo` as it was,
      any other answer becomes it; nothing else changes. */
  function EnterProjectRepo(config: Config, entered: string): (r: Config)
    ensures |entered| > 0 ==> r.projectRepo == Some(entered)
    ensures |entered| == 0 ==> r.projectRepo == config.projectRepo
    ensures r.version == config.version && r.versionSyncFiles == config.versionSyncFiles
  {
    if |entered| > 0 then config.(projectRepo := Some(entered)) else config
  }

  /** Starting from the default configuration, the repository is unset
      exactly when the answer is empty. */
  lemma InitRepoFromDefault(entered: string)
    ensures EnterProjectRepo(CreateDefault(), entered).projectRepo.None? <==> entered == ""
  {
  }
}
