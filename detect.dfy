/** detect.go: how the running binary was installed, and the command that
    upgrades an installation of that kind. */
module Detect {
  import opened GoStrings

  /** The two installation sources `detectInstallSource` can report. */
  const Homebrew: string := "homebrew"
  const GoInstall: string := "go-install"

  /** The directory Homebrew keeps its installed formulae under. */
  const CellarMarker: string := "/Cellar/"

  const BrewUpgrade: string := "brew upgrade "
  const GoInstallPrefix: string := "go install github.com/"
  const LatestSuffix: string := "@latest"

  /** detectInstallSource: a path through a Homebrew cellar means Homebrew,
      any other path means `go install`. */
  function DetectInstallSource(execPath: string): (source: string)
    ensures source == Homebrew <==> exists i :: OccursAt(execPath, CellarMarker, i)
    ensures source == GoInstall <==> !exists i :: OccursAt(execPath, CellarMarker, i)
  {
    if Contains(execPath, CellarMarker) then Homebrew else GoInstall
  }

  /** getDefaultUpdateCommand: the upgrade command for a known source, and the
      empty string (no suggestion) for any other. */
  function DefaultUpdateCommand(source: string, owner: string, repo: string): (cmd: string)
    ensures cmd != "" <==> source == Homebrew || source == GoInstall
  {
    if source == Homebrew then BrewUpgrade + repo
    else if source == GoInstall then GoInstallPrefix + owner + "/" + repo + LatestSuffix
    else ""
  }

  /** The Go module path the `go install` command names. */
  function ModulePath(owner: string, repo: string): string
  {
    owner + "/" + repo
  }

  // ---------------------------------------------------------------------------
  // Properties
  // ---------------------------------------------------------------------------

  /** Any path that passes through "/Cellar/" is reported as Homebrew. */
  lemma CellarPathIsHomebrew(prefix: string, suffix: string)
    ensures DetectInstallSource(prefix + CellarMarker + suffix) == Homebrew
  {
    var p := prefix + CellarMarker + suffix;
    assert p[|prefix|..|prefix| + |CellarMarker|] == CellarMarker;
    assert OccursAt(p, CellarMarker, |prefix|);
  }

  /** A path without a 'C' cannot pass through a cellar. */
  lemma NoCellarIsGoInstall(execPath: string)
    requires 'C' !in execPath
    ensures DetectInstallSource(execPath) == GoInstall
  {
    AbsentCharNoOccurrence(execPath, CellarMarker, 1);
  }

  /** Whatever the path, the detected source always has a command. */
  lemma DetectedSourceHasCommand(execPath: string, owner: string, repo: string)
    ensures DefaultUpdateCommand(DetectInstallSource(execPath), owner, repo) != ""
  {
  }

  /** The Homebrew command names the formula by the repository alone: the owner
      plays no part, and the repository can be read back from its end. */
  lemma HomebrewCommandNamesRepo(owner1: string, owner2: string, repo: string)
    ensures DefaultUpdateCommand(Homebrew, owner1, repo) == DefaultUpdateCommand(Homebrew, owner2, repo)
    ensures var cmd := DefaultUpdateCommand(Homebrew, owner1, repo);
      |cmd| == |BrewUpgrade| + |repo| && cmd[|BrewUpgrade|..] == repo
  {
  }

  /** Two Homebrew commands are the same only for the same repository. */
  lemma HomebrewCommandInjective(owner1: string, repo1: string, owner2: string, repo2: string)
    requires DefaultUpdateCommand(Homebrew, owner1, repo1) == DefaultUpdateCommand(Homebrew, owner2, repo2)
    ensures repo1 == repo2
  {
    HomebrewCommandNamesRepo(owner1, owner1, repo1);
    HomebrewCommandNamesRepo(owner2, owner2, repo2);
  }

  /** The `go install` command is the module path between the fixed prefix and
      "@latest". */
  lemma GoInstallCommandShape(owner: string, repo: string)
    ensures var cmd := DefaultUpdateCommand(GoInstall, owner, repo);
      |cmd| == |GoInstallPrefix| + |ModulePath(owner, repo)| + |LatestSuffix|
      && cmd[..|GoInstallPrefix|] == GoInstallPrefix
      && cmd[|GoInstallPrefix|..|cmd| - |LatestSuffix|] == ModulePath(owner, repo)
      && cmd[|cmd| - |LatestSuffix|..] == LatestSuffix
  {
    var m := ModulePath(owner, repo);
    var cmd := DefaultUpdateCommand(GoInstall, owner, repo);
    assert cmd == GoInstallPrefix + m + LatestSuffix;
  }

  /** Two `go install` commands are the same only for the same owner and
      repository, as long as owners hold no '/' (GitHub account names never
      do). */
  lemma GoInstallCommandInjective(owner1: string, repo1: string, owner2: string, repo2: string)
    requires '/' !in owner1 && '/' !in owner2
    requires DefaultUpdateCommand(GoInstall, owner1, repo1) == DefaultUpdateCommand(GoInstall, owner2, repo2)
    ensures owner1 == owner2 && repo1 == repo2
  {
    GoInstallCommandShape(owner1, repo1);
    GoInstallCommandShape(owner2, repo2);
    var m1, m2 := ModulePath(owner1, repo1), ModulePath(owner2, repo2);
    assert m1 == m2;
    ModulePathOwner(owner1, repo1);
    ModulePathOwner(owner2, repo2);
    assert owner1 == m1[..|owner1|] == m2[..|owner2|] == owner2;
    assert repo1 == m1[|owner1| + 1..] == m2[|owner2| + 1..] == repo2;
  }

  /** The owner of a module path ends at its first '/'. */
  lemma ModulePathOwner(owner: string, repo: string)
    requires '/' !in owner
    ensures IndexOf(ModulePath(owner, repo), '/') == |owner|
  {
    IndexOfAppend(owner, "/" + repo, '/');
    assert ModulePath(owner, repo) == owner + ("/" + repo);
  }
}
