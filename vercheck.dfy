/** vercheck.go: one version check of a command-line tool.

    `CheckWithContext` asks GitHub for the latest release, compares it with the
    running version, and tells the user about a newer one together with the
    command that upgrades it. The model is a function from the inputs the check
    reads from the world (the release lookup's answer and the path of the
    running executable) to the sequence of observable steps it takes. */
module Vercheck {
  import opened GoStrings
  import opened Semver
  import opened Detect

  /** Options: the configuration of a check. */
  datatype Options = Options(
    currentVersion: string,
    repoOwner: string,
    repoName: string,
    updateCommand: string,
    silent: bool)

  /** What the latest-release lookup answered: a tag, or an error. */
  datatype FetchOutcome = Latest(tag: string) | FetchFailed(err: string)

  /** The observable steps of a check, in the order they happen. */
  datatype Effect =
    | FetchLatest(owner: string, repo: string)
    | LogFetchFailure(err: string)
    | LookUpExecutable
    | NotifyNewVersion(latest: string, current: string)
    | SuggestUpdate(command: string)

  /** The three required options are all given. */
  predicate HasRequiredFields(options: Options)
  {
    options.currentVersion != "" && options.repoOwner != "" && options.repoName != ""
  }

  /** isNewer: the latest release is strictly newer than the running version. */
  function IsNewer(latest: string, current: string): (r: bool)
    ensures r <==> VersionOrder(current, latest) == -1
  {
    VersionOrderAntisymmetric(latest, current);
    VersionOrder(latest, current) > 0
  }

  /** The command suggested after a notification: the configured one when
      given, otherwise the one for the detected installation source when the
      executable's path is known, otherwise none (""). */
  function UpdateCommandFor(options: Options, execPath: Option<string>): (cmd: string)
    ensures options.updateCommand != "" ==> cmd == options.updateCommand
    ensures options.updateCommand == "" && execPath.Some? ==> cmd != ""
    ensures options.updateCommand == "" && execPath.None? ==> cmd == ""
  {
    if options.updateCommand != "" then options.updateCommand
    else if execPath.Some? then
      DetectedSourceHasCommand(execPath.value, options.repoOwner, options.repoName);
      DefaultUpdateCommand(DetectInstallSource(execPath.value), options.repoOwner, options.repoName)
    else ""
  }

  /** CheckWithContext, given the lookup's answer `fetch` and the path of the
      running executable (`None` when it cannot be determined). The release is
      compared with the running version only when the lookup returned one. */
  function CheckWithContext(options: Options, fetch: FetchOutcome, execPath: Option<string>): (effects: seq<Effect>)
    ensures effects == [] <==> !HasRequiredFields(options)
    ensures effects != [] ==> effects[0] == FetchLatest(options.repoOwner, options.repoName)
    ensures |effects| <= 4
  {
    Steps(options, fetch, execPath, fetch.Latest? && IsNewer(fetch.tag, options.currentVersion))
  }

  /** The steps of a check once it is known whether the release the lookup
      returned is `newer` than the running version. Taking the comparison's
      outcome as the flag `newer` keeps the version comparator out of the
      proofs about the steps: each lemma about `CheckWithContext` below is
      proved from a `Steps` lemma that holds for either value of the flag. */
  function Steps(options: Options, fetch: FetchOutcome, execPath: Option<string>, newer: bool): (effects: seq<Effect>)
    ensures effects == [] <==> !HasRequiredFields(options)
    ensures effects != [] ==> effects[0] == FetchLatest(options.repoOwner, options.repoName)
    ensures |effects| <= 4
  {
    if !HasRequiredFields(options) then []
    else [FetchLatest(options.repoOwner, options.repoName)] + AfterFetch(options, fetch, execPath, newer)
  }

  /** The steps after the lookup has answered. */
  function AfterFetch(options: Options, fetch: FetchOutcome, execPath: Option<string>, newer: bool): (effects: seq<Effect>)
    ensures |effects| <= 3
  {
    match fetch
    case FetchFailed(err) =>
      if options.silent then [] else [LogFetchFailure(err)]
    case Latest(tag) =>
      if !newer then []
      else
        var cmd := UpdateCommandFor(options, execPath);
        (if options.updateCommand == "" then [LookUpExecutable] else [])
        + [NotifyNewVersion(tag, options.currentVersion)]
        + (if cmd != "" then [SuggestUpdate(cmd)] else [])
  }

  /** The steps with every log line dropped. */
  function WithoutLogs(effects: seq<Effect>): (r: seq<Effect>)
    ensures |r| <= |effects|
    ensures forall e :: e in r <==> e in effects && !e.LogFetchFailure?
  {
    if effects == [] then []
    else (if effects[0].LogFetchFailure? then [] else [effects[0]]) + WithoutLogs(effects[1..])
  }

  /** The check told the user about a newer version. */
  predicate Notified(effects: seq<Effect>)
  {
    exists e :: e in effects && e.NotifyNewVersion?
  }

  /** The check suggested an update command. */
  predicate Suggested(effects: seq<Effect>)
  {
    exists e :: e in effects && e.SuggestUpdate?
  }

  // ---------------------------------------------------------------------------
  // isNewer
  // ---------------------------------------------------------------------------

  /** No version is newer than itself. */
  lemma IsNewerIrreflexive(v: string)
    ensures !IsNewer(v, v)
  {
    VersionOrderReflexive(v);
  }

  /** Of two versions at most one is newer than the other. */
  lemma IsNewerAsymmetric(v1: string, v2: string)
    requires IsNewer(v1, v2)
    ensures !IsNewer(v2, v1)
  {
  }

  /** A release newer than a newer one is newer still. */
  lemma IsNewerTransitive(v1: string, v2: string, v3: string)
    requires IsNewer(v1, v2) && IsNewer(v2, v3)
    ensures IsNewer(v1, v3)
  {
    VersionOrderNewerTransitive(v1, v2, v3);
  }

  // ---------------------------------------------------------------------------
  // CheckWithContext
  // ---------------------------------------------------------------------------

  /** Without a current version, an owner or a repository nothing happens at
      all: no lookup, no log, no output. */
  lemma MissingFieldDoesNothing(options: Options, fetch: FetchOutcome, execPath: Option<string>)
    requires options.currentVersion == "" || options.repoOwner == "" || options.repoName == ""
    ensures CheckWithContext(options, fetch, execPath) == []
  {
  }

  /** A failed lookup is logged exactly when the check is not silent, and never
      leads to a notification or a suggestion. */
  lemma FetchFailureIsLoggedUnlessSilent(options: Options, err: string, execPath: Option<string>)
    requires HasRequiredFields(options)
    ensures var effects := CheckWithContext(options, FetchFailed(err), execPath);
      (LogFetchFailure(err) in effects <==> !options.silent)
      && !Notified(effects) && !Suggested(effects)
  {
    StepsAfterFailure(options, err, execPath, false);
  }

  /** The steps after a failed lookup, whatever the comparison would say. */
  lemma StepsAfterFailure(options: Options, err: string, execPath: Option<string>, newer: bool)
    requires HasRequiredFields(options)
    ensures Steps(options, FetchFailed(err), execPath, newer)
         == [FetchLatest(options.repoOwner, options.repoName)]
            + (if options.silent then [] else [LogFetchFailure(err)])
  {
  }

  /** `Silent` only silences the log: with the log lines dropped, a silent and
      a talkative check take the same steps. */
  lemma SilentOnlyAffectsLogs(options: Options, fetch: FetchOutcome, execPath: Option<string>)
    ensures WithoutLogs(CheckWithContext(options.(silent := true), fetch, execPath))
         == WithoutLogs(CheckWithContext(options.(silent := false), fetch, execPath))
  {
    StepsSilentOnlyAffectsLogs(options, fetch, execPath,
      fetch.Latest? && IsNewer(fetch.tag, options.currentVersion));
  }

  /** `SilentOnlyAffectsLogs` for a known comparison result. */
  lemma StepsSilentOnlyAffectsLogs(options: Options, fetch: FetchOutcome, execPath: Option<string>, newer: bool)
    ensures WithoutLogs(Steps(options.(silent := true), fetch, execPath, newer))
         == WithoutLogs(Steps(options.(silent := false), fetch, execPath, newer))
  {
    var loud, quiet := options.(silent := false), options.(silent := true);
    if HasRequiredFields(options) {
      var head := [FetchLatest(options.repoOwner, options.repoName)];
      WithoutLogsAppend(head, AfterFetch(loud, fetch, execPath, newer));
      WithoutLogsAppend(head, AfterFetch(quiet, fetch, execPath, newer));
      match fetch
      case FetchFailed(err) =>
        assert WithoutLogs([LogFetchFailure(err)]) == [];
      case Latest(tag) =>
        assert UpdateCommandFor(loud, execPath) == UpdateCommandFor(quiet, execPath);
    }
  }

  /** Dropping logs distributes over concatenation. */
  lemma {:induction false} WithoutLogsAppend(a: seq<Effect>, b: seq<Effect>)
    ensures WithoutLogs(a + b) == WithoutLogs(a) + WithoutLogs(b)
    decreases |a|
  {
    if a == [] {
      assert a + b == b;
    } else {
      assert (a + b)[1..] == a[1..] + b;
      WithoutLogsAppend(a[1..], b);
    }
  }

  /** The user is told about a new version exactly when the options are
      complete, the lookup returned a tag, and that tag is newer than the
      running version; the notification names both versions. */
  lemma NotifiedIffNewer(options: Options, fetch: FetchOutcome, execPath: Option<string>)
    ensures var effects := CheckWithContext(options, fetch, execPath);
      Notified(effects) <==>
        HasRequiredFields(options) && fetch.Latest? && IsNewer(fetch.tag, options.currentVersion)
    ensures HasRequiredFields(options) && fetch.Latest? && IsNewer(fetch.tag, options.currentVersion) ==>
      NotifyNewVersion(fetch.tag, options.currentVersion) in CheckWithContext(options, fetch, execPath)
  {
    StepsNotify(options, fetch, execPath, fetch.Latest? && IsNewer(fetch.tag, options.currentVersion));
  }

  /** `NotifiedIffNewer` for a known comparison result. */
  lemma StepsNotify(options: Options, fetch: FetchOutcome, execPath: Option<string>, newer: bool)
    ensures Notified(Steps(options, fetch, execPath, newer)) <==>
      HasRequiredFields(options) && fetch.Latest? && newer
    ensures HasRequiredFields(options) && fetch.Latest? && newer ==>
      NotifyNewVersion(fetch.tag, options.currentVersion) in Steps(options, fetch, execPath, newer)
  {
    if HasRequiredFields(options) {
      var head := [FetchLatest(options.repoOwner, options.repoName)];
      var rest := AfterFetch(options, fetch, execPath, newer);
      assert Steps(options, fetch, execPath, newer) == head + rest;
      assert !Notified(head);
      if fetch.Latest? && newer {
        var notify := NotifyNewVersion(fetch.tag, options.currentVersion);
        assert notify in rest;
        assert notify in head + rest;
      } else {
        assert !Notified(rest);
      }
    }
  }

  /** A release that is not newer (in particular the running version itself)
      leaves only the lookup behind. */
  lemma UpToDateOnlyFetches(options: Options, tag: string, execPath: Option<string>)
    requires HasRequiredFields(options) && !IsNewer(tag, options.currentVersion)
    ensures CheckWithContext(options, Latest(tag), execPath) == [FetchLatest(options.repoOwner, options.repoName)]
  {
    StepsNotNewer(options, tag, execPath);
  }

  /** The steps after a lookup whose release is not newer. */
  lemma StepsNotNewer(options: Options, tag: string, execPath: Option<string>)
    requires HasRequiredFields(options)
    ensures Steps(options, Latest(tag), execPath, false) == [FetchLatest(options.repoOwner, options.repoName)]
  {
  }

  /** A notification with a configured command suggests that command word for
      word and never looks up the executable. */
  lemma CustomCommandUsedVerbatim(options: Options, tag: string, execPath: Option<string>)
    requires HasRequiredFields(options) && options.updateCommand != ""
    requires IsNewer(tag, options.currentVersion)
    ensures CheckWithContext(options, Latest(tag), execPath)
         == [FetchLatest(options.repoOwner, options.repoName),
             NotifyNewVersion(tag, options.currentVersion),
             SuggestUpdate(options.updateCommand)]
  {
    StepsCustomCommand(options, tag, execPath);
  }

  /** `CustomCommandUsedVerbatim` for a release known to be newer. */
  lemma StepsCustomCommand(options: Options, tag: string, execPath: Option<string>)
    requires HasRequiredFields(options) && options.updateCommand != ""
    ensures Steps(options, Latest(tag), execPath, true)
         == [FetchLatest(options.repoOwner, options.repoName),
             NotifyNewVersion(tag, options.currentVersion),
             SuggestUpdate(options.updateCommand)]
  {
  }

  /** Without a configured command, a known executable path yields the command
      for the installation source detected from it. */
  lemma DetectedCommandSuggested(options: Options, tag: string, path: string)
    requires HasRequiredFields(options) && options.updateCommand == ""
    requires IsNewer(tag, options.currentVersion)
    ensures CheckWithContext(options, Latest(tag), Some(path))
         == [FetchLatest(options.repoOwner, options.repoName),
             LookUpExecutable,
             NotifyNewVersion(tag, options.currentVersion),
             SuggestUpdate(DefaultUpdateCommand(DetectInstallSource(path), options.repoOwner, options.repoName))]
  {
    StepsDetectedCommand(options, tag, path);
  }

  /** `DetectedCommandSuggested` for a release known to be newer. */
  lemma StepsDetectedCommand(options: Options, tag: string, path: string)
    requires HasRequiredFields(options) && options.updateCommand == ""
    ensures Steps(options, Latest(tag), Some(path), true)
         == [FetchLatest(options.repoOwner, options.repoName),
             LookUpExecutable,
             NotifyNewVersion(tag, options.currentVersion),
             SuggestUpdate(DefaultUpdateCommand(DetectInstallSource(path), options.repoOwner, options.repoName))]
  {
  }

  /** Without a configured command and without a known executable path, the
      notification stands alone. */
  lemma NoExecutableNoSuggestion(options: Options, tag: string)
    requires HasRequiredFields(options) && options.updateCommand == ""
    requires IsNewer(tag, options.currentVersion)
    ensures CheckWithContext(options, Latest(tag), None)
         == [FetchLatest(options.repoOwner, options.repoName),
             LookUpExecutable,
             NotifyNewVersion(tag, options.currentVersion)]
  {
    StepsNoExecutable(options, tag);
  }

  /** `NoExecutableNoSuggestion` for a release known to be newer. */
  lemma StepsNoExecutable(options: Options, tag: string)
    requires HasRequiredFields(options) && options.updateCommand == ""
    ensures Steps(options, Latest(tag), None, true)
         == [FetchLatest(options.repoOwner, options.repoName),
             LookUpExecutable,
             NotifyNewVersion(tag, options.currentVersion)]
  {
  }

  /** A suggestion is always the step right after a notification. */
  lemma SuggestionFollowsNotification(options: Options, fetch: FetchOutcome, execPath: Option<string>, k: int)
    requires var effects := CheckWithContext(options, fetch, execPath);
      0 <= k < |effects| && effects[k].SuggestUpdate?
    ensures k >= 1 && CheckWithContext(options, fetch, execPath)[k - 1].NotifyNewVersion?
  {
    StepsSuggestionFollowsNotification(options, fetch, execPath,
      fetch.Latest? && IsNewer(fetch.tag, options.currentVersion), k);
  }

  /** `SuggestionFollowsNotification` for a known comparison result. */
  lemma StepsSuggestionFollowsNotification(options: Options, fetch: FetchOutcome, execPath: Option<string>,
                                           newer: bool, k: int)
    requires var effects := Steps(options, fetch, execPath, newer);
      0 <= k < |effects| && effects[k].SuggestUpdate?
    ensures k >= 1 && Steps(options, fetch, execPath, newer)[k - 1].NotifyNewVersion?
  {
    var effects := Steps(options, fetch, execPath, newer);
    var rest := AfterFetch(options, fetch, execPath, newer);
    assert effects == [FetchLatest(options.repoOwner, options.repoName)] + rest;
    assert k >= 1 && rest[k - 1] == effects[k];
  }

  /** A Homebrew installation of a newer release is told to run
      `brew upgrade` on the repository. */
  lemma HomebrewUpgradeSuggested(options: Options, tag: string, prefix: string, suffix: string)
    requires HasRequiredFields(options) && options.updateCommand == ""
    requires IsNewer(tag, options.currentVersion)
    ensures SuggestUpdate(BrewUpgrade + options.repoName)
      in CheckWithContext(options, Latest(tag), Some(prefix + CellarMarker + suffix))
  {
    var path := prefix + CellarMarker + suffix;
    CellarPathIsHomebrew(prefix, suffix);
    DetectedCommandSuggested(options, tag, path);
    assert CheckWithContext(options, Latest(tag), Some(path))[3] == SuggestUpdate(BrewUpgrade + options.repoName);
  }
}
