/**
 * `bsp/FastpassBspAmendAction`: what the amend action does, as the sequence
 * of effects it has. The inputs are what the host and the subprocesses give
 * it: how many bsp imports the project links, the targets `info` reported
 * (or `None` when that future failed), what the user chose in the prompt (or
 * `None` when cancelled), and the outcome of `amendAll`.
 */
module BspAmendAction {
  import opened Wrappers
  import opened JavaStrings
  import opened FastpassUtils

  datatype Effect =
    | ShowError                  // the "more than one bsp project" error dialog
    | QueryOld                   // `FastpassUtils.selectedTargets(firstProject)`
    | Prompt                     // `FastpassManagerDialog.promptForTargetsToImport`
    | Amend(targets: set<string>) // `FastpassUtils.amendAll(basePath, newTargets)`
    | Refresh                    // `ExternalProjectUtil.refresh`
    | LogError(error: UtilsError) // `logger.error` of the exception `amendAll` raised

  /** `refreshProjectsWithNewTargetsList` inside its `try`: amend, then refresh only when the amend returned normally. */
  function RefreshProjectsWithNewTargetsList(newTargets: set<string>, amend: Result<(), UtilsError>): (r: seq<Effect>)
    ensures |r| == 2 && r[0] == Amend(newTargets)
    ensures r[1] == Refresh <==> amend.Success?
    ensures amend.Failure? ==> r[1] == LogError(amend.error)
  {
    [Amend(newTargets)] + if amend.Success? then [Refresh] else [LogError(amend.error)]
  }

  /** `amendAndRefreshIfNeeded`: only once the old targets are known, the prompt was confirmed and the set changed. */
  function AmendAndRefreshIfNeeded(oldTargets: Option<set<string>>, newTargets: Option<set<string>>,
                                   amend: Result<(), UtilsError>): (r: seq<Effect>)
    ensures r == [] <==> oldTargets.None? || newTargets.None? || newTargets.value == oldTargets.value
    ensures r != [] ==> r == RefreshProjectsWithNewTargetsList(newTargets.value, amend)
  {
    if oldTargets.None? then []
    else if newTargets.None? then []
    else if newTargets.value == oldTargets.value then []
    else RefreshProjectsWithNewTargetsList(newTargets.value, amend)
  }

  /** `actionPerformed`: refuse anything but exactly one linked import; otherwise query, prompt and sync. */
  function ActionPerformed(imports: nat, oldTargets: Option<set<string>>, newTargets: Option<set<string>>,
                           amend: Result<(), UtilsError>): (r: seq<Effect>)
    ensures imports != 1 <==> r == [ShowError]
    ensures imports == 1 ==> |r| >= 2 && r[..2] == [QueryOld, Prompt]
  {
    if imports != 1 then [ShowError]
    else [QueryOld, Prompt] + AmendAndRefreshIfNeeded(oldTargets, newTargets, amend)
  }

  /** Anything but exactly one linked import: the error alone, with nothing queried, prompted or amended. */
  lemma WrongImportCountOnlyShowsError(imports: nat, oldTargets: Option<set<string>>, newTargets: Option<set<string>>,
                                       amend: Result<(), UtilsError>)
    requires imports != 1
    ensures var r := ActionPerformed(imports, oldTargets, newTargets, amend);
      QueryOld !in r && Prompt !in r && Refresh !in r && forall t :: Amend(t) !in r
  {
  }

  /** A failed query of the old targets, or a cancelled prompt: no amend and no refresh. */
  lemma NothingWithoutOldTargetsOrChoice(imports: nat, oldTargets: Option<set<string>>, newTargets: Option<set<string>>,
                                         amend: Result<(), UtilsError>)
    requires oldTargets.None? || newTargets.None?
    ensures var r := ActionPerformed(imports, oldTargets, newTargets, amend);
      Refresh !in r && forall t :: Amend(t) !in r
  {
  }

  /** The same set chosen again, in whatever order it was listed: no amend and no refresh. */
  lemma UnchangedSetIsNotAmended(imports: nat, previous: set<string>, amend: Result<(), UtilsError>)
    ensures var r := ActionPerformed(imports, Some(previous), Some(previous), amend);
      Refresh !in r && forall t :: Amend(t) !in r
  {
  }

  /**
   * A changed set is amended exactly once, with exactly that set, and the
   * project is refreshed right after it if and only if the amend returned normally.
   */
  lemma ChangedSetIsAmendedThenRefreshed(previous: set<string>, chosen: set<string>, amend: Result<(), UtilsError>)
    requires chosen != previous
    ensures var r := ActionPerformed(1, Some(previous), Some(chosen), amend);
      && r[..3] == [QueryOld, Prompt, Amend(chosen)]
      && |r| == 4
      && (r[3] == Refresh <==> amend.Success?)
      && (forall t :: Amend(t) in r ==> t == chosen)
  {
  }

  /** A refresh always comes directly after an amend that returned normally, and only then. */
  lemma RefreshFollowsSuccessfulAmend(imports: nat, oldTargets: Option<set<string>>, newTargets: Option<set<string>>,
                                      amend: Result<(), UtilsError>)
    ensures var r := ActionPerformed(imports, oldTargets, newTargets, amend);
      forall k :: 0 <= k < |r| && r[k] == Refresh ==> k > 0 && r[k - 1].Amend? && amend.Success?
  {
  }

  /** With `amendAll`'s exit check: a refresh means the amend exited with 0; a non-zero exit logs its error output. */
  lemma RefreshNeedsZeroExit(oldTargets: Option<set<string>>, newTargets: Option<set<string>>, exitValue: int, stderr: string)
    ensures var r := ActionPerformed(1, oldTargets, newTargets, AmendOutcome(exitValue, stderr));
      && (Refresh in r ==> exitValue == 0)
      && (exitValue != 0 && r != [QueryOld, Prompt] ==> r[|r| - 1] == LogError(AmendFailed(stderr)))
  {
  }

  /**
   * The old targets are read from `info`'s lines: a prompt that returns the
   * same targets, listed in another order or with repetitions, is no change.
   */
  lemma ReorderedTargetsAreNotAmended(imports: nat, lines: seq<string>, chosen: seq<string>, amend: Result<(), UtilsError>)
    requires forall k :: 0 <= k < |lines| ==> lines[k] != "" && '\n' !in lines[k]
    requires (set t | t in lines) == (set t | t in chosen)
    ensures var r := ActionPerformed(imports, Some(SelectedTargets(Join(lines, '\n'))), Some(set t | t in chosen), amend);
      Refresh !in r && forall t :: Amend(t) !in r
  {
    SelectedTargetsOfLines(lines);
    UnchangedSetIsNotAmended(imports, (set t | t in chosen), amend);
  }
}
