/**
 * The selection logic shared by `FastpassChooseTargetsPanel` and
 * `FastpassManager`: which tree selections are acted on, and what the
 * targets list shows once a fetch completes. `Paths.isParent` is not part of
 * this model; it is a parameter, any ancestor relation on path strings.
 */
module TargetChooser {
  import opened Wrappers

  /** What the targets list panel shows. */
  datatype ListView =
    | Loading                                  // `setLoading`
    | Shown(items: seq<string>, checked: set<string>) // `setItems`: items, checked iff in `checked`

  /** `belongsToImportedPantsProject`: `file` lies under `root` and is not `root` itself. */
  predicate BelongsToImportedPantsProject(isParent: (string, string) -> bool, root: string, file: string)
    ensures BelongsToImportedPantsProject(isParent, root, file) ==> isParent(root, file)
    ensures root == file ==> !BelongsToImportedPantsProject(isParent, root, file)
  {
    isParent(root, file) && root != file
  }

  /** `anyMatch` over the imported roots. */
  predicate UnderSomeRoot(isParent: (string, string) -> bool, roots: seq<string>, file: string)
  {
    |roots| > 0 && (BelongsToImportedPantsProject(isParent, roots[0], file) || UnderSomeRoot(isParent, roots[1..], file))
  }

  /**
   * `handleTreeSelection`'s test: a selection is acted on when it is not
   * `null` and is a strict descendant of some imported root.
   */
  function ActOnSelection(isParent: (string, string) -> bool, roots: seq<string>, selection: Option<string>): (act: bool)
    ensures act <==> (selection.Some? &&
      exists i :: 0 <= i < |roots| && isParent(roots[i], selection.value) && roots[i] != selection.value)
  {
    if selection.None? then false
    else
      UnderSomeRootIff(isParent, roots, selection.value);
      UnderSomeRoot(isParent, roots, selection.value)
  }

  lemma {:induction false} UnderSomeRootIff(isParent: (string, string) -> bool, roots: seq<string>, file: string)
    ensures UnderSomeRoot(isParent, roots, file) <==>
      exists i :: 0 <= i < |roots| && isParent(roots[i], file) && roots[i] != file
  {
    if |roots| > 0 {
      UnderSomeRootIff(isParent, roots[1..], file);
      if exists i :: 0 <= i < |roots| && isParent(roots[i], file) && roots[i] != file {
        var i :| 0 <= i < |roots| && isParent(roots[i], file) && roots[i] != file;
        if i > 0 {
          assert roots[1..][i - 1] == roots[i];
        }
      }
      if UnderSomeRoot(isParent, roots[1..], file) {
        var i :| 0 <= i < |roots[1..]| && isParent(roots[1..][i], file) && roots[1..][i] != file;
        assert roots[i + 1] == roots[1..][i];
      }
    }
  }

  /** A root is never acted on for itself: only a root above it could make it count. */
  lemma RootIsNotActedOnAlone(isParent: (string, string) -> bool, root: string)
    ensures !ActOnSelection(isParent, [root], Some(root))
  {
  }

  /** Without any imported root, and without a selection, nothing is acted on. */
  lemma NothingToActOn(isParent: (string, string) -> bool, roots: seq<string>, file: string)
    ensures !ActOnSelection(isParent, [], Some(file))
    ensures !ActOnSelection(isParent, roots, None)
  {
  }

  /** More imported roots never stop a selection from being acted on. */
  lemma ActOnSelectionMonotone(isParent: (string, string) -> bool, roots: seq<string>, more: seq<string>, selection: Option<string>)
    requires ActOnSelection(isParent, roots, selection)
    ensures ActOnSelection(isParent, roots + more, selection)
  {
    var i :| 0 <= i < |roots| && isParent(roots[i], selection.value) && roots[i] != selection.value;
    assert (roots + more)[i] == roots[i];
  }

  /**
   * The `whenComplete` callback: with the same file still selected, a
   * successful fetch shows its targets checked as selected and a failed one
   * an empty list; a different selection leaves the list as it is, and so
   * does no selection, where `getSelectedFile().equals` throws.
   */
  function ApplyFetchResult(view: ListView, current: Option<string>, file: string,
                            outcome: Option<seq<string>>, selected: set<string>): (r: ListView)
    ensures current != Some(file) ==> r == view
    ensures current == Some(file) && outcome.Some? ==> (r.Shown? && r.items == outcome.value &&
      forall k :: 0 <= k < |r.items| ==> (r.items[k] in r.checked <==> r.items[k] in selected))
    ensures current == Some(file) && outcome.None? ==> r == Shown([], {})
  {
    if current == Some(file) then
      if outcome.Some? then Shown(outcome.value, selected) else Shown([], {})
    else view
  }

  /** A result arriving late for a file no longer selected changes nothing, whatever it holds. */
  lemma StaleResultIgnored(view: ListView, current: Option<string>, file: string,
                           a: Option<seq<string>>, b: Option<seq<string>>, s: set<string>, t: set<string>)
    requires current != Some(file)
    ensures ApplyFetchResult(view, current, file, a, s) == ApplyFetchResult(view, current, file, b, t)
  {
  }

  /** What the user and the fetcher can do to a chooser: pick in the tree, finish a fetch, click a target. */
  datatype Event =
    | Select(selection: Option<string>, done: bool) // the tree's new selection; `done`: the fetch's future is already complete
    | Complete(file: string, outcome: Option<seq<string>>) // the future for `file` completes; `None` for an error
    | Click(index: nat)                              // a click on the checkbox at `index`

  /**
   * The state of a chooser: the selected targets, the tree's selected file,
   * what the targets list shows, and the files the fetcher was asked for.
   */
  datatype Chooser = Chooser(selected: set<string>, treeSelection: Option<string>, view: ListView, fetched: seq<string>)

  /** A new chooser: the imported targets selected, `dir` selected in the tree, an empty list. */
  function Initial(dir: string, importedTargets: seq<string>): (c: Chooser)
    ensures forall t :: t in c.selected <==> t in importedTargets
    ensures c.treeSelection == Some(dir) && c.view == Shown([], {}) && c.fetched == []
  {
    Chooser((set t | t in importedTargets), Some(dir), Shown([], {}), [])
  }

  /**
   * One event. A tree selection under a root asks the fetcher and shows the
   * loading icon until the future is done. A completed fetch updates the
   * list. A click toggles a shown checkbox and adds its target to, or removes
   * it from, the selected targets.
   */
  function Step(roots: seq<string>, isParent: (string, string) -> bool, c: Chooser, e: Event): (d: Chooser)
    ensures e.Select? ==> d.treeSelection == e.selection && d.selected == c.selected
    ensures e.Select? && ActOnSelection(isParent, roots, e.selection) ==>
      d.fetched == c.fetched + [e.selection.value] && d.view == (if e.done then c.view else Loading)
    ensures e.Select? && !ActOnSelection(isParent, roots, e.selection) ==> d.fetched == c.fetched && d.view == c.view
    ensures !e.Select? ==> d.treeSelection == c.treeSelection && d.fetched == c.fetched
    ensures e.Complete? ==> d.selected == c.selected
    ensures e.Complete? && e.file !in c.fetched ==> d == c
    ensures e.Complete? && e.file in c.fetched ==>
      d.view == ApplyFetchResult(c.view, c.treeSelection, e.file, e.outcome, c.selected)
    ensures e.Click? && !(c.view.Shown? && e.index < |c.view.items|) ==> d == c
    ensures e.Click? && c.view.Shown? && e.index < |c.view.items| ==>
      var item := c.view.items[e.index];
      d.view.Shown? && d.view.items == c.view.items
      && d.view.checked == (if item in c.view.checked then c.view.checked - {item} else c.view.checked + {item})
      && (item in c.view.checked ==> item !in d.view.checked && d.selected == c.selected - {item})
      && (item !in c.view.checked ==> item in d.view.checked && d.selected == c.selected + {item})
  {
    match e
    case Select(selection, done) =>
      if ActOnSelection(isParent, roots, selection) then
        c.(treeSelection := selection, fetched := c.fetched + [selection.value],
           view := if done then c.view else Loading)
      else c.(treeSelection := selection)
    case Complete(file, outcome) =>
      if file in c.fetched then c.(view := ApplyFetchResult(c.view, c.treeSelection, file, outcome, c.selected))
      else c
    case Click(index) =>
      if c.view.Shown? && index < |c.view.items| then
        var item := c.view.items[index];
        if item in c.view.checked then
          c.(selected := c.selected - {item}, view := c.view.(checked := c.view.checked - {item}))
        else
          c.(selected := c.selected + {item}, view := c.view.(checked := c.view.checked + {item}))
      else c
  }

  /** The events in order. */
  function Run(roots: seq<string>, isParent: (string, string) -> bool, c: Chooser, es: seq<Event>): (d: Chooser)
    ensures c.fetched <= d.fetched && |d.fetched| <= |c.fetched| + |es|
    ensures es == [] ==> d == c
    decreases |es|
  {
    if es == [] then c else Step(roots, isParent, Run(roots, isParent, c, es[..|es| - 1]), es[|es| - 1])
  }

  /**
   * What a chooser keeps true: the fetcher is only asked for files under an
   * imported root, the loading icon only follows a fetch, and the list checks
   * exactly the shown targets that are selected.
   */
  predicate Consistent(roots: seq<string>, isParent: (string, string) -> bool, c: Chooser) {
    && (forall k :: 0 <= k < |c.fetched| ==> ActOnSelection(isParent, roots, Some(c.fetched[k])))
    && (c.view.Loading? ==> |c.fetched| > 0)
    && (c.view.Shown? ==> forall k :: 0 <= k < |c.view.items| ==> (c.view.items[k] in c.view.checked <==> c.view.items[k] in c.selected))
  }

  lemma InitialIsConsistent(roots: seq<string>, isParent: (string, string) -> bool, dir: string, importedTargets: seq<string>)
    ensures Consistent(roots, isParent, Initial(dir, importedTargets))
  {
  }

  lemma StepKeepsConsistent(roots: seq<string>, isParent: (string, string) -> bool, c: Chooser, e: Event)
    requires Consistent(roots, isParent, c)
    ensures Consistent(roots, isParent, Step(roots, isParent, c, e))
  {
    var d := Step(roots, isParent, c, e);
    match e
    case Select(selection, done) =>
      if ActOnSelection(isParent, roots, selection) {
        assert forall k :: 0 <= k < |c.fetched| ==> d.fetched[k] == c.fetched[k];
        assert d.fetched[|c.fetched|] == selection.value;
      }
    case Complete(file, outcome) =>
    case Click(index) =>
  }

  lemma {:induction false} RunKeepsConsistent(roots: seq<string>, isParent: (string, string) -> bool, c: Chooser, es: seq<Event>)
    requires Consistent(roots, isParent, c)
    ensures Consistent(roots, isParent, Run(roots, isParent, c, es))
    decreases |es|
  {
    if es != [] {
      RunKeepsConsistent(roots, isParent, c, es[..|es| - 1]);
      StepKeepsConsistent(roots, isParent, Run(roots, isParent, c, es[..|es| - 1]), es[|es| - 1]);
    }
  }

  /**
   * Only a click on a shown target changes the selected targets, and it flips
   * that target alone: a checked one is removed, an unchecked one added.
   */
  lemma ClickTogglesTarget(roots: seq<string>, isParent: (string, string) -> bool, c: Chooser, e: Event)
    requires Consistent(roots, isParent, c)
    ensures !(e.Click? && c.view.Shown? && e.index < |c.view.items|) ==> Step(roots, isParent, c, e).selected == c.selected
    ensures e.Click? && c.view.Shown? && e.index < |c.view.items| ==>
      var item := c.view.items[e.index];
      Step(roots, isParent, c, e).selected == if item in c.selected then c.selected - {item} else c.selected + {item}
  {
  }

  /** Clicking the same shown checkbox twice gives back the selection it started from. */
  lemma DoubleClickRestores(roots: seq<string>, isParent: (string, string) -> bool, c: Chooser, index: nat)
    requires Consistent(roots, isParent, c)
    requires c.view.Shown? && index < |c.view.items|
    ensures Run(roots, isParent, c, [Click(index), Click(index)]).selected == c.selected
  {
    var once := Step(roots, isParent, c, Click(index));
    assert Run(roots, isParent, c, [Click(index), Click(index)]) == Step(roots, isParent, once, Click(index)) by {
      assert [Click(index), Click(index)][..1] == [Click(index)];
      assert [Click(index)][..0] == [];
      assert Run(roots, isParent, c, [Click(index)]) == once;
    }
    StepKeepsConsistent(roots, isParent, c, Click(index));
    assert once.view.items == c.view.items;
  }

  /** Without clicks, browsing the tree and fetching leave the selected targets as they were. */
  lemma {:induction false} NoClicksKeepSelection(roots: seq<string>, isParent: (string, string) -> bool, c: Chooser, es: seq<Event>)
    requires forall k :: 0 <= k < |es| ==> !es[k].Click?
    ensures Run(roots, isParent, c, es).selected == c.selected
    decreases |es|
  {
    if es != [] {
      NoClicksKeepSelection(roots, isParent, c, es[..|es| - 1]);
    }
  }

  /** A chooser nobody clicks in ends with exactly the imported targets selected. */
  lemma UntouchedChooserKeepsImported(roots: seq<string>, isParent: (string, string) -> bool, dir: string,
                                      importedTargets: seq<string>, es: seq<Event>)
    requires forall k :: 0 <= k < |es| ==> !es[k].Click?
    ensures Run(roots, isParent, Initial(dir, importedTargets), es).selected == (set t | t in importedTargets)
  {
    NoClicksKeepSelection(roots, isParent, Initial(dir, importedTargets), es);
  }
}
