/**
 * `bsp/FastpassChooseTargetsPanel`: a file tree beside a checkbox list of the
 * targets of the selected file. Each listener of the source is a method
 * here; each one changes the panel as `TargetChooser.Step` does.
 */
module ChooseTargetsPanel {
  import opened Wrappers
  import opened TargetChooser

  class FastpassChooseTargetsPanel {
    const roots: seq<string>                  // the paths of `myImportedPantsRoots`
    const isParent: (string, string) -> bool  // `Paths.isParent`
    var selectedTargets: set<string>          // `mySelectedTargets`
    var treeSelection: Option<string>         // `myFileSystemTree.getSelectedFile()`
    var view: ListView                        // what `myTargetsListPanel` shows
    var fetched: seq<string>                  // the files `myTargetsListFetcher` was applied to

    function State(): Chooser
      reads this
    {
      Chooser(selectedTargets, treeSelection, view, fetched)
    }

    predicate Valid()
      reads this
    {
      Consistent(roots, isParent, State())
    }

    /** `selectedItems`. */
    function SelectedItems(): set<string>
      reads this
    {
      selectedTargets
    }

    /** A new panel: the imported targets selected, `dir` selected in the tree, an empty list. */
    constructor (dir: string, importedTargets: seq<string>, roots: seq<string>, isParent: (string, string) -> bool)
      ensures Valid()
      ensures this.roots == roots && this.isParent == isParent
      ensures State() == Initial(dir, importedTargets)
    {
      this.roots := roots;
      this.isParent := isParent;
      selectedTargets := set t | t in importedTargets;
      treeSelection := Some(dir);
      view := Shown([], {});
      fetched := [];
    }

    /** The tree selection listener: `handleTreeSelection` and `updateCheckboxList` up to `whenComplete`. */
    method HandleTreeSelection(selection: Option<string>, done: bool)
      requires Valid()
      modifies this
      ensures Valid()
      ensures State() == Step(roots, isParent, old(State()), Select(selection, done))
    {
      StepKeepsConsistent(roots, isParent, State(), Select(selection, done));
      if ActOnSelection(isParent, roots, selection) {
        fetched := fetched + [selection.value];
        if !done {
          view := Loading;
        }
      }
      treeSelection := selection;
    }

    /** The `whenComplete` callback of the future fetched for `file`. */
    method FetchCompleted(file: string, outcome: Option<seq<string>>)
      requires Valid()
      modifies this
      ensures Valid()
      ensures State() == Step(roots, isParent, old(State()), Complete(file, outcome))
    {
      StepKeepsConsistent(roots, isParent, State(), Complete(file, outcome));
      if file in fetched && treeSelection == Some(file) {
        if outcome.Some? {
          view := Shown(outcome.value, selectedTargets);
        } else {
          view := Shown([], {});
        }
      }
    }

    /** The checkbox listener: the clicked box flips, and its target is added or removed. */
    method ClickItem(index: nat)
      requires Valid()
      modifies this
      ensures Valid()
      ensures State() == Step(roots, isParent, old(State()), Click(index))
    {
      StepKeepsConsistent(roots, isParent, State(), Click(index));
      if view.Shown? && index < |view.items| {
        var item := view.items[index];
        if item in view.checked {
          view := view.(checked := view.checked - {item});
          selectedTargets := selectedTargets - {item};
        } else {
          view := view.(checked := view.checked + {item});
          selectedTargets := selectedTargets + {item};
        }
      }
    }
  }
}
