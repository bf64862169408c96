/**
 * `compiler/actions/FastpassManager`: the dialog copy of the target chooser,
 * whose tree and list are built by `createCenterPanel` during `init`, and
 * `promptForTargetsToImport`, which shows it and returns a copy of the
 * selection when the user presses OK.
 */
module ActionsFastpassManager {
  import opened Wrappers
  import opened TargetChooser

  class FastpassManager {
    const roots: seq<string>                  // the paths of `myImportedPantsRoots`
    const isParent: (string, string) -> bool  // `Paths.isParent`
    var selectedTargets: set<string>          // `mySelectedTargets`
    var treeSelection: Option<string>         // `myFileSystemTree.getSelectedFile()`
    var view: ListView                        // what `myTargetsListPanel` shows
    var fetched: seq<string>                  // the files `myTargetsListFetcher` was applied to

    function State(): Chooser
      reads this
    {
      Chooser(selectedTargets, treeSelection, view, fetched)
    }

    predicate Valid()
      reads this
    {
      Consistent(roots, isParent, State())
    }

    /** `selectedItems`. */
    function SelectedItems(): set<string>
      reads this
    {
      selectedTargets
    }

    /** The constructor and `createCenterPanel`: the imported targets selected, `dir` selected, an empty list. */
    constructor (dir: string, importedTargets: seq<string>, roots: seq<string>, isParent: (string, string) -> bool)
      ensures Valid()
      ensures this.roots == roots && this.isParent == isParent
      ensures State() == Initial(dir, importedTargets)
    {
      this.roots := roots;
      this.isParent := isParent;
      selectedTargets := set t | t in importedTargets;
      treeSelection := Some(dir);
      view := Shown([], {});
      fetched := [];
    }

    /** The tree selection listener: `handleTreeSelection` and `updateCheckboxList` up to `whenComplete`. */
    method HandleTreeSelection(selection: Option<string>, done: bool)
      requires Valid()
      modifies this
      ensures Valid()
      ensures State() == Step(roots, isParent, old(State()), Select(selection, done))
    {
      StepKeepsConsistent(roots, isParent, State(), Select(selection, done));
      if ActOnSelection(isParent, roots, selection) {
        fetched := fetched + [selection.value];
        if !done {
          view := Loading;
        }
      }
      treeSelection := selection;
    }

    /** The `whenComplete` callback of the future fetched for `file`. */
    method FetchCompleted(file: string, outcome: Option<seq<string>>)
      requires Valid()
      modifies this
      ensures Valid()
      ensures State() == Step(roots, isParent, old(State()), Complete(file, outcome))
    {
      StepKeepsConsistent(roots, isParent, State(), Complete(file, outcome));
      if file in fetched && treeSelection == Some(file) {
        if outcome.Some? {
          view := Shown(outcome.value, selectedTargets);
        } else {
          view := Shown([], {});
        }
      }
    }

    /** The checkbox listener: the clicked box flips, and its target is added or removed. */
    method ClickItem(index: nat)
      requires Valid()
      modifies this
      ensures Valid()
      ensures State() == Step(roots, isParent, old(State()), Click(index))
    {
      StepKeepsConsistent(roots, isParent, State(), Click(index));
      if view.Shown? && index < |view.items| {
        var item := view.items[index];
        if item in view.checked {
          view := view.(checked := view.checked - {item});
          selectedTargets := selectedTargets - {item};
        } else {
          view := view.(checked := view.checked + {item});
          selectedTargets := selectedTargets + {item};
        }
      }
    }

    /** One event, sent to the listener it is for. */
    method Handle(e: Event)
      requires Valid()
      modifies this
      ensures Valid()
      ensures State() == Step(roots, isParent, old(State()), e)
    {
      match e
      case Select(selection, done) => HandleTreeSelection(selection, done);
      case Complete(file, outcome) => FetchCompleted(file, outcome);
      case Click(index) => ClickItem(index);
    }

    /**
     * `promptForTargetsToImport`: the dialog shown while `events` happen, then
     * closed with OK or not. OK gives the targets selected at that moment;
     * anything else gives nothing.
     */
    static method PromptForTargetsToImport(dir: string, importedTargets: seq<string>, roots: seq<string>,
                                           isParent: (string, string) -> bool, events: seq<Event>, ok: bool)
      returns (r: Option<set<string>>)
      ensures r.Some? <==> ok
      ensures ok ==> r.value == Run(roots, isParent, Initial(dir, importedTargets), events).selected
    {
      var dial := new FastpassManager(dir, importedTargets, roots, isParent);
      var i := 0;
      while i < |events|
        invariant 0 <= i <= |events|
        invariant dial.Valid() && dial.roots == roots && dial.isParent == isParent
        invariant dial.State() == Run(roots, isParent, Initial(dir, importedTargets), events[..i])
      {
        assert events[..i + 1][..i] == events[..i];
        dial.Handle(events[i]);
        i := i + 1;
      }
      assert events[..|events|] == events;
      if ok {
        r := Some(dial.SelectedItems());
      } else {
        r := None;
      }
    }
  }
}
