/**
 * `FastpassImportedAddressesEditor`: the editor of one directory's selection.
 * It shows the directory's targets as a checkbox list, checked when selected,
 * and two boxes, "all in directory" (flat) and "all in directory and below"
 * (deep). Checking either box selects the whole directory and disables the
 * list and the other box; each change is reported through `update`, whose
 * calls the model records in `emitted`.
 */
module ImportedAddressesEditor {
  import opened Wrappers
  import Bsp = BspTargetAddress

  type Address = Bsp.PantsTargetAddress

  /** Which directory-wide box the editor starts with. */
  datatype InitialBox = FlatBox | DeepBox | NoBox

  /** Some selected address at `path` has kind `kind`. */
  predicate SelectedAt(selected: set<Address>, path: string, kind: Bsp.AddressKind) {
    exists a :: a in selected && a.path == path && a.kind == kind
  }

  /**
   * The initial box: flat when some selected address at `path` is flat, else
   * deep when one is deep, else none, which is exactly when every selected
   * address at `path` is a single target.
   */
  function InitialState(selected: set<Address>, path: string): (b: InitialBox)
    ensures b == NoBox <==> forall a :: a in selected && a.path == path ==> a.kind == Bsp.SingleTargets
  {
    if SelectedAt(selected, path, Bsp.AllTargetsFlat) then FlatBox
    else if SelectedAt(selected, path, Bsp.AllTargetsDeep) then DeepBox
    else NoBox
  }

  /** Flat wins over deep; deep is chosen only without a flat address at the path. */
  lemma FlatWinsOverDeep(selected: set<Address>, path: string)
    ensures InitialState(selected, path) == FlatBox <==> SelectedAt(selected, path, Bsp.AllTargetsFlat)
    ensures InitialState(selected, path) == DeepBox <==>
      !SelectedAt(selected, path, Bsp.AllTargetsFlat) && SelectedAt(selected, path, Bsp.AllTargetsDeep)
  {
  }

  /** Addresses at other paths never change the initial box. */
  lemma InitialStateIgnoresOtherPaths(s1: set<Address>, s2: set<Address>, path: string)
    requires forall a: Address :: a.path == path ==> (a in s1 <==> a in s2)
    ensures InitialState(s1, path) == InitialState(s2, path)
  {
    SelectedAtSamePath(s1, s2, path, Bsp.AllTargetsFlat);
    SelectedAtSamePath(s1, s2, path, Bsp.AllTargetsDeep);
  }

  lemma SelectedAtSamePath(s1: set<Address>, s2: set<Address>, path: string, kind: Bsp.AddressKind)
    requires forall a: Address :: a.path == path ==> (a in s1 <==> a in s2)
    ensures SelectedAt(s1, path, kind) <==> SelectedAt(s2, path, kind)
  {
    if SelectedAt(s1, path, kind) {
      var a :| a in s1 && a.path == path && a.kind == kind;
      assert a in s2;
    }
    if SelectedAt(s2, path, kind) {
      var a :| a in s2 && a.path == path && a.kind == kind;
      assert a in s1;
    }
  }

  /** The list the checkbox listener reports: the checked items, in list order. */
  function CheckedItems(items: seq<Address>, checked: seq<bool>): (r: seq<Address>)
    requires |checked| == |items|
    ensures |r| <= |items|
    ensures forall a :: a in r <==> exists i :: 0 <= i < |items| && checked[i] && items[i] == a
  {
    if items == [] then []
    else
      var rest := CheckedItems(items[1..], checked[1..]);
      assert forall a :: a in rest <==> exists i :: 1 <= i < |items| && checked[i] && items[i] == a by {
        forall a | a in rest ensures exists i :: 1 <= i < |items| && checked[i] && items[i] == a {
          var j :| 0 <= j < |items[1..]| && checked[1..][j] && items[1..][j] == a;
          assert checked[j + 1] && items[j + 1] == a;
        }
        forall a | exists i :: 1 <= i < |items| && checked[i] && items[i] == a ensures a in rest {
          var i :| 1 <= i < |items| && checked[i] && items[i] == a;
          assert checked[1..][i - 1] && items[1..][i - 1] == a;
        }
      }
      (if checked[0] then [items[0]] else []) + rest
  }

  /** Checking every item reports the whole list. */
  lemma {:induction false} CheckedItemsAll(items: seq<Address>, checked: seq<bool>)
    requires |checked| == |items| && forall i :: 0 <= i < |checked| ==> checked[i]
    ensures CheckedItems(items, checked) == items
  {
    if items != [] {
      CheckedItemsAll(items[1..], checked[1..]);
    }
  }

  /** Checking no item reports nothing. */
  lemma {:induction false} CheckedItemsNone(items: seq<Address>, checked: seq<bool>)
    requires |checked| == |items| && forall i :: 0 <= i < |checked| ==> !checked[i]
    ensures CheckedItems(items, checked) == []
  {
    if items != [] {
      CheckedItemsNone(items[1..], checked[1..]);
    }
  }

  /** The single address a directory-wide box reports. */
  function WholeDirectory(path: string, kind: Bsp.AddressKind): Address {
    Bsp.PantsTargetAddress(path, kind, None)
  }

  class FastpassImportedAddressesEditor {
    const items: seq<Address>
    const path: string
    var checked: seq<bool>
    var listEnabled: bool
    var flatSelected: bool
    var flatEnabled: bool
    var deepSelected: bool
    var deepEnabled: bool
    /** The arguments of every `update` call so far. */
    var emitted: seq<seq<Address>>

    /**
     * At most one box is checked. A checked box disables the list and the
     * other box and stays enabled itself; with neither checked all three
     * controls are enabled.
     */
    ghost predicate Valid()
      reads this
    {
      && |checked| == |items|
      && (deepSelected ==> !flatSelected && deepEnabled && !flatEnabled && !listEnabled)
      && (flatSelected ==> !deepSelected && flatEnabled && !deepEnabled && !listEnabled)
      && (!deepSelected && !flatSelected ==> listEnabled && flatEnabled && deepEnabled)
    }

    /**
     * The constructor: each item is checked iff selected; listeners are
     * attached before the initial box is set, so an initially checked box
     * reports its directory-wide address at once.
     */
    constructor (value: seq<Address>, selected: set<Address>, path: string)
      ensures Valid()
      ensures items == value && this.path == path
      ensures |checked| == |value| && forall i :: 0 <= i < |value| ==> checked[i] == (value[i] in selected)
      ensures flatSelected <==> InitialState(selected, path) == FlatBox
      ensures deepSelected <==> InitialState(selected, path) == DeepBox
      ensures emitted == match InitialState(selected, path)
        case FlatBox => [[WholeDirectory(path, Bsp.AllTargetsFlat)]]
        case DeepBox => [[WholeDirectory(path, Bsp.AllTargetsDeep)]]
        case NoBox => []
    {
      items := value;
      this.path := path;
      checked := seq(|value|, i requires 0 <= i < |value| => value[i] in selected);
      listEnabled := true;
      flatSelected, flatEnabled := false, true;
      deepSelected, deepEnabled := false, true;
      emitted := [];
      new;
      var initial := InitialState(selected, path);
      if initial == FlatBox {
        SetFlatSelected(true);
      } else if initial == DeepBox {
        SetDeepSelected(true);
      } else {
        SetDeepSelected(false);
        SetFlatSelected(false);
      }
    }

    /**
     * `updateEnablement`, run by either box's item listener: deep is tested
     * first and reports the deep address, then flat reports the flat address;
     * with neither checked nothing is reported and every control is enabled.
     */
    method UpdateEnablement()
      modifies this
      ensures checked == old(checked) && flatSelected == old(flatSelected) && deepSelected == old(deepSelected)
      ensures old(deepSelected) ==>
        && emitted == old(emitted) + [[WholeDirectory(path, Bsp.AllTargetsDeep)]]
        && !listEnabled && !flatEnabled && deepEnabled == old(deepEnabled)
      ensures !old(deepSelected) && old(flatSelected) ==>
        && emitted == old(emitted) + [[WholeDirectory(path, Bsp.AllTargetsFlat)]]
        && !listEnabled && !deepEnabled && flatEnabled == old(flatEnabled)
      ensures !old(deepSelected) && !old(flatSelected) ==>
        emitted == old(emitted) && listEnabled && deepEnabled && flatEnabled
    {
      if deepSelected {
        emitted := emitted + [[WholeDirectory(path, Bsp.AllTargetsDeep)]];
        listEnabled := false;
        flatEnabled := false;
      } else if flatSelected {
        emitted := emitted + [[WholeDirectory(path, Bsp.AllTargetsFlat)]];
        listEnabled := false;
        deepEnabled := false;
      } else {
        listEnabled := true;
        deepEnabled := true;
        flatEnabled := true;
      }
    }

    /** `JCheckBox.setSelected` on the flat box: the listener runs only when the state changes. */
    method SetFlatSelected(b: bool)
      requires Valid()
      requires b ==> !deepSelected
      modifies this
      ensures Valid()
      ensures checked == old(checked) && flatSelected == b && deepSelected == old(deepSelected)
      ensures b == old(flatSelected) ==> emitted == old(emitted)
      ensures b && !old(flatSelected) ==> emitted == old(emitted) + [[WholeDirectory(path, Bsp.AllTargetsFlat)]]
      ensures !b && old(flatSelected) ==> emitted == old(emitted)
    {
      if b != flatSelected {
        flatSelected := b;
        UpdateEnablement();
      }
    }

    /** `JCheckBox.setSelected` on the deep box. */
    method SetDeepSelected(b: bool)
      requires Valid()
      requires b ==> !flatSelected
      modifies this
      ensures Valid()
      ensures checked == old(checked) && deepSelected == b && flatSelected == old(flatSelected)
      ensures b == old(deepSelected) ==> emitted == old(emitted)
      ensures b && !old(deepSelected) ==> emitted == old(emitted) + [[WholeDirectory(path, Bsp.AllTargetsDeep)]]
      ensures !b && old(deepSelected) ==> emitted == old(emitted)
    {
      if b != deepSelected {
        deepSelected := b;
        UpdateEnablement();
      }
    }

    /** A click on the flat box: ignored while it is disabled, otherwise it toggles. */
    method ClickFlat()
      requires Valid()
      modifies this
      ensures Valid()
      ensures checked == old(checked) && deepSelected == old(deepSelected)
      ensures !old(flatEnabled) ==> flatSelected == old(flatSelected) && emitted == old(emitted)
      ensures old(flatEnabled) && !old(flatSelected) ==>
        flatSelected && emitted == old(emitted) + [[WholeDirectory(path, Bsp.AllTargetsFlat)]]
      ensures old(flatEnabled) && old(flatSelected) ==>
        !flatSelected && emitted == old(emitted) && listEnabled && deepEnabled && flatEnabled
    {
      if flatEnabled {
        SetFlatSelected(!flatSelected);
      }
    }

    /** A click on the deep box: ignored while it is disabled, otherwise it toggles. */
    method ClickDeep()
      requires Valid()
      modifies this
      ensures Valid()
      ensures checked == old(checked) && flatSelected == old(flatSelected)
      ensures !old(deepEnabled) ==> deepSelected == old(deepSelected) && emitted == old(emitted)
      ensures old(deepEnabled) && !old(deepSelected) ==>
        deepSelected && emitted == old(emitted) + [[WholeDirectory(path, Bsp.AllTargetsDeep)]]
      ensures old(deepEnabled) && old(deepSelected) ==>
        !deepSelected && emitted == old(emitted) && listEnabled && deepEnabled && flatEnabled
    {
      if deepEnabled {
        SetDeepSelected(!deepSelected);
      }
    }

    /**
     * A click on item `index` of the list: ignored while the list is disabled;
     * otherwise the item toggles and the listener reports every checked item.
     */
    method ClickItem(index: nat)
      requires Valid() && index < |items|
      modifies this
      ensures Valid()
      ensures flatSelected == old(flatSelected) && deepSelected == old(deepSelected)
      ensures listEnabled == old(listEnabled) && flatEnabled == old(flatEnabled) && deepEnabled == old(deepEnabled)
      ensures !old(listEnabled) ==> checked == old(checked) && emitted == old(emitted)
      ensures old(listEnabled) ==>
        && checked == old(checked)[index := !old(checked)[index]]
        && emitted == old(emitted) + [CheckedItems(items, checked)]
    {
      if listEnabled {
        checked := checked[index := !checked[index]];
        emitted := emitted + [CheckedItems(items, checked)];
      }
    }
  }
}
