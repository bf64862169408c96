# Fastpass amend: target addresses, jar paths, caches and choosers

A Dafny model of the target-address part of the Fastpass "amend" feature in the
IntelliJ Pants plugin. Fastpass imports a Pants workspace through a BSP project
directory. The amend action lets the user pick the imported targets again and
re-imports when the set changed. The model covers:

- the `PantsTargetAddress` value type in its two copies (`bsp`, with a `Path`
  path, and `bsp.ui`, with a `String` path) and its wire forms `path:target`,
  `path:` and `path::`. Java's `String.split` is modelled exactly: trailing
  empty pieces are dropped;
- `jarPathToTarget`, which maps a file inside a built jar to the target that
  built it, and `decodeJarPath`, which is known only from its unit tests;
- the two target-list caches, one built on `computeIfAbsent` and one on
  get-then-put, as classes over a `map` with a log of fetches; the fetcher
  is given the number of earlier calls, so its answer may differ from call to call;
- the per-directory selection editor, as a class of checkbox states whose
  `update` calls are recorded;
- the target chooser shared by `FastpassChooseTargetsPanel` and the
  `FastpassManager` dialog, as one state machine with a class per copy;
- the pure parts of `bsp/FastpassUtils`: command lines, environment, working
  directory, reading of exit codes and of `info` output, the query path of
  `availableTargetsIn`, and `toStream`;
- the decisions of `bsp/FastpassBspAmendAction`, as the sequence of effects
  an action has.

Java's `java.nio.file.Path` on Unix is modelled in `FilePaths`, and the string
operations the code relies on (`split`, `String.join`, `endsWith`,
`contains`) are modelled in `JavaStrings`.

## Model

| member | source | states |
|---|---|---|
| BspTargetAddress.ToAddressString | src/com/twitter/intellij/pants/bsp/PantsTargetAddress.java:33-40 | `path:target` for a single target, `path:` for a flat address, `path::` for a deep one; fails with `NoSuchElement` exactly for a single-target address without a target |
| BspTargetAddress.FromString | src/com/twitter/intellij/pants/bsp/PantsTargetAddress.java:42-54 | a parsed address has a colon-free path; it has a non-empty colon-free target exactly when its kind is single; its errors are never `NoSuchElement` |
| BspTargetAddress.ParseSingleExample | tests/com/twitter/intellij/pants/bsp/PantsTargetAddressTest.java:11-14 | `project:target` parses to the single target `target` at `project` |
| BspTargetAddress.ParseDeepExample | tests/com/twitter/intellij/pants/bsp/PantsTargetAddressTest.java:16-19 | `project::` parses to every target below `project` |
| BspTargetAddress.ParseFlatExample | tests/com/twitter/intellij/pants/bsp/PantsTargetAddressTest.java:21-25 | `project:` parses to every target directly in `project` |
| BspTargetAddress.ParseSingle | src/com/twitter/intellij/pants/bsp/PantsTargetAddress.java:43-46 | `p:t` with a colon-free `p` and a non-empty colon-free `t` is that single target |
| BspTargetAddress.ParseFlat | src/com/twitter/intellij/pants/bsp/PantsTargetAddress.java:49-50 | `p:` with a non-empty colon-free `p` is the flat address of `p` |
| BspTargetAddress.ParseDeep | src/com/twitter/intellij/pants/bsp/PantsTargetAddress.java:47-48 | `p::` with a non-empty colon-free `p` is the deep address of `p` |
| BspTargetAddress.ParseSingleWinsOverTrailingColon | src/com/twitter/intellij/pants/bsp/PantsTargetAddress.java:43-46 | the two-piece test runs first, so `p:t:` is the single target `t`, not a flat address |
| BspTargetAddress.ParseWithoutTrailingColon | src/com/twitter/intellij/pants/bsp/PantsTargetAddress.java:43-52 | without a trailing colon, parsing succeeds iff the input holds exactly one colon and then splits there; otherwise the error message embeds the input |
| BspTargetAddress.ParseOnlyColons | src/com/twitter/intellij/pants/bsp/PantsTargetAddress.java:43-50 | a run of colons splits into no pieces, so taking the first piece fails with `ArrayIndexOutOfBounds` |
| BspTargetAddress.ParsedPathIsPrefix | src/com/twitter/intellij/pants/bsp/PantsTargetAddress.java:43-50 | a parsed path is the raw text before the first colon |
| BspTargetAddress.RoundTrip | src/com/twitter/intellij/pants/bsp/PantsTargetAddress.java:33-54 | for a well-formed address (colon-free parts, a non-empty target exactly for the single kind, a non-empty path for the directory kinds), parsing the serialised form gives the address back |
| BspTargetAddress.Equals | src/com/twitter/intellij/pants/bsp/PantsTargetAddress.java:68-76 | `equals` compares path, kind and target, so it holds exactly for equal values |
| BspTargetAddress.HashCode | src/com/twitter/intellij/pants/bsp/PantsTargetAddress.java:78-81 | `Objects.hash` of the three fields, wrapped to 32 bits |
| BspTargetAddress.HashCodeAgreesWithEquals | src/com/twitter/intellij/pants/bsp/PantsTargetAddress.java:68-81 | equal addresses have equal hash codes, whatever hash codes the enum constants have |
| UiTargetAddress.ToAddressString | src/com/twitter/intellij/pants/bsp/ui/PantsTargetAddress.java:33-40 | `path:target` for a single target, `path:` for a flat address, `path::` for a recursive one; fails with `NoSuchElement` exactly for a single-target address without a target |
| UiTargetAddress.FromString | src/com/twitter/intellij/pants/bsp/ui/PantsTargetAddress.java:42-54 | the explicit parse error carries an empty message |
| UiTargetAddress.SerialisationAgreesWithBsp | src/com/twitter/intellij/pants/bsp/ui/PantsTargetAddress.java:33-40 | writes the same string as the `bsp` copy for the corresponding address (recursive is deep) |
| UiTargetAddress.ParsingAgreesWithBsp | src/com/twitter/intellij/pants/bsp/ui/PantsTargetAddress.java:42-54 | reads every string as the `bsp` copy does: same success, the corresponding address, the same errors but for the empty message |
| UiTargetAddress.ParsedPathIsPrefix | src/com/twitter/intellij/pants/bsp/ui/PantsTargetAddress.java:46-50 | the stored path is the raw text before the first colon, not normalised |
| UiTargetAddress.ParseWithoutTrailingColon | src/com/twitter/intellij/pants/bsp/ui/PantsTargetAddress.java:43-52 | without a trailing colon, parsing succeeds iff there is exactly one colon; otherwise it raises the empty-message error |
| UiTargetAddress.RoundTrip | src/com/twitter/intellij/pants/bsp/ui/PantsTargetAddress.java:33-54 | parsing the serialised form of a well-formed address gives the address back |
| UiTargetAddress.Equals | src/com/twitter/intellij/pants/bsp/ui/PantsTargetAddress.java:68-76 | `equals` compares path, kind and target, so it holds exactly for equal values |
| UiTargetAddress.ToBsp | src/com/twitter/intellij/pants/bsp/ui/PantsTargetAddress.java:17-31 | the `bsp` address with the same path and target, flat for flat, deep for recursive and single for single |
| UiTargetAddress.HashCode | src/com/twitter/intellij/pants/bsp/ui/PantsTargetAddress.java:78-81 | `Objects.hash` of the three fields, wrapped to 32 bits |
| UiTargetAddress.HashCodeAgreesWithEquals | src/com/twitter/intellij/pants/bsp/ui/PantsTargetAddress.java:68-81 | equal addresses have equal hash codes |
| FilePaths.Of | src/com/twitter/intellij/pants/bsp/FastpassUtils.java:53 | `Paths.get`: the names of a parsed path are non-empty and hold no `/` |
| FilePaths.Parent | src/com/twitter/intellij/pants/bsp/AmendEditorNotificationsProvider.java:67-70 | `getParent` drops the last name; there is no parent for the root, the empty path or a single relative name |
| FilePaths.FileName | src/com/twitter/intellij/pants/bsp/AmendEditorNotificationsProvider.java:71-72 | `getFileName` is the last name; only the root has none |
| FilePaths.OfToString | src/com/twitter/intellij/pants/bsp/FastpassUtils.java:53 | `Paths.get(p.toString())` is `p` again for a path `Paths.get` can produce |
| FilePaths.ToString | src/com/twitter/intellij/pants/bsp/FastpassUtils.java:90 | `toString` of an absolute path starts with `/`; `OfToString` reads it back as the same path |
| FilePaths.Resolve | src/com/twitter/intellij/pants/bsp/FastpassUtils.java:114 | `Paths.get(first, name)` with a non-empty separator-free name is the path `first` denotes with `name` appended |
| JarPathDecoder.Ancestry | src/com/twitter/intellij/pants/bsp/AmendEditorNotificationsProvider.java:67-70 | the iteration of `getParent` limited to 100 yields exactly that many paths |
| JarPathDecoder.ExaminedNames | src/com/twitter/intellij/pants/bsp/AmendEditorNotificationsProvider.java:67-73 | the names examined are the path's names, leaf first, at most 100 of them, so nothing above the hundredth ancestor is seen; the root yields no name and the empty path the empty name |
| JarPathDecoder.AncestryNames | src/com/twitter/intellij/pants/bsp/AmendEditorNotificationsProvider.java:67-73 | the file names of `n` ancestors are the last `n` names of the path, leaf first |
| JarPathDecoder.FirstJarName | src/com/twitter/intellij/pants/bsp/AmendEditorNotificationsProvider.java:74-75 | none iff no name ends with `.jar!`; otherwise the first such name, with no earlier name ending with `.jar!` |
| JarPathDecoder.Stem | src/com/twitter/intellij/pants/bsp/AmendEditorNotificationsProvider.java:76-80 | the stem is a prefix of the jar name, 13 characters shorter when the name contains `-sources`, else 5 |
| JarPathDecoder.TargetOfParts | src/com/twitter/intellij/pants/bsp/AmendEditorNotificationsProvider.java:81-84 | the pieces but the last joined by `/`, a colon, then the last piece; no pieces fail as `limit(-1)` does |
| JarPathDecoder.DecodeJarName | src/com/twitter/intellij/pants/bsp/AmendEditorNotificationsProvider.java:75-85 | fails (as `limit(-1)`) exactly when the stem is a non-empty run of dots; a decoded target holds a colon and no dot |
| JarPathDecoder.JarPathToTarget | src/com/twitter/intellij/pants/bsp/AmendEditorNotificationsProvider.java:64-86 | empty iff no examined name ends with `.jar!`; otherwise the decoding of the leaf-most such name |
| JarPathDecoder.DecodeArtifactName | src/com/twitter/intellij/pants/bsp/AmendEditorNotificationsProvider.java:76-84 | for dot-free directories and target, and no `-sources` in a class jar's name, the jar name a build writes decodes back to `dir1/.../dirN:target` |
| JarPathDecoder.StemOfArtifact | src/com/twitter/intellij/pants/bsp/AmendEditorNotificationsProvider.java:76-80 | removing the jar suffix gives back what precedes it |
| JarPathDecoder.NoNamesAboveSingleName | src/com/twitter/intellij/pants/bsp/AmendEditorNotificationsProvider.java:67-73 | above a path of one name there is no further file name |
| JarPathDecoder.FileInsideTmpJar | tests/com/twitter/intellij/pants/bsp/ExtractPantsTargetsFromJarPath.java:12-30 | `/tmp/<jar>/myFile` decodes to the target its jar name decodes to |
| JarPathDecoder.OneDirectoryArtifact | tests/com/twitter/intellij/pants/bsp/ExtractPantsTargetsFromJarPath.java:12-15 | `dir.target.jar!` and `dir.target-sources.jar!` decode to `dir:target` |
| JarPathDecoder.TwoDirectoryArtifact | tests/com/twitter/intellij/pants/bsp/ExtractPantsTargetsFromJarPath.java:17-20 | `d1.d2.target[-sources].jar!` decodes to `d1/d2:target` |
| JarPathDecoder.FlatDirectoryExample | tests/com/twitter/intellij/pants/bsp/ExtractPantsTargetsFromJarPath.java:12-15 | `/tmp/directory.targetname.jar!/myFile` decodes to `directory:targetname` |
| JarPathDecoder.NestedDirectoryExample | tests/com/twitter/intellij/pants/bsp/ExtractPantsTargetsFromJarPath.java:17-20 | `/tmp/dirparent.dirchild.targetname.jar!/myFile` decodes to `dirparent/dirchild:targetname` |
| JarPathDecoder.SourcesJarExample | tests/com/twitter/intellij/pants/bsp/ExtractPantsTargetsFromJarPath.java:22-25 | the `-sources` jar of the flat example decodes to the same target |
| JarPathDecoder.NestedSourcesJarExample | tests/com/twitter/intellij/pants/bsp/ExtractPantsTargetsFromJarPath.java:27-30 | the `-sources` jar of the nested example decodes to the same target |
| JarPathDecoder.NoJarExample | src/com/twitter/intellij/pants/bsp/AmendEditorNotificationsProvider.java:74-75 | `/tmp/abc` has no jar name and names no target |
| JarPathDecoder.SourcesInsideNameMisdecoded | src/com/twitter/intellij/pants/bsp/AmendEditorNotificationsProvider.java:76-80 | as written, the class jar of `a:test-sources-util` decodes to `a:test-sour` |
| JarPathDecoder.StemBySuffix | src/com/twitter/intellij/pants/bsp/AmendEditorNotificationsProvider.java:76-80 | corrected stem: the name is the stem followed by `-sources.jar!` when it ends with it, else by `.jar!` |
| JarPathDecoder.DecodeJarNameBySuffix | src/com/twitter/intellij/pants/bsp/AmendEditorNotificationsProvider.java:76-84 | the corrected decoder of one name fails exactly when its corrected stem is a non-empty run of dots; a decoded target holds a colon and no dot |
| JarPathDecoder.JarPathToTargetBySuffix | src/com/twitter/intellij/pants/bsp/AmendEditorNotificationsProvider.java:64-86 | the decoder with the corrected stem: empty iff no examined name ends with `.jar!`, else the leaf-most one decoded |
| JarPathDecoder.DecodeArtifactNameBySuffix | src/com/twitter/intellij/pants/bsp/AmendEditorNotificationsProvider.java:76-84 | the corrected decoder inverts the artifact naming for every non-empty dot-free target and dot-free directories, `-sources` inside the name or not, except a class jar of a target that itself ends with `-sources`, which is spelled like a sources jar |
| JarPathDecoder.StemBySuffixOfArtifact | src/com/twitter/intellij/pants/bsp/AmendEditorNotificationsProvider.java:76-80 | the corrected stem of `j` plus a jar suffix is `j` |
| JarPathDecoder.DecodersAgreeWithoutMarker | src/com/twitter/intellij/pants/bsp/AmendEditorNotificationsProvider.java:76-80 | both decoders agree on jar names without `-sources` |
| JarPathDecoder.DecodersAgreeOnSourcesJars | src/com/twitter/intellij/pants/bsp/AmendEditorNotificationsProvider.java:76-80 | both decoders agree on names ending with `-sources.jar!`, so the unit tests hold for both |
| JarPathDecoder.SourcesInsideNameDecoded | src/com/twitter/intellij/pants/bsp/AmendEditorNotificationsProvider.java:76-80 | the corrected decoder reads the class jar of `a:test-sources-util` right |
| JarPathDecoder.DecodeJarPath | tests/com/twitter/intellij/pants/bsp/DecodeJarPathTest.java:11-23 | no target unless some examined name is `bloop-jars`; then none iff no examined name ends with `.jar!`, else the leaf-most such name read by the corrected decoder |
| JarPathDecoder.DecodeJarPathOutsideBloopJars | tests/com/twitter/intellij/pants/bsp/DecodeJarPathTest.java:12-18 | `/tmp/abc` and `/tmp/main.jar!` name no target |
| JarPathDecoder.DecodeJarPathInsideBloopJars | tests/com/twitter/intellij/pants/bsp/DecodeJarPathTest.java:20-22 | `/tmp/bloop-jars/dir.target.jar!` names `dir:target` |
| BspTargetListCache.FastpassTargetListCache.constructor | src/com/twitter/intellij/pants/bsp/FastpassTargetListCache.java:16 | a new cache is empty and nothing has been fetched |
| BspTargetListCache.FastpassTargetListCache.GetTargetsList | src/com/twitter/intellij/pants/bsp/FastpassTargetListCache.java:20-22 | a hit returns the stored value and fetches nothing; a miss stores and returns what the fetcher answers on that call; no entry is removed or replaced; each key is fetched at most once |
| ActionsTargetListCache.FastpassTargetListCache.constructor | src/com/twitter/intellij/pants/compiler/actions/FastpassTargetListCache.java:16 | a new cache is empty and nothing has been fetched |
| ActionsTargetListCache.FastpassTargetListCache.Get | src/com/twitter/intellij/pants/compiler/actions/FastpassTargetListCache.java:20 | `cache.get`: the stored value, or none when the key is absent |
| ActionsTargetListCache.FastpassTargetListCache.GetTargetsList | src/com/twitter/intellij/pants/compiler/actions/FastpassTargetListCache.java:19-28 | a stored value is returned unchanged and nothing is fetched; on a miss the fetcher's answer on that call is put and that same value returned; other keys are unchanged; each key is fetched at most once |
| ImportedAddressesEditor.InitialState | src/com/twitter/intellij/pants/bsp/ui/FastpassImportedAddressesEditor.java:70-82 | no box exactly when every selected address at the path is a single target |
| ImportedAddressesEditor.FlatWinsOverDeep | src/com/twitter/intellij/pants/bsp/ui/FastpassImportedAddressesEditor.java:70-73 | flat iff a flat address is selected at the path; deep iff a deep one is and no flat one |
| ImportedAddressesEditor.InitialStateIgnoresOtherPaths | src/com/twitter/intellij/pants/bsp/ui/FastpassImportedAddressesEditor.java:70-79 | addresses at other paths never change the initial box |
| ImportedAddressesEditor.CheckedItems | src/com/twitter/intellij/pants/bsp/ui/FastpassImportedAddressesEditor.java:92-98 | the reported list holds exactly the checked items |
| ImportedAddressesEditor.CheckedItemsAll | src/com/twitter/intellij/pants/bsp/ui/FastpassImportedAddressesEditor.java:93-97 | with every item checked the whole list is reported, in order |
| ImportedAddressesEditor.CheckedItemsNone | src/com/twitter/intellij/pants/bsp/ui/FastpassImportedAddressesEditor.java:93-97 | with no item checked nothing is reported |
| ImportedAddressesEditor.FastpassImportedAddressesEditor.constructor | src/com/twitter/intellij/pants/bsp/ui/FastpassImportedAddressesEditor.java:67-82 | items start checked iff selected; the initial box is set after the listeners are attached, so a checked box reports its directory-wide address at once |
| ImportedAddressesEditor.FastpassImportedAddressesEditor.UpdateEnablement | src/com/twitter/intellij/pants/bsp/ui/FastpassImportedAddressesEditor.java:50-65 | deep first reports the deep address and disables the list and the flat box; then flat does the same; with neither checked nothing is reported and all is enabled |
| ImportedAddressesEditor.FastpassImportedAddressesEditor.SetFlatSelected | src/com/twitter/intellij/pants/bsp/ui/FastpassImportedAddressesEditor.java:67-71 | setting the flat box runs the listener only on a change of state |
| ImportedAddressesEditor.FastpassImportedAddressesEditor.SetDeepSelected | src/com/twitter/intellij/pants/bsp/ui/FastpassImportedAddressesEditor.java:68-73 | setting the deep box runs the listener only on a change of state |
| ImportedAddressesEditor.FastpassImportedAddressesEditor.ClickFlat | src/com/twitter/intellij/pants/bsp/ui/FastpassImportedAddressesEditor.java:50-67 | a click on the enabled flat box toggles it and reports as `updateEnablement`; a disabled box ignores it |
| ImportedAddressesEditor.FastpassImportedAddressesEditor.ClickDeep | src/com/twitter/intellij/pants/bsp/ui/FastpassImportedAddressesEditor.java:50-68 | a click on the enabled deep box toggles it and reports as `updateEnablement`; a disabled box ignores it |
| ImportedAddressesEditor.FastpassImportedAddressesEditor.ClickItem | src/com/twitter/intellij/pants/bsp/ui/FastpassImportedAddressesEditor.java:92-98 | a click on an enabled list toggles the item and reports every checked item in list order |
| TargetChooser.BelongsToImportedPantsProject | src/com/twitter/intellij/pants/bsp/FastpassChooseTargetsPanel.java:114-119 | a file belongs to a root only if the root is its ancestor, and a root never belongs to itself |
| TargetChooser.ActOnSelection | src/com/twitter/intellij/pants/bsp/FastpassChooseTargetsPanel.java:105-119 | a selection is acted on iff it is present and some imported root is a proper ancestor of it |
| TargetChooser.RootIsNotActedOnAlone | src/com/twitter/intellij/pants/bsp/FastpassChooseTargetsPanel.java:114-119 | a root by itself never makes itself count |
| TargetChooser.NothingToActOn | src/com/twitter/intellij/pants/bsp/FastpassChooseTargetsPanel.java:105-111 | no selection, or no imported roots, means nothing is acted on |
| TargetChooser.ActOnSelectionMonotone | src/com/twitter/intellij/pants/bsp/FastpassChooseTargetsPanel.java:108 | more imported roots never stop a selection from being acted on |
| TargetChooser.ApplyFetchResult | src/com/twitter/intellij/pants/bsp/FastpassChooseTargetsPanel.java:127-139 | with the same file selected a success shows its targets, checked iff selected, and a failure an empty list; otherwise the list is unchanged |
| TargetChooser.StaleResultIgnored | src/com/twitter/intellij/pants/bsp/FastpassChooseTargetsPanel.java:129 | a result for a file no longer selected changes nothing, whatever it holds |
| TargetChooser.Initial | src/com/twitter/intellij/pants/bsp/FastpassChooseTargetsPanel.java:40 | the selected targets start as the imported targets; the list starts empty |
| TargetChooser.Step | src/com/twitter/intellij/pants/bsp/FastpassChooseTargetsPanel.java:54-140 | a selection is recorded and, when acted on, fetched and shown as loading unless the result is ready; a completion for a file never fetched changes nothing, otherwise it is applied to the list; a click on a shown item toggles it in the list and the selection, any other click changes nothing |
| TargetChooser.Run | src/com/twitter/intellij/pants/bsp/FastpassChooseTargetsPanel.java:54-140 | events only ever add fetches, at most one per event; no events change nothing |
| TargetChooser.InitialIsConsistent | src/com/twitter/intellij/pants/bsp/FastpassChooseTargetsPanel.java:40-57 | a new chooser is consistent |
| TargetChooser.StepKeepsConsistent | src/com/twitter/intellij/pants/bsp/FastpassChooseTargetsPanel.java:54-140 | every event keeps the chooser consistent: only files under a root are fetched, loading follows a fetch, and shown targets are checked iff selected |
| TargetChooser.RunKeepsConsistent | src/com/twitter/intellij/pants/bsp/FastpassChooseTargetsPanel.java:54-140 | every sequence of events keeps the chooser consistent |
| TargetChooser.ClickTogglesTarget | src/com/twitter/intellij/pants/bsp/FastpassChooseTargetsPanel.java:54-57 | only a click on a shown target changes the selection, and it flips that target alone |
| TargetChooser.DoubleClickRestores | src/com/twitter/intellij/pants/bsp/FastpassChooseTargetsPanel.java:54-57 | clicking a shown checkbox twice restores the selection |
| TargetChooser.NoClicksKeepSelection | src/com/twitter/intellij/pants/bsp/FastpassChooseTargetsPanel.java:54-57 | events other than clicks leave the selection as it was |
| TargetChooser.UntouchedChooserKeepsImported | src/com/twitter/intellij/pants/bsp/FastpassChooseTargetsPanel.java:40-57 | without clicks a chooser ends with exactly the imported targets selected |
| ChooseTargetsPanel.FastpassChooseTargetsPanel.constructor | src/com/twitter/intellij/pants/bsp/FastpassChooseTargetsPanel.java:33-62 | the panel starts in the chooser's initial state, consistent |
| ChooseTargetsPanel.FastpassChooseTargetsPanel.HandleTreeSelection | src/com/twitter/intellij/pants/bsp/FastpassChooseTargetsPanel.java:105-126 | the panel changes as the chooser does on a selection: fetch under a root, loading only while the future is pending |
| ChooseTargetsPanel.FastpassChooseTargetsPanel.FetchCompleted | src/com/twitter/intellij/pants/bsp/FastpassChooseTargetsPanel.java:127-139 | the panel changes as the chooser does on a completed fetch |
| ChooseTargetsPanel.FastpassChooseTargetsPanel.ClickItem | src/com/twitter/intellij/pants/bsp/FastpassChooseTargetsPanel.java:54-57 | the panel changes as the chooser does on a click |
| ActionsFastpassManager.FastpassManager.constructor | src/com/twitter/intellij/pants/compiler/actions/FastpassManager.java:45-95 | the dialog starts in the chooser's initial state, consistent |
| ActionsFastpassManager.FastpassManager.HandleTreeSelection | src/com/twitter/intellij/pants/compiler/actions/FastpassManager.java:111-132 | the dialog changes as the chooser does on a selection |
| ActionsFastpassManager.FastpassManager.FetchCompleted | src/com/twitter/intellij/pants/compiler/actions/FastpassManager.java:133-145 | the dialog changes as the chooser does on a completed fetch |
| ActionsFastpassManager.FastpassManager.ClickItem | src/com/twitter/intellij/pants/compiler/actions/FastpassManager.java:89-92 | the dialog changes as the chooser does on a click |
| ActionsFastpassManager.FastpassManager.Handle | src/com/twitter/intellij/pants/compiler/actions/FastpassManager.java:89-146 | each event reaches its listener and the dialog changes as the chooser does |
| ActionsFastpassManager.FastpassManager.PromptForTargetsToImport | src/com/twitter/intellij/pants/compiler/actions/FastpassManager.java:149-159 | OK gives the targets selected after the events, anything else gives nothing |
| FastpassUtils.MakeFastpassCommand | src/com/twitter/intellij/pants/bsp/FastpassUtils.java:77-85 | the coursier launcher prefix followed by the part, in order |
| FastpassUtils.CommandDeterminesPart | src/com/twitter/intellij/pants/bsp/FastpassUtils.java:83-85 | different parts make different commands |
| FastpassUtils.BspFileName | src/com/twitter/intellij/pants/bsp/FastpassUtils.java:49 | the bsp directory's name; a null pointer only for the root |
| FastpassUtils.FastpassHome | src/com/twitter/intellij/pants/bsp/FastpassUtils.java:53-90 | the parent of the bsp path; a null pointer when it has none |
| FastpassUtils.AmendPart | src/com/twitter/intellij/pants/bsp/FastpassUtils.java:48-51 | four arguments whose second is the bsp directory's name |
| FastpassUtils.InfoPart | src/com/twitter/intellij/pants/bsp/FastpassUtils.java:64 | `info` and the bsp directory's name |
| FastpassUtils.Launch | src/com/twitter/intellij/pants/bsp/FastpassUtils.java:88-93 | a process is started iff the part and `FASTPASS_HOME` are available |
| FastpassUtils.WorkingDirectory | src/com/twitter/intellij/pants/bsp/FastpassUtils.java:53 | the working directory denotes the same path as the pants root |
| FastpassUtils.AmendInvocation | src/com/twitter/intellij/pants/bsp/FastpassUtils.java:46-53 | a process exactly when the bsp path has a parent, else a null pointer; the command is the launcher, `amend`, the directory's name, `--targets-list` and the comma-joined targets; `FASTPASS_HOME` is the parent; it runs in the pants root |
| FastpassUtils.InfoInvocation | src/com/twitter/intellij/pants/bsp/FastpassUtils.java:64-65 | a process exactly when the bsp path has a parent, else a null pointer; the command is the launcher, `info` and the directory's name; `FASTPASS_HOME` is the parent; it runs in the pants root |
| FastpassUtils.AmendInvocationShape | src/com/twitter/intellij/pants/bsp/FastpassUtils.java:46-53 | the amend process runs in the pants root with `FASTPASS_HOME` naming the bsp directory's parent, passes the directory's name and the targets; when there is at least one target and none is empty or holds a comma, the targets list splits back into the targets |
| FastpassUtils.InfoRunsWhereAmendRuns | src/com/twitter/intellij/pants/bsp/FastpassUtils.java:53-65 | the `info` process starts exactly when the `amend` one does, with the same environment and directory |
| FastpassUtils.AmendOutcome | src/com/twitter/intellij/pants/bsp/FastpassUtils.java:55-57 | exit 0 returns normally; any other exit raises with the error output |
| FastpassUtils.SelectedTargets | src/com/twitter/intellij/pants/bsp/FastpassUtils.java:67-69 | empty output gives no targets; a line without newline is one target; no target holds a newline |
| FastpassUtils.SelectedTargetsOfLines | src/com/twitter/intellij/pants/bsp/FastpassUtils.java:68-69 | non-empty lines joined by newlines are read back as the set of those lines |
| FastpassUtils.SelectedTargetsIgnoresFinalNewline | src/com/twitter/intellij/pants/bsp/FastpassUtils.java:68-69 | a final newline changes nothing, as `split` drops trailing empty pieces |
| FastpassUtils.SelectedTargetsIgnoresOrder | src/com/twitter/intellij/pants/bsp/FastpassUtils.java:68-69 | lines in another order, or repeated, are the same selection |
| FastpassUtils.QueryPath | src/com/twitter/intellij/pants/bsp/FastpassUtils.java:114 | a file is queried by its own path; a directory by the path of its `BUILD` file |
| FastpassUtils.QueryPathOfDirectory | src/com/twitter/intellij/pants/bsp/FastpassUtils.java:110-116 | for a directory the queried file is named `BUILD` and its parent is the directory |
| FastpassUtils.ToStream | src/com/twitter/intellij/pants/bsp/FastpassUtils.java:96-102 | one element for a present value, none for an absent one |
| FastpassUtils.ToStreamRoundTrip | src/com/twitter/intellij/pants/bsp/FastpassUtils.java:96-102 | `findFirst` undoes `toStream`, and back |
| JavaStrings.Split | src/com/twitter/intellij/pants/bsp/PantsTargetAddress.java:43 | no piece holds the separator; the first piece is the text before the first separator; without a separator the whole string is the one piece; there are no pieces exactly for a non-empty run of separators |
| JavaStrings.Join | src/com/twitter/intellij/pants/bsp/FastpassUtils.java:50 | an empty list joins to the empty string and one element to itself; otherwise the result starts with the first element and the separator; `SplitOfJoin` states that split inverts it |
| BspAmendAction.RefreshProjectsWithNewTargetsList | src/com/twitter/intellij/pants/bsp/FastpassBspAmendAction.java:87-106 | amend with the new targets, then refresh iff the amend returned normally, else log its error |
| BspAmendAction.AmendAndRefreshIfNeeded | src/com/twitter/intellij/pants/bsp/FastpassBspAmendAction.java:77-97 | no effect iff the old targets are unknown, the prompt was cancelled or the set did not change; otherwise the effects of `RefreshProjectsWithNewTargetsList`: amend, then refresh only if the amend returned normally |
| BspAmendAction.ActionPerformed | src/com/twitter/intellij/pants/bsp/FastpassBspAmendAction.java:39-75 | anything but one linked import only shows an error; otherwise query, then prompt, then sync |
| BspAmendAction.WrongImportCountOnlyShowsError | src/com/twitter/intellij/pants/bsp/FastpassBspAmendAction.java:47-52 | with a wrong import count nothing is queried, prompted or amended |
| BspAmendAction.NothingWithoutOldTargetsOrChoice | src/com/twitter/intellij/pants/bsp/FastpassBspAmendAction.java:83-85 | a failed query or a cancelled prompt leads to no amend and no refresh |
| BspAmendAction.UnchangedSetIsNotAmended | src/com/twitter/intellij/pants/bsp/FastpassBspAmendAction.java:86 | choosing the same set again leads to no amend |
| BspAmendAction.ChangedSetIsAmendedThenRefreshed | src/com/twitter/intellij/pants/bsp/FastpassBspAmendAction.java:86-105 | a changed set is amended once with exactly that set, and refreshed right after iff the amend returned normally |
| BspAmendAction.RefreshFollowsSuccessfulAmend | src/com/twitter/intellij/pants/bsp/FastpassBspAmendAction.java:87-105 | a refresh comes only directly after an amend that returned normally |
| BspAmendAction.RefreshNeedsZeroExit | src/com/twitter/intellij/pants/bsp/FastpassBspAmendAction.java:104-105 | a refresh means the amend exited with 0; a non-zero exit logs its error output |
| BspAmendAction.ReorderedTargetsAreNotAmended | src/com/twitter/intellij/pants/bsp/FastpassBspAmendAction.java:86 | a prompt that returns the `info` targets in another order or repeated is no change |

## Left out

- Starting processes, waiting for them and reading their streams (`fastpassProcess`, the process parts of `amendAll` and `selectedTargets`): the model takes the exit code and the output text as inputs.
- `CompletableFuture`, `SwingUtilities.invokeLater` and concurrency. Fetch results are events in the chooser, and the caches are called one at a time, so the thread safety of `ConcurrentHashMap` is not modelled. A future is an opaque value.
- Widgets, layout, bundles, sizes and `updateUI`: the model keeps only the state the listeners read and write.
- `Paths.isParent` is a parameter of the chooser: any ancestor relation on path strings.
- BspTargetAddress.StringHash runs over Dafny characters, which are Unicode scalar values, while Java's `String.hashCode` runs over UTF-16 code units; the two agree only for text without supplementary characters. The `bsp` copy hashes its `Path` with `Path.hashCode`, whose value is not modelled; the model hashes the path string instead.
- The hash codes of enum constants are identity hashes fixed when the program runs, so they are a parameter of `HashCode`.
- The `bsp` address stores its path as a string, so `Paths.get` normalisation of the stored path is not modelled.
- `FilePaths.Of`: only the Unix rules the decoder needs; `.` and `..` are ordinary names.
- AmendPart: the order in which `String.join` walks the set of new targets is not fixed by Java, so the targets are given as a sequence.
- SelectedTargets: the contract states the empty and one-line cases; the general case is stated by `SelectedTargetsOfLines`.
- UiTargetAddress.FromString: its own contract states only the empty error message; everything else is stated by `ParsingAgreesWithBsp` against the `bsp` copy.
- `decodeJarPath` does not appear in the source, only in its unit tests. `JarPathDecoder.DecodeJarPath` is reconstructed from them: a `bloop-jars` component, then the corrected jar decoder.
- The chooser's `fetched` log keeps every fetch, and the same completion may arrive more than once. A `null` tree selection changes no list. `getSelectedFile().equals` would throw on a `null` selection; the model leaves the list unchanged instead.
- ImportedAddressesEditor.CheckedItems: the contract states which items are reported, not their order; the lemmas `CheckedItemsAll` and `CheckedItemsNone` cover the two extremes.
- `FastpassManagerDialog`, `PantsBspData.importsFor`, `FastpassTargetsCheckboxList`, `FastpassAddressesViewPanel`, `compiler/actions/FastpassBspAmendAction`, `compiler/actions/FastpassUtils`, `FastpassUtils2`, `PantsProjectResolver` and `PantsPythonSetupDataService`: host integration and process glue, not part of this model.

## Findings

| source | as written | input that shows it | evidently intended | confidence | as-written member | corrected member |
|---|---|---|---|---|---|---|
| src/com/twitter/intellij/pants/bsp/AmendEditorNotificationsProvider.java:76-80 | the 13 characters of `-sources.jar!` are cut whenever the jar name contains `-sources` anywhere | the class jar `a.test-sources-util.jar!` of target `a:test-sources-util` decodes to `a:test-sour` | cut `-sources.jar!` only when the name ends with it | not executed | JarPathDecoder.SourcesInsideNameMisdecoded | JarPathDecoder.DecodeArtifactNameBySuffix |

The corrected decoder is `JarPathDecoder.JarPathToTargetBySuffix`. `SourcesInsideNameDecoded` shows that it reads the jar above correctly. `DecodersAgreeWithoutMarker` and `DecodersAgreeOnSourcesJars` show that it agrees with the code as written everywhere else, so the unit tests hold for both.
