# renfls in Dafny

A model of the rename-and-relocate engine of the Go package `renfls`
(github.com/shoarai/renfls), with proofs about it. The engine renames files
after a name of the caller's choice and moves them into one directory. It has
five parts:

- **Collision-safe rename.** `Rename` keeps the old extension and searches for
  a free name: `name.ext`, then `name-2.ext`, `name-3.ext` and so on, below
  `math.MaxInt16`.
- **Tree-walk rename.** `RenameAll` and `RenamePattern` walk a root and rename
  every selected file below it. The walk of package `dirname` does the same but
  ignores the error of each rename.
- **Directory-name propagation.** `ToRootDirName` and the `ToDirName` family
  name the files below a root after the last element of that root.
- **Staging transform.** `ToDirNames` moves the entries of a root into a
  staging directory inside it, renames the files below each staged entry after
  that entry, back into the root, and removes the staging directory. It comes
  in two revisions:
  - renfls.go: the staging directory is `fails`, and every entry is staged;
  - tosubdirsname.go: the staging directory is `fail`, and only directories
    are staged.
- **Condition predicate.** Selects files by an extension list, a regular
  expression and a negation flag.

The filesystem is abstract. A `Tree` is a map from a path (a sequence of entry
names) to `File` or `Dir`, and it is well formed when every entry has a valid
name and sits in a directory.

The class `FileSystems.FileSystem` holds the one mutable tree. Its methods are
the OS primitives:

| method | operation on the tree |
|---|---|
| `Stat` / `Lstat` | membership test |
| `Rename` | moves a key together with its subtree |
| `Mkdir` | adds a directory key |
| `RemoveAll` | deletes a subtree |
| `ReadDir` | lists a directory in byte order |

Every engine operation is a method over that class. Its postcondition ties the
returned error and the new tree to a specification function of the old tree:

| specification function | operation |
|---|---|
| `RenameResult` | `Rename` |
| `RenameFiltered` | the walks |
| `MoveDirsSpec` | staging |
| `PromoteSpec` | promotion |
| `TransformSpec` | the whole transform |

The lemmas then prove what the source promises about those functions.

Modules follow the source files:

| module | what it covers |
|---|---|
| `Names` | `filepath.Ext`, the `%d` suffix and byte order of names |
| `FileSystems` | the tree and its primitives |
| `Walks` | the visiting order of `filepath.Walk` |
| `Conditions` | the condition predicate |
| `Renfls` | renfls.go up to the walks |
| `Staging` | the two revisions of `moveDirs` and the promotion loop, described as functions |
| `ToDirName` | todirname.go |
| `ToDirNames` | the transform of renfls.go |
| `SubDirs` | the transform of tosubdirsname.go |
| `Dirname` | dirname/dirname.go |

The regular-expression engine is a parameter (`Conditions.Regexp`): one
function says which patterns compile, another which names a pattern matches.
Every result about patterns holds for every engine.

One point where the code is followed over a prose description of the tool. A
dotfile such as `.no` is sometimes described as having no extension. The code
uses `filepath.Ext`, which returns `.no` for it, so `.no` renamed to `new1`
becomes `new1.no` (`Renfls.DotfileKeepsName`).

## Model

| member | source | states |
|---|---|---|
| Names.Ext | renfls.go:29-30 | `filepath.Ext`: the result is a suffix of the name, either empty or a dot followed by no further dot and no separator |
| Names.ExtEmpty | renfls.go:30 | the extension is empty exactly when no dot follows the last separator |
| Names.ExtOfTail | renfls.go:30 | a name ending in a dot-led tail that holds no other dot and no separator has that tail as its extension, whatever precedes it |
| Names.DotlessExt | renfls_test.go:159 | the extension without its dot: prefixing a dot gives back the extension, and a name with no extension gives "" |
| Names.Decimal | renfls.go:46 | `%d` formatting yields a non-empty string of decimal digits |
| Names.DecimalRoundTrip | renfls.go:46 | reading the digits of the `%d` formatting back gives the number |
| Names.DecimalInjective | renfls.go:46 | different numbers format to different suffixes |
| Names.LexTotal | renfls.go:153 | any two names are comparable in the byte order `ioutil.ReadDir` sorts by |
| Names.LexTransitive | renfls.go:153 | that order is transitive |
| Names.LexAntisymmetric | renfls.go:153 | two names each at most the other are equal, so the order is strict on distinct names |
| Names.Least | renfls.go:153 | the first name of a non-empty set in byte order belongs to the set and precedes every member |
| Names.SortedNames | renfls.go:153 | the names of a set in the order `ioutil.ReadDir` returns them: exactly the set's members, strictly increasing in byte order, as many as the set has |
| FileSystems.RemoveTree | renfls.go:130 | `os.RemoveAll(p)` keeps exactly the entries not at or below `p`, with their kinds |
| FileSystems.RemoveTreeWellFormed | renfls.go:130 | removing a subtree keeps the tree well formed |
| FileSystems.MoveTreeAt | renfls.go:33 | membership and kind of every path after `os.Rename(src, dst)`, in terms of the tree before |
| FileSystems.MoveTreeWellFormed | renfls.go:33 | an accepted `os.Rename` keeps the tree well formed |
| FileSystems.MoveTreeEffect | renfls.go:33 | `os.Rename(src, dst)`: the subtree at `src` reappears kind for kind at `dst`, everything outside `src` stays, nothing else appears, and `src` is gone |
| FileSystems.MoveFile | renfls.go:33 | moving a file replaces one key by one new key, keeps every other value and keeps the size |
| FileSystems.MoveFileInto | renfls.go:33 | after moving a file the tree is well formed and the destination's parent is still a directory |
| FileSystems.MkdirWellFormed | renfls.go:193 | an accepted `os.Mkdir` keeps the tree well formed |
| FileSystems.Children | renfls.go:153 | the names directly inside a directory are exactly those `n` with `dir/n` present |
| FileSystems.Listing | renfls.go:153 | the directory listing holds exactly the children and is strictly sorted |
| FileSystems.ReadDirOf | renfls.go:153-156 | `ioutil.ReadDir` fails exactly when the path is not a directory; otherwise it returns one entry per child, in sorted order, each with its kind |
| FileSystems.FileSystem.constructor | renfls.go:21 | the filesystem starts from a given well-formed tree |
| FileSystems.FileSystem.Stat | renfls.go:211-214 | `os.Stat` succeeds exactly for the working directory and present paths |
| FileSystems.FileSystem.Lstat | renfls.go:92-95 | the kind the walk sees at a path, or none when the path is gone |
| FileSystems.FileSystem.Rename | renfls.go:33 | `os.Rename` succeeds exactly when the move is allowed, and then moves the subtree; otherwise nothing changes |
| FileSystems.FileSystem.Mkdir | renfls.go:193 | `os.Mkdir` succeeds exactly when the path is absent and its parent is a directory, and then adds a directory |
| FileSystems.FileSystem.RemoveAll | renfls.go:130 | `os.RemoveAll` deletes the subtree; removing what is not there is not an error |
| FileSystems.FileSystem.ReadDir | renfls.go:153 | `ioutil.ReadDir` returns the sorted listing of the current tree |
| Walks.WalkOrderOfFile | renfls.go:63 | a walk that starts at a file visits just that file |
| Walks.WalkOrderUnder | renfls.go:63 | every path `filepath.Walk` visits exists and lies at or below the root |
| Walks.WalkOrderDistinct | renfls.go:63 | no path is visited twice |
| Walks.WalkOrderComplete | renfls.go:63 | every entry at or below the root is visited |
| Walks.WalkOrderOfDir | renfls.go:63 | a directory is visited first, then the walks of its sorted entries |
| Conditions.ListedExtAt | renfls_test.go:159 | an extension list names a file exactly when some entry, its dot stripped, equals the file's dotless extension |
| Conditions.EmptySelectsAll | renfls_test.go:146-150 | the zero `Condition` selects every file |
| Conditions.IgnoreAloneSelectsNothing | renfls_test.go:170-174 | `Ignore` with no other clause selects nothing |
| Conditions.PatternOnly | renfls_test.go:152-156 | with only `Reg`, exactly the names the pattern matches are selected |
| Conditions.ExtsOnly | renfls_test.go:158-162 | with only `Exts`, a name is selected exactly when its dotless extension is listed |
| Conditions.PatternOrExts | renfls_test.go:164-168 | `Reg` and `Exts` together select the disjunction of both clauses |
| Conditions.IgnoreComplements | renfls_test.go:175-186 | `Ignore` selects exactly the complement of the same clauses without it |
| Conditions.IgnorePartitions | renfls_test.go:145-192 | over any set of names, a condition and its negation split the set into two disjoint parts |
| Conditions.TableEmpty | renfls_test.go:145-150 | `Condition{}` renames text.txt and image.jpg |
| Conditions.TableReg | renfls_test.go:151-156 | `Reg: text*` renames text.txt and not image.jpg |
| Conditions.TableExts | renfls_test.go:157-162 | `Exts: txt, csv` renames text.txt and data.csv, not image.jpg |
| Conditions.TableRegExts | renfls_test.go:163-168 | `Reg: text*, Exts: txt` renames text.txt only |
| Conditions.TableIgnore | renfls_test.go:169-174 | `Ignore` renames neither file |
| Conditions.TableRegIgnore | renfls_test.go:175-180 | `Reg: text*, Ignore` renames image.jpg, not text.txt |
| Conditions.TableExtsIgnore | renfls_test.go:181-186 | `Exts: txt, csv, Ignore` renames image.jpg only |
| Conditions.TableRegExtsIgnore | renfls_test.go:187-192 | `Reg: text*, Exts: csv, Ignore` leaves both the pattern's match and the listed extension alone and renames image.jpg |
| Conditions.TableExtensions | renfls_test.go:158-168 | the dotless extensions of the table's files are txt, jpg and csv |
| Renfls.Candidate | renfls.go:40-47 | every candidate path lies directly inside the destination directory |
| Renfls.CandidateInjective | renfls.go:45-49 | different indexes give different candidates, so the search never probes a path twice |
| Renfls.CandidateValid | renfls.go:40-47 | a candidate's leaf is a valid name whenever the requested name is |
| Renfls.FreeSlot | renfls.go:39-52 | the index the search settles on is free, below MaxInt16, and every index before it is taken; there is none only when every index below MaxInt16 is taken |
| Renfls.FreeSlotLeast | renfls.go:45-50 | conversely, the first free index below MaxInt16 is the one the search returns |
| Renfls.FreePath | renfls.go:39-52 | a returned path is absent and lies directly inside the directory |
| Renfls.FreePathAt | renfls.go:41-49 | when the first `k - 1` candidates are taken and the k-th is free, the search returns the k-th |
| Renfls.FreePathNamed | renfls.go:40-47 | the returned leaf starts with the requested name |
| Renfls.FreePathNone | renfls.go:45-51 | the search gives up (the source's "") exactly when every candidate below MaxInt16 is taken |
| Renfls.FreePathFirst | renfls.go:40-50 | a free unsuffixed name is returned as is; otherwise the result is `name-k+ext` with `2 <= k < 32767`, so `-1` is never produced |
| Renfls.IsNotExist | renfls.go:211-214 | `isNotExist` is true exactly when `os.Stat` fails |
| Renfls.AddSuffixIfSamePath | renfls.go:39-52 | the probing loop returns what the search function describes |
| Renfls.Rename | renfls.go:21-37 | returns the result `RenameResult` describes; on failure the tree is unchanged; on success the subtree has moved to the returned path |
| Renfls.RenameMissing | renfls.go:22-27 | a missing source, or a missing destination directory, is an error naming that path |
| Renfls.RenameSuccessTarget | renfls.go:31-36 | a successful rename went to the first free candidate, and `os.Rename` accepted that move |
| Renfls.RenameToFreePath | renfls.go:31-36 | conversely, when the first free candidate can take the source, the rename returns it |
| Renfls.RenameSucceedsIff | renfls.go:21-37 | `Rename` succeeds exactly when the source is a real entry, the destination is a directory not inside it, a candidate is free and its leaf is a valid name |
| Renfls.RenameMoves | renfls.go:33-36 | a successful rename: the returned path was the first free candidate and was absent; the source and everything below it reappear there with their kinds; everything outside the source is unchanged; nothing else appears |
| Renfls.RenameKeepsShape | renfls.go:33-36 | a successful rename keeps the tree well formed |
| Renfls.FileCanMove | renfls.go:33 | a file can always be moved to a free, validly named place in a directory |
| Renfls.RenameKeepsExt | renfls.go:29-31 | the new leaf is the new name, the collision suffix and the old leaf's extension; a non-empty extension is kept |
| Renfls.FirstCandidate | renfls.go:40-41 | the first candidate is `dir/name+ext` |
| Renfls.DotfileExt | renfls_test.go:34 | the extension of `.no` is `.no` |
| Renfls.DotfileKeepsName | renfls_test.go:34 | `dir1/.no` renamed to `new1` becomes `new1.no` |
| Renfls.RenameFileTo | renfls.go:39-50 | renaming a file when exactly the first `k - 1` candidates are taken moves it to the k-th candidate and changes nothing else |
| Renfls.RenameFileResult | renfls.go:39-50 | in that situation `Rename` returns the k-th candidate |
| Renfls.CandidatesOneToThree | renfls.go:45-47 | the first three candidates are `X.ext`, `X-2.ext`, `X-3.ext`, pairwise different |
| Renfls.SuccessiveRenames | renfls_test.go:36-38 | three files with one extension renamed in turn to one name become `X.ext`, `X-2.ext` and `X-3.ext` |
| Renfls.WalkRenameFunc | renfls.go:90-104 | the walk function at one path: the `Lstat` error for a vanished path; nothing for a directory or an unselected file; otherwise the rename, whose error is returned |
| Renfls.Walk | renfls.go:63-66 | `filepath.Walk` with that function visits the sorted pre-order of the tree it starts from, and the first error ends it |
| Renfls.RenameWalk | renfls.go:55-88 | both existence checks, then the pattern compilation, then the walk |
| Renfls.RenameAll | renfls.go:55-67 | `RenameAll` renames every file below the root |
| Renfls.RenamePattern | renfls.go:71-88 | `RenamePattern` renames every file whose name the pattern matches |
| Renfls.RenameCondition | renfls_test.go:194-196 | the walk under a `Condition` renames the files the condition selects |
| Renfls.ToRootDirName | renfls.go:108-111 | every file below the root is renamed after the root's last element |
| Renfls.ToRootDirNamePattern | renfls.go:115-118 | the same for the files the pattern matches |
| Renfls.RenameFilteredChecks | renfls.go:55-82 | a missing root, a missing destination or a pattern that does not compile is reported before anything changes |
| Renfls.VisitFailure | renfls.go:92-103 | visiting an existing path with a directory as destination fails only through a refused rename |
| Renfls.VisitRenameCase | renfls.go:96-101 | at a selected file, the visit succeeds exactly when the rename does, and leaves the moved tree |
| Renfls.VisitRenames | renfls.go:92-103 | visiting a selected file that can be renamed moves it to a fresh key in the destination and keeps the tree well formed |
| Renfls.VisitOutflow | renfls.go:92-103 | a visit keeps the tree well formed and changes it only as a walk over that one path may |
| Renfls.OutflowTrans | renfls.go:63-66 | the changes of two consecutive walks compose |
| Renfls.WalkFromOutflow | renfls.go:63-66 | a walk changes only this: selected visited files leave; only files named after the new name arrive, directly in the destination; nothing changes kind; the size is kept |
| Renfls.WalkFromConcat | renfls.go:99-101 | the first error ends the walk: nothing after the failing part is visited |
| Renfls.WalkFromFailure | renfls.go:99-101 | with a destination directory, a walk over a snapshot fails only when a rename fails |
| Renfls.WalkFromComplete | renfls.go:84-87 | a walk over a snapshot that does not fail has moved every selected file of the snapshot |
| Renfls.WalkOrderSnapshot | renfls.go:63 | with the destination outside the root, the visiting order is a snapshot: distinct present paths, none of them a file already in the destination |
| Renfls.WalkRenameKeeps | renfls.go:63-66 | with the destination outside the root, the following entries keep their place and kind: everything outside the root, directories and unselected files. Only files named after the new name appear, directly in the destination, and the size is kept |
| Renfls.RenameRelocates | renfls.go:31-36 | one successful rename of a file moves exactly that file, to one of its candidates, and keeps every other entry |
| Renfls.RelocatesTrans | renfls.go:63-66 | the renames of two consecutive walks compose, as long as the second moves only files of the first tree to paths outside it |
| Renfls.WalkFromArrivals | renfls.go:63-66 | a walk over a snapshot that does not fail moves exactly the selected files of the snapshot, each to its own candidate in the destination, and changes nothing else |
| Renfls.RenameFilteredArrivals | renfls.go:55-104 | `RenameAll`, `RenamePattern` and the `Condition` walks without an error, into a directory outside the root: exactly the selected files at or below the root move, each to its own free candidate `newDir/newName[-k]ext` carrying its extension; everything else stays; nothing else appears |
| Renfls.WalkRenameComplete | renfls.go:84-87 | with the destination a directory outside the root, the walk fails only when a rename fails; a walk that does not fail leaves no selected file at or below the root |
| Staging.StageFromStep | renfls.go:197-206 | one turn of the staging loop: the move of the current entry, skipped when refused, then the rest |
| Staging.StageCanMove | renfls.go:201-203 | the staging move of a listed entry is accepted |
| Staging.StageMoveChildren | renfls.go:201-205 | one staging move takes exactly that name out of the root and into the staging directory |
| Staging.StageMoveOutside | renfls.go:201-205 | one staging move keeps everything outside the root and adds nothing outside the staging directory |
| Staging.StageMoveRest | renfls.go:197-206 | after one move the rest of the listing can still be staged |
| Staging.StageFromEffect | renfls.go:197-206 | over a listing it can work through, the loop moves exactly the staged names into the staging directory and keeps the tree well formed |
| Staging.StagedNamesAt | tosubdirsname.go:126-129 | the staged names are the listed names, or only the listed directories in the directories-only revision |
| Staging.StagedNamesOfListing | tosubdirsname.go:116-129 | staged from a listing of the root: all its children, or only its directories |
| Staging.StagingListing | renfls.go:187-193 | the listing taken before `os.Mkdir` can be worked through after it, so the staging directory is never moved into itself |
| Staging.StagingStart | renfls.go:192-195 | right after `os.Mkdir`, the staging directory is a new, empty child of the root |
| Staging.MoveDirsFails | renfls.go:183-195 | `moveDirs` fails, before any change, for a missing root, a root that is not a directory, or a taken staging name; otherwise it succeeds |
| Staging.MoveDirsStages | renfls.go:182-209 | a successful `moveDirs` is the staging loop run right after `os.Mkdir` |
| Staging.MoveDirsChildren | tosubdirsname.go:126-135 | after `moveDirs`, the root holds only the staging directory (and its files in the directories-only revision), and the staging directory holds what was staged |
| Staging.StagedChildren | renfls.go:197-206 | the children of the root and of the staging directory once the staged names have moved |
| Staging.MoveDirsOutside | renfls.go:182-209 | `moveDirs` changes nothing outside the root and adds nothing outside the staging directory |
| Staging.MoveDirsEffect | renfls.go:182-209 | the whole effect of a successful `moveDirs` |
| Staging.PromoteFromStep | renfls.go:158-163 | one turn of the promotion loop: the walk of the current staged entry; its error ends the loop |
| Staging.PromoteWalkMoves | renfls.go:160 | promoting one staged entry moves only selected files from below it, into the root |
| Staging.PromoteWalkSweeps | renfls.go:160 | promoting one staged entry fails only for want of a free name, and otherwise moves every selected file below it out of the staging directory |
| Staging.PromoteStep | renfls.go:158-163 | one staged entry through `ToRootDirName`: the tree stays well formed; it changes only as promotion may; an error is a refused rename or a bad pattern |
| Staging.PromotesTrans | renfls.go:158-163 | the changes of consecutive promotions compose |
| Staging.PromoteFromEffect | renfls.go:152-165 | the promotion loop keeps the tree well formed and its size; it removes only selected files below the staged entries and adds only files directly in the root named after one; an error comes from a rename or the pattern; without an error, no selected file is left below the staged entries |
| Staging.PromoteSpecEffect | renfls.go:152-165 | the same for the listing `renameToDirName` takes of the staging directory |
| Staging.TransformSteps | renfls.go:122-134 | a transform whose staging succeeds is staging, then promotion, then `os.RemoveAll` of the staging directory when promotion succeeds |
| Staging.TransformErrors | renfls.go:122-134 | the transform fails before any change for a missing root, a non-directory root or a taken staging name; a later error comes from a rename or the pattern and leaves the staging directory in place |
| Staging.TransformOutside | renfls.go:122-134 | a successful transform changes nothing outside the root |
| Staging.TransformFlattens | renfls.go:122-134 | after a successful transform the staging directory is gone and every entry left below the root is a file directly inside it |
| Staging.TransformKeepsFiles | tosubdirsname.go:126-129 | in the directories-only revision, the files directly in the root stay where they are |
| Staging.TransformDeletes | tosubdirsname.go:28-31 | what the final `os.RemoveAll` deletes is directories and the files the filter did not select |
| Staging.TransformArrivals | renfls.go:122-134 | every new entry of the root is a file directly inside it, named after a staged entry |
| Staging.PromoteWalkArrivals | renfls.go:160 | the walk promoting the staged entry `n`, without an error, moves exactly the selected files below `n`, each to its own candidate `root/n[-k]ext`, and changes nothing else |
| Staging.PromoteMovesTrans | renfls.go:158-163 | the renames of promoting two disjoint sets of staged entries in turn compose into the renames of their union |
| Staging.PromoteFromArrivals | renfls.go:152-165 | the promotion loop without an error moves exactly the selected files below the staged entries, each to a candidate `root/n[-k]ext` of its own, with `n` the entry it lay below; nothing else changes |
| Staging.PromoteSpecArrivalsEffect | renfls.go:152-165 | the same for the listing `renameToDirName` takes of the staging directory |
| Staging.StageFromKeeps | renfls.go:197-206 | the staging loop moves each staged entry, with everything below it, kind for kind into the staging directory; every other entry stays; nothing is left at the staged names in the root, and nothing else appears |
| Staging.MoveDirsKeeps | renfls.go:182-209 | the same for a successful `moveDirs`, from the tree right after `os.Mkdir`; the staging directory is never itself staged |
| Staging.TransformRelocates | renfls.go:122-134 | from the staged tree, a successful transform moves exactly the selected files of the staging directory, each to a path of its own directly in the root named after its entry; everything outside the staging directory stays; nothing else appears |
| Staging.TransformDelivers | renfls.go:120-134 | the same from the caller's tree: every selected file below a staged entry `n` arrives as a file `n[-k]ext` directly in the root, at a path of its own that no kept entry of the caller's tree holds; every entry not below a staged entry stays; nothing else appears |
| Staging.DeliveredCount | tosubdirsname.go:18-19 | below any set of staged entries, as many files arrive in the root as the filter picked there |
| Staging.DeliveredOne | tosubdirsname.go:18-19 | a staged entry `n` with one selected file below it delivers that file as one file `root/n[-k]ext` with the file's own extension |
| ToDirName.ExtFilters | todirname.go:24-34 | the extension filters never fail to compile. `Ext` selects a file exactly when the list is empty or names its extension. `IgnoreExt` selects it exactly when the list is non-empty and does not name it |
| ToDirName.LeafOfRoot | todirname.go:11 | the name handed on is the last element of the root |
| ToDirName.ToDirName | todirname.go:10-13 | renames every file below the root after the root's last element |
| ToDirName.ToDirNamePattern | todirname.go:17-20 | the same, forwarding the pattern |
| ToDirName.ToDirNameExt | todirname.go:24-27 | the same, for the files whose extension is listed when the list is non-empty, and for every file when it is empty |
| ToDirName.ToDirNameIgnoreExt | todirname.go:31-34 | the same, for the files whose extension is not listed when the list is non-empty, and for no file when it is empty |
| ToDirName.ToDirNameCondition | todirname.go:38-41 | the same, for the files the condition selects |
| ToDirNames.MoveDirs | renfls.go:182-209 | `moveDirs` of renfls.go: the checks, the listing, `os.Mkdir`, then every entry moved into `fails`, refused moves skipped |
| ToDirNames.RenameToDirName | renfls.go:152-165 | the staged entries in listing order through `ToRootDirName`; the first error is returned |
| ToDirNames.RenameToDirNamePattern | renfls.go:167-180 | the same through `ToRootDirNamePattern` |
| ToDirNames.ToDirNames | renfls.go:120-134 | stage every entry, promote, remove the staging directory; the first error is returned. Without an error, every file below a staged entry `n` arrives directly in the root as `n[-k]ext` with its own extension, at a path of its own; every entry not below a staged entry stays; nothing else appears |
| ToDirNames.ToDirNamesPattern | renfls.go:136-150 | the same under a pattern: exactly the matching files below the staged entries arrive, one path each, and nothing else changes but the staging |
| ToDirNames.DoubledExtension | renfls.go:197-206 | with all entries staged, a root holding only the file `n` comes out holding only `n` followed by its own extension again |
| ToDirNames.ImageJpgDoubled | renfls.go:197-206 | `root/image.jpg` alone becomes `root/image.jpg.jpg` |
| SubDirs.MoveDirs | tosubdirsname.go:111-138 | `moveDirs` of tosubdirsname.go: the same checks, then only the directories moved into `fail` |
| SubDirs.RenameToDirName | tosubdirsname.go:34-47 | the staged directories in listing order through `ToDirName`; the first error is returned |
| SubDirs.RenameToDirNamePattern | tosubdirsname.go:65-78 | the same through `ToDirNamePattern` |
| SubDirs.RenameToDirNameIgnoreExt | tosubdirsname.go:96-109 | the same through `ToDirNameIgnoreExt` |
| SubDirs.ToSubDirsName | tosubdirsname.go:18-32 | stage the directories, promote, remove the staging directory. Without an error, every file below a sub-directory `n` arrives directly in the root as `n[-k]ext`, at a path of its own; the root's own files and every other entry not below a sub-directory stay; nothing else appears |
| SubDirs.ToSubDirsNamePattern | tosubdirsname.go:49-63 | the same under a pattern: exactly the matching files below the sub-directories arrive, one path each |
| SubDirs.ToSubDirsNameIgnoreExt | tosubdirsname.go:80-94 | the same under an extension list to ignore: with a non-empty list, exactly the files below the sub-directories whose extension is not listed arrive, one path each; with an empty list none arrive |
| SubDirs.IgnoreExtDeletesListed | tosubdirsname.go:82-94 | under `IgnoreExt` with a non-empty list, each file the final `os.RemoveAll` deletes has a listed extension: such files are never promoted |
| SubDirs.IgnoreNothingRemovesSubDirs | tosubdirsname.go:80-94 | under `IgnoreExt` with an empty list, nothing is promoted: the result is the caller's tree without the sub-directories of `root` and everything below them, every other entry keeping its kind |
| SubDirs.PatternDeletesUnmatched | tosubdirsname.go:51-63 | under a pattern, each file the final `os.RemoveAll` deletes is one the pattern does not match |
| SubDirs.StageFilesOnly | tosubdirsname.go:126-129 | staging directories only, a listing of files moves nothing |
| SubDirs.FlatStage | tosubdirsname.go:111-135 | staging a root without directories only creates the staging directory |
| SubDirs.MkdirUndone | tosubdirsname.go:28 | removing the empty staging directory restores the tree |
| SubDirs.FlatRootKept | tosubdirsname.go:126-129 | a root holding no directory comes out of `ToSubDirsName`, under any filter, exactly as it went in |
| SubDirs.ImageJpgKept | todirname_test.go:21-23 | `root/image.jpg` alone stays `root/image.jpg` |
| Dirname.LenientWalkFunc | dirname/dirname.go:55-63 | the walk function of dirname.go: a vanished path is an error; a refused rename is not, and leaves the tree as it is |
| Dirname.LenientWalk | dirname/dirname.go:55-64 | `filepath.Walk` with that function, over the sorted pre-order of the tree it starts from |
| Dirname.RenameAll | dirname/dirname.go:50-65 | checks only the destination, then walks |
| Dirname.RenamePattern | dirname/dirname.go:69-89 | checks the destination, compiles the pattern before the walk, then walks the files the pattern matches |
| Dirname.DirnameChecks | dirname/dirname.go:50-58 | a missing destination is reported first, even when the root is missing too; then a bad pattern; a missing root is reported by the walk |
| Dirname.LenientVisitCases | dirname/dirname.go:62 | the lenient visit differs from the strict one only where a rename of an existing path fails, and there it leaves the tree as it is |
| Dirname.LenientWalkFromAgrees | dirname/dirname.go:55-64 | wherever the strict walk succeeds, the lenient walk does exactly the same |
| Dirname.DirnameAgrees | dirname/dirname.go:50-89 | both packages agree on every call that succeeds in package renfls |
| Dirname.LenientWalkFromOutflow | dirname/dirname.go:55-64 | the lenient walk keeps the tree well formed and changes it only as a strict walk may |
| Dirname.LenientWalkFromNoError | dirname/dirname.go:62 | over a snapshot, with a destination directory, the lenient walk never reports an error |
| Dirname.DirnameRenameEffect | dirname/dirname.go:50-65 | with an existing destination outside the root, dirname.go's walk always succeeds. It keeps the size, keeps everything outside the root, directories and unselected files, and adds only files named after the new name, directly in the destination |

## Left out

- Renfls.Walk: visits a snapshot of the tree taken when the walk starts, while `filepath.Walk` lists each directory when it reaches it. The two agree when the destination lies outside the walked root. `Renfls.WalkRenameKeeps` shows that then nothing new appears below the root and only visited files leave. A destination inside the root is not modelled.
- Dirname.LenientWalk: the same snapshot reading of `filepath.Walk`.
- A destination directory inside the walked root is not analysed. The lemmas about walks require the destination to lie outside the root.
- Path normalisation by `filepath.Join`/`Clean`, absolute paths, and Unicode handling are not modelled. Names are non-empty, separator-free and neither "." nor "..". This also excludes the empty leaf `filepath.Split` gives for a trailing separator.
- OS failure modes are not modelled: permissions, cross-device moves, symbolic links and `os.ModePerm`. `os.Rename` succeeds exactly when the source exists, the destination is absent and validly named, its parent is a directory, and it does not lie inside the source.
- `os.RemoveAll` never fails in the model, so the error branch after it (renfls.go:130-132, tosubdirsname.go:28-30) is unreachable.
- The time between an existence check and the move is not modelled, and neither is any concurrent actor: the code is single-threaded.
- The regular-expression engine is a parameter, not an implementation of `regexp` syntax. `Conditions.TextStar` states what the table takes the pattern `text*` to match.
- `RenameExt`, `RenameIgnoreExt`, `RenameCondition`, `WalkRename` and `WalkRenameAll` are not part of this model's source. They are modelled as the `RenamePattern`-shaped walk with a `Condition` filter.
- `errorNotExist` is not part of this model's source. Its error is modelled as the same "not found" error that renfls.go produces.
- `WalkToRootSubDirName` and the `ignore` directory (`ignoreDirName`) are not part of this model's source.
- `ToDirNames.ToDirNames` and `SubDirs.ToSubDirsName` are not proved against the full fixture of todirname_test.go:21-35 (`dir2.txt`, `dir2-2.txt`, `ディレクトリ3-3.txt`). What the fixture relies on is proved for every tree. `Staging.TransformDelivers` shows that every selected file below a staged entry `n` arrives directly in the root as `n[-k]ext`, no two at one path, and `Staging.DeliveredCount` shows that as many arrive as were picked. Only the one-file fixture is instantiated, in `ToDirNames.ImageJpgDoubled` and `SubDirs.ImageJpgKept`.
- Staging.TransformDelivers: states that each arrival is some candidate `n[-k]ext`, not which `k`. The index depends on the walk order and on the files already present; it is pinned down for single renames only (`Renfls.FreeSlotLeast`, `Renfls.SuccessiveRenames`).
- ToDirName.ExtFilters: an empty extension list makes `Ext` select every file and `IgnoreExt` select none. This follows the `Condition` matcher that stands in for `RenameExt` and `RenameIgnoreExt`. Through `ToDirName.ToDirNameIgnoreExt`, `ToSubDirsNameIgnoreExt(root, [])` therefore promotes nothing, and its final `os.RemoveAll` deletes every file below the sub-directories of `root` (`SubDirs.IgnoreNothingRemovesSubDirs`). Whether the source's own `RenameIgnoreExt` treats an empty list this way is not known, since that function is not part of this model's source.
- Conditions.ListedExt: compares a listed extension with the file's extension exactly, so case matters (`JPG` is not `jpg`). The extension matcher of `Condition` and `RenameExt` are not part of this model's source, so no case-insensitive comparison is modelled or promised.
- Renfls.ToRootDirName: with the empty root `[]` (the working directory `.`) the name handed on is `Base([])`, which is ".". The model's candidates are then `newDir/..ext`, sitting inside `newDir`. In the source, `filepath.Join(newDir, ".")` cleans to `newDir`, so the files would go to `newDir.ext` beside it. Names of entries are never ".", but this handed-on name is not checked. The same holds for `Renfls.ToRootDirNamePattern`.
- ToDirName.ToDirName: the same case of the empty root, for the whole `ToDirName` family.
- Error message texts are not modelled: errors are constructors of `FileSystems.Error` carrying the offending path or pattern.
- The command-line drivers (main.go, cmd/main.go, cmd/renfls/main.go) are not modelled, nor the test fixtures.
- `Rename` and `addSuffixIfSamePath` of dirname/dirname.go:16-47 are the same code as renfls.go:21-52, so `Renfls.Rename` and `Renfls.AddSuffixIfSamePath` model both; `Dirname` reuses them.
- The dirname/dirname_test.go expectations are not modelled. They expect a `-1` suffix and call a function that does not exist.
- Renfls.FreeSlot: the search bound is `math.MaxInt16` exactly. A tree large enough to exhaust it is allowed, and that case is modelled as the source's "". No concrete instance is built.

## Findings

| source | as written | input that shows it | evidently intended | confidence | as-written member | corrected member |
|---|---|---|---|---|---|---|
| renfls.go:197-200 | `moveDirs` stages every entry of the root, because its directory check is commented out. A top-level file is then walked as if it were a sub-directory named after itself, and comes back with its extension doubled. | a root holding only `image.jpg`: `ToDirNames` leaves `root/image.jpg.jpg` and no `root/image.jpg` | top-level files stay where they are, as the later revision does at tosubdirsname.go:127-129 and todirname_test.go:22 expects | not executed | ToDirNames.DoubledExtension | SubDirs.FlatRootKept |
