# TermuXport, modelled in Dafny

TermuXport (`termuxport.py`) is a menu-driven exporter for Termux. It copies files and folders
picked in the current directory to a destination folder, with a progress bar. It records what it
copied in an undo file (`.undo_list`) and a log (`termuxport.log`), and it can undo the last
export. Some settings come from `termuxport.conf`.

This project models the bookkeeping core of the program over an abstract filesystem:

- The filesystem is a map from paths to `File(size)` or `Dir`. A path is a sequence of names, and
  the root `[]` is an implicit directory.
- Start-up reads the configuration: a `KEY=value` line parser in which the last matching line wins
  (`Config`).
- `get_items` lists one directory: hidden names are dropped, the rest are sorted and split into
  directories and other entries (`Listing`, with `Order` for Python's string order).
- `choose_files` turns the numbers typed at the prompt into items. Python's negative indices apply
  (`Listing`). The menu starts the selection at the relative `Path('.')`, which is its own
  parent. In the model only the root `[]` is its own parent, so `Listing.ZeroAtRoot` is the
  menu's case: typing `0` ends the selection with nothing, and the branch that moves up
  (lines 83-84) is never reached from the menu.
- `filter_exclude` drops the items whose names end in a given extension (`Filter`).
- `get_total_size` sums the sizes of the selected files and of every file below the selected
  directories (`Sizes`).
- `copy_with_progress` copies each item to `dest`:
  - a file goes to `dest/name`;
  - a directory is walked top-down, each walked directory is re-created under `dest`, and each
    file is copied below it;
  - every copied file adds one line to the undo file and one `COPIED` line to the log, and
    advances the progress bar by its size.
  `CopyPlan` states the result as functions. `Export.Session.CopyWithProgress` does it step by
  step on a `Session` object, whose fields are the filesystem, the undo file, the log, the
  progress bar and the notifications sent.
- `undo_last` runs `rm -rf` on every listed path that exists and logs the undo (`Undo`,
  `Export.Session.UndoLast`).
- `encrypt_and_copy` is modelled for its bookkeeping only (`Export.Session.EncryptAndCopy`).
- `PyStr` models the Python `str` operations the program uses: `strip`, `split()`, `split("=")`,
  `in`, `startswith`, `endswith` and `int()`.

Everywhere else (the copy, the undo, start-up) paths are read as absolute. The items of a
selection are entries of the current directory, which is their parent, and `dest` and
`DEFAULT_DEST` are paths from the root in the same map.

`os.walk` yields directories in an unspecified order. The walk therefore takes any directory whose
parent has already been walked, and files in any order. The properties that depend on order are
stated over sets and multisets: the copies made, the undo lines, the log lines and the
progress sum.

## Model

| member | source | states |
|---|---|---|
| Config.LoadConfig | termuxport.py:13-19 | without a configuration file the four defaults stand; otherwise the settings are the file's lines applied in order to the defaults |
| Config.ReadLine | termuxport.py:16-19 | the four `if` statements on one line have the effect of the line's assignment for each key it mentions |
| Config.Assign | termuxport.py:16-19 | an assignment sets its key to the line's value and keeps every other key |
| Config.Field | termuxport.py:16 | the field taken from a line never contains `=`, so text after a second `=` is dropped |
| Config.ApplyLineGet | termuxport.py:15-19 | a line sets exactly the keys it mentions, each to the value it gives, and leaves the other keys alone |
| Config.LastMentionWins | termuxport.py:15-19 | the last line that mentions a key decides that key, whatever the earlier lines said |
| Config.LastLineDecides | termuxport.py:15-19 | a last line that mentions a key sets that key to the value the line carries |
| Config.UnmentionedKept | termuxport.py:13-19 | a key no line mentions keeps its default |
| Config.QuotedLineRoundTrip | termuxport.py:16-19 | the line `KEY="v"` read back gives `v` for the three string settings, when `v` holds no `=` and no outer quote |
| Config.NotifyLine | termuxport.py:17 | `ENABLE_NOTIFY=v` turns notifications on exactly when `v` is `1`; a quoted `"1"` turns them off |
| Config.KeyInsideWord | termuxport.py:19 | a key is found inside a longer word: a line `pre VERSION=v`, such as `MY_VERSION=2`, sets the version to `v` (for a `v` without `=`, padding or quotes) |
| Config.WordLineMentions | termuxport.py:19 | a line `pre VERSION=v` counts as a VERSION line, whatever the word `pre` in front of the key |
| Config.WordLineText | termuxport.py:19 | a line `pre VERSION=v` gives the version the text `v`, when `pre` and `v` hold no `=` and `v` is neither padded nor quoted |
| Config.LineField | termuxport.py:16-19 | the field of `KEY=v` plus its newline is `v` when `v` holds no `=` and no outer whitespace |
| PyStr.WordsUnwords | termuxport.py:81 | `split()` gives back the words a space-joined line was made of |
| PyStr.SplitJoin | termuxport.py:16 | joining the parts of `split(sep)` with `sep` gives back the string |
| PyStr.SecondField | termuxport.py:16 | `split("=")[1]` of `k=v…` is `v` when neither `k` nor `v` holds `=` |
| PyStr.ParseIntOfNatToString | termuxport.py:91 | `int()` reads back the decimal numeral of every natural number |
| PyStr.StripAround | termuxport.py:16 | stripping removes exactly the strippable characters around a core that starts and ends with a kept character |
| Order.SortedOf | termuxport.py:51 | `sorted()` of a set of names is strictly increasing and holds exactly those names |
| Order.SortedUnique | termuxport.py:51 | only one strictly increasing sequence holds a given set of names |
| Listing.SortNames | termuxport.py:51 | repeatedly taking out the least remaining name yields `sorted()` of the names |
| Listing.GetItems | termuxport.py:49-59 | the loop returns the sorted visible directories and the sorted visible other entries of the directory |
| Listing.ByKind | termuxport.py:51-58 | each loop result is a visible listed name of its kind, and every visible name is in the list of its kind |
| Listing.ListedSound | termuxport.py:49-59 | everything listed is a visible entry of the directory, directories in the first list and the rest in the second |
| Listing.ListedComplete | termuxport.py:49-59 | every visible entry is listed, in the list its kind calls for |
| Listing.ListedSorted | termuxport.py:51 | each list is in strictly increasing name order, so nothing is listed twice |
| Listing.PyIndex | termuxport.py:92 | an index is valid exactly when `-n <= i < n`, and a negative index counts from the end |
| Listing.Pick | termuxport.py:90-94 | one token selects at most one item, and only a listed one |
| Listing.SelectTokens | termuxport.py:89-94 | the loop selects, in token order and with repeats, the item of each token whose number is a valid index |
| Listing.ChosenAppend | termuxport.py:89-94 | selecting with two runs of tokens is selecting with each in turn |
| Listing.ChosenFromListing | termuxport.py:89-94 | only listed items are selected, at most one per token |
| Listing.PickInvalid | termuxport.py:90-94 | a token that is not a number, or is out of range, selects nothing |
| Listing.NegativeTokens | termuxport.py:91-92 | `-1` selects the second-to-last item and `00` the last |
| Listing.PickOwnNumber | termuxport.py:91-92 | every item is selected by the number shown next to it |
| Listing.ChooseFiles | termuxport.py:76-96 | the prompt loop moves up on `0` and otherwise returns the selection from the current listing; it stops with nothing when `0` is typed at the root |
| Listing.ChosenAreListed | termuxport.py:76-96 | whatever is selected is a visible entry of the start directory or of one of its ancestors |
| Listing.ZeroAtRoot | termuxport.py:82-86 | `0` at the root ends the selection with nothing selected, whatever else was typed |
| Filter.Kept | termuxport.py:176 | filtering never lengthens the selection |
| Filter.KeptCounts | termuxport.py:176 | an excluded item is gone, and any other item is kept exactly as often as it was selected |
| Filter.KeptKeepsPlace | termuxport.py:176 | a kept item stays between what is kept before it and what is kept after it, so order is preserved |
| Filter.KeptIdempotent | termuxport.py:176 | filtering twice with the same extensions is filtering once |
| Filter.KeptNothing | termuxport.py:175-176 | an empty answer keeps every item |
| Filter.ExcludedExamples | termuxport.py:176 | the test is on the suffix after a dot: `mp4` drops `a.mp4` and `b.tar.mp4`, and keeps `mp4` and `a_mp4` |
| Sizes.ItemSizeCases | termuxport.py:101-107 | a file counts its size, a directory the sizes of all files below it (hidden ones too), anything else nothing |
| Sizes.FilesSize | termuxport.py:106-107 | the inner loop sums the sizes of one walked directory's files |
| Sizes.WalkedSize | termuxport.py:104-107 | the walk of a directory sums the sizes of every file below it, each once |
| Sizes.GetTotalSize | termuxport.py:99-108 | the loop returns the selection's total, item by item |
| Sizes.TotalSizeAppend | termuxport.py:99-108 | the total of two selections put together is the sum of their totals |
| Sizes.TotalSizeReordered | termuxport.py:99-108 | reordering the selection does not change its total |
| Fs.Copy2WF | termuxport.py:118 | `copy2` to a path whose parent is a directory leaves a tree, unless the file would land on a directory |
| Fs.RemoveTree | termuxport.py:164 | `rm -rf p` removes `p` and everything below it, and nothing else |
| Fs.RemoveTreeWF | termuxport.py:164 | removing a subtree leaves a tree |
| Fs.MissingHasNoSubtree | termuxport.py:163 | in a tree, a path that does not exist has nothing below it |
| Fs.MkdirAll | termuxport.py:127 | `mkdir(parents=True, exist_ok=True)` adds exactly the missing prefixes as directories and leaves existing entries alone |
| Fs.MkdirOne | termuxport.py:127 | below an existing directory, `mkdir` adds at most the one missing directory |
| Fs.MkdirAllWF | termuxport.py:127 | creating directories leaves a tree |
| CopyPlan.DestFor | termuxport.py:125-130 | a walked path of depth `d` below the item's parent lands at depth `d` below `dest` |
| CopyPlan.SourceOfDest | termuxport.py:125-130 | the source of a destination can be recovered from it |
| CopyPlan.DestOfSource | termuxport.py:125-130 | every path below `dest` is the destination of exactly one source path |
| CopyPlan.DestForInjective | termuxport.py:125-131 | different sources of one item land at different places |
| CopyPlan.DestBelow | termuxport.py:118 | the item itself and everything below it land strictly below `dest` |
| CopyPlan.ItemLands | termuxport.py:116-135 | where one of an item's source files lands, the copy leaves a file of the source's size |
| CopyPlan.ItemDirsLand | termuxport.py:124-127 | every directory the walk yields is re-created at its place below `dest` |
| CopyPlan.ItemCopiedUnchanged | termuxport.py:116-135 | copying an item changes nothing outside `dest/item.name` |
| CopyPlan.ItemCopiedWF | termuxport.py:116-135 | copying one item into a tree leaves a tree: every created directory and copied file hangs below a directory |
| CopyPlan.ItemKeepsDir | termuxport.py:116-135 | a directory stays a directory when an item is copied: no file is copied onto one |
| CopyPlan.CopyResultWF | termuxport.py:110-135 | copying a whole selection into a tree leaves a tree |
| CopyPlan.CopyResultKeepsKinds | termuxport.py:110-135 | through the whole copy, regular files stay regular files and directories stay directories |
| CopyPlan.PlanDestsAreFiles | termuxport.py:118-132 | every destination the copy records is a regular file once the copy is done |
| CopyPlan.CopyDirsLand | termuxport.py:124-127 | every directory the walk of a selected directory yields exists at its place below `dest` once the whole selection is copied |
| CopyPlan.FileItemCopy | termuxport.py:117-118 | a file item is copied by one `copy2` to `dest / item.name`, which is where it lands, and that makes its one pair |
| CopyPlan.ItemCopiedKeepsItem | termuxport.py:116-135 | copying an item never changes the item or anything below it, also when `dest` is above it |
| CopyPlan.UpOneLevel | termuxport.py:116-122 | with `dest` one level up (`..` typed in `a/b`), the file `a/b/c` is copied to `a/c`, and the selection is copyable |
| CopyPlan.DestAboveDisjoint | termuxport.py:125-126 | with `dest` above the item's parent, the item and the place of its copy are disjoint exactly when the item's name differs from the step of its path just below `dest` |
| CopyPlan.DestAboveOverlaps | termuxport.py:125-126 | when the item's name repeats that step, as for the item `h/x/x` and `dest` `h`, the item's files would land next to the item or on it, and the case is not disjoint |
| CopyPlan.SiblingsApart | termuxport.py:196-197 | for two items of one directory, the copy of the first writes at or above the second only if the first item and its copy are not disjoint |
| CopyPlan.CopyResultOutside | termuxport.py:110-135 | the copy of a whole selection changes nothing outside the subtree below `dest`, and not `dest` itself |
| CopyPlan.CopyLands | termuxport.py:116-135 | each selected source file ends up copied, with its size, at its destination, unless a later item of the same name lands there |
| CopyPlan.AdvancedIsTotal | termuxport.py:111-135 | the progress updates add up to the total `get_total_size` announced |
| CopyPlan.PlanBelow | termuxport.py:118-132 | every destination the copy records lies strictly below `dest` |
| Undo.RemoveListedSpec | termuxport.py:160-164 | what the undo leaves was there before and is unchanged; no listed path is left; whatever no listed path reaches is left |
| Undo.RemoveListedExact | termuxport.py:160-164 | an entry is left exactly when it was there and no listed path is it or above it |
| Undo.RemoveListedWF | termuxport.py:160-164 | the undo leaves a tree |
| Undo.RemoveListedIdempotent | termuxport.py:156-167 | a second undo with the same undo file removes nothing more |
| Undo.RemoveListedOutside | termuxport.py:160-164 | when every listed path lies below `base`, everything not below `base` is left as it was |
| Export.DestsIndex | termuxport.py:119-132 | the undo file holds one destination per copied file, in copy order |
| Export.DestsBelow | termuxport.py:118-132 | after a copy the undo file lists only paths strictly below `dest` |
| Export.CopyThenUndo | termuxport.py:114-164 | copying a selection and then undoing it restores everything outside the subtree below `dest` |
| Export.DirsSurviveUndo | termuxport.py:127-164 | the undo removes only files, so every directory there is after the copy is still there after the undo |
| Export.WalkedDirsSurviveUndo | termuxport.py:124-164 | every directory the walk re-creates below `dest` stays after the undo, because `mkdir` writes no undo line |
| Export.UndoAfterCopyIntoDir | termuxport.py:118-119 | when `dest / item.name` is an existing directory, `copy2` writes the file inside it, and undoing the undo line `dest / item.name` removes everything the directory held before |
| Export.CopyIntoDirExample | termuxport.py:118-119 | copying the file `a` to the existing directory `o/a` and undoing loses the file `o/a/x` |
| Export.UndoLandedRestores | termuxport.py:118-119 | an undo line naming where `copy2` actually wrote a new file makes the undo restore the filesystem exactly |
| Export.ArchiveNameStamp | termuxport.py:143 | the timestamp can be read back from the encrypted archive's name |
| Export.ArchiveNameInjective | termuxport.py:143 | exports made at different values of `int(os.times()[4])` get different archive names |
| Export.Session.constructor | termuxport.py:22-24 | start-up creates `TMP` and the default destination as directories and leaves the undo file and log as they were |
| Export.Session.CopyFile | termuxport.py:118-122 | one file copy is `copy2`: the source's size is written at `dst`, or inside `dst` when that is a directory; `dst` is appended to the undo file and `COPIED` to the log, and the progress bar advances by the size |
| Export.Session.CopyWalkedFile | termuxport.py:129-135 | one file of a walked directory is copied to its place below the directory's destination, with its undo line, log line and size on the bar, and the walk's state advances by that file |
| Export.Session.CopyNextFile | termuxport.py:128-135 | one step of the loop over a walked directory's files: a file not yet copied is copied, and the pairs written so far account for exactly the files copied so far |
| Export.Session.MakeDirs | termuxport.py:127 | the directory and its missing parents are created, and nothing else changes |
| Export.Session.CopyRootFiles | termuxport.py:128-135 | the files of one walked directory are copied, with one undo line, one log line and their sizes on the progress bar for each file |
| Export.Session.CopyTree | termuxport.py:124-135 | the walk of a directory item leaves the filesystem as the function of one item says, with one undo and one log line per file below it and the bar advanced by its size |
| Export.Session.CopyItem | termuxport.py:116-135 | one item is copied as the function of one item says, with its undo lines, log lines and progress |
| Export.Session.CopyWithProgress | termuxport.py:110-137 | the filesystem becomes the copy of the selection; the undo file is started afresh and holds exactly this call's destinations, one per copied file; the log gains one `COPIED` line per copied file; the bar ends at its total; one notification is sent when notifications are on |
| Export.Session.UndoLast | termuxport.py:156-167 | without an undo file nothing changes; otherwise the listed paths are removed and one `UNDO executed` line is logged; the undo file itself is kept |
| Export.Session.EncryptAndCopy | termuxport.py:140-153 | the archive and the encrypted copy are written where they can be; the log gains one `ENCRYPTED` line; the undo file then lists only the encrypted copy |

## Left out

- The progress bar's rendering (tqdm): only its total and the sum of its updates are modelled.
- The notification subprocess: only the content of each notification sent is recorded.
- `tar` and `openssl` are foreign programs. `EncryptAndCopy` takes the sizes of what they wrote as parameters.
- `getpass` and the password are not modelled. `int(os.times()[4])` is a parameter.
- `rm -rf` is modelled as removal of a subtree. Like `rm`, the model refuses to remove the root.
- `copy2` copies only the size; file contents, times and permissions are not modelled.
- I/O errors and exceptions are not modelled. The copy of a selection (`CopyPlan.ItemCopyable`, `CopyPlan.Copyable`) requires that `dest` is a directory and that no file stands where the walk creates a directory; otherwise `copy2` or `mkdir` raises.
- Export.Session.CopyWithProgress: a file item copied where a directory stands is not modelled in the selection copy, although `copy2` does not raise there: it writes the file inside the directory, and the undo line names the directory, so a later undo removes the directory with everything it held. `Export.Session.CopyFile` models that single call, and "## Findings" shows the loss.
- Export.Session.CopyItem: the same holds for one item, and for a walked file whose destination is a directory.
- Export.Session.CopyTree: a walked file whose destination is an existing directory is not modelled (`CopyPlan.TreeCopy`), although line 131 does not raise there: `copy2` writes the file inside the directory, and line 132 lists the directory.
- Export.Session.CopyRootFiles: the same, through `Export.Walking`.
- Export.Session.CopyNextFile: the same, through `Export.Walking`.
- Export.Session.CopyWalkedFile: the same, through `Export.Walking`.
- Export.Session.CopyWithProgress: each item and the place of its copy, `dest / item.name`, must not contain each other (`CopyPlan.Disjoint`). The same condition restricts `Export.Session.CopyItem`, `CopyTree`, `CopyRootFiles`, `CopyNextFile` and `CopyWalkedFile`. A `dest` above the items' parent, such as `..`, is modelled (`CopyPlan.UpOneLevel`). Four cases are left out. Of these, the source copies only the second cleanly, and only when the item holds no entry of its own name:
  - `dest` is strictly below the item. The walk then reads its own output, one level deeper each time. Running "Copy all" from the home directory with the default destination is such a case, since `TermuXport` holds `export`.
  - `dest` is the item itself (a directory). Lines 125-127 create `item / item.name` after `os.walk` has listed the item, so the walk never enters it, and line 131 copies the item's files into it. When the item holds no entry of its own name this copy is clean; the model does not cover it, because the copy then lands inside the item.
  - `dest` is the item's parent. The first file copied is then copied onto itself, and `copy2` raises `SameFileError`.
  - `dest` is further up, and the item's name is the step of its path just below `dest` (`CopyPlan.DestAboveDisjoint`). The copy then writes into a directory that holds the item, so files land next to the item or onto themselves (`CopyPlan.DestAboveOverlaps`).
- Export.Session.CopyWithProgress: it also requires that no item's copy writes at or above a later item. For the items of one directory, which is all the menu passes, this follows from the condition above (`CopyPlan.SiblingsApart`).
- The undo file and the log are fields of the session, not files in the modelled filesystem. In the source they are `DEFAULT_DEST/.undo_list` and `DEFAULT_DEST/termuxport.log` (lines 25-26). When a selected directory holds them, or `dest` is `DEFAULT_DEST`, the source differs from the model:
  - `termuxport.log` is listed by `get_items` and walked like any other file. It grows during the copy (lines 134-135), after `get_total_size` counted it (line 111).
  - `.undo_list` is emptied at line 114, after it was counted.
  - An undo whose list holds `DEFAULT_DEST` or a directory above it removes the undo file with it.
- CopyPlan.AdvancedIsTotal: holds because the log and the undo file are outside the modelled filesystem. In the source the bar can end away from its total, for the reasons above.
- Paths are modelled as sequences of names, not as strings. The model leaves out:
  - the text of the undo and log lines (`f"{dest}/{item.name}"` versus `str(dst_file)`);
  - the `strip()` of undo lines;
  - `Path`'s normalisation of the configured destination, and `~` expansion.
- Symbolic links are not modelled: every entry is a regular file or a directory.
- `PyStr.ParseInt` accepts ASCII digits only. Python's `int()` also accepts other Unicode digits.
- `banner`, `display_items` (its colours and numbering), `dry_run` and the `menu` dispatch only print or prompt, so they are not modelled.
- `choose_files` prompts through `input()`. Its answers are given as a sequence of lines, and running out of lines stands for end of input.
- Export.CopyThenUndo: copy then undo does not restore the subtree below `dest`. A copy over an existing file loses that file. And the directories the walk creates are never written to the undo file, so they stay (`Export.DirsSurviveUndo`, `Export.WalkedDirsSurviveUndo`). The lemma states restoration only outside that subtree.
- CopyPlan.CopyLands: the size at a file's destination is stated only when no later item in the selection has the same name. A later item of the same name copies over the same place.

## Findings

| source | as written | input that shows it | evidently intended | confidence | as-written member | corrected member |
|---|---|---|---|---|---|---|
| termuxport.py:118-119 | the undo line is `dest/item.name` even when `copy2` wrote the file inside an existing directory of that name; lines 131-132 do the same with `dst_file` | the file `a` copied to `dest` `o` while `o/a` is a directory holding `o/a/x`: the undo runs `rm -rf o/a`, and `o/a/x` is lost | the undo line names where the file was written, so the undo removes only the new file | not executed | Export.UndoAfterCopyIntoDir | Export.UndoLandedRestores |

`Export.Session.CopyFile` writes `dst` to the undo file, as the source does, and `Export.CopyIntoDirExample` is the concrete case. The copy of a selection only runs in states where no directory stands at a file's destination. There `copy2` writes at `dst`, so the undo line the source writes and the corrected one are the same path.
