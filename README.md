# Automated portfolio organizer, modelled in Dafny

The organizer tidies one flat directory in a single run. It first provisions one
destination folder per file category, plus `Miscellaneous` and `Old_Files`. Then
it walks the top-level entries of the directory. Directories are skipped. A file
whose modification time is older than `DAYS_TO_ARCHIVE` (30) days goes to
`Old_Files`. Any other file goes to the first category whose extension list holds
its lower-cased suffix, or to `Miscellaneous` when none does. Each file keeps its
name.

The model has four modules:

- `Wrappers` (`wrappers.dfy`): the `Option` type. `None` stands for an operation
  that raised.
- `FileSystem` (`filesystem.dfy`): the directory as a map from relative paths to
  `Dir` or `File(mtime)`. It has the pure effects of `mkdir`, `stat` and
  `shutil.move` as functions. The class `Disk` holds the map and changes it in
  place through methods with the same effects.
- `Classification` (`classification.dfy`): the configuration. This is the
  ordered category table `FILE_CATEGORIES` (a sequence, so declaration order is
  explicit), the 30-day threshold in seconds, and the two fixed folder names.
  It also has the pure per-file decision: `Suffix` (the `PurePath.suffix`
  rule), `Lower`, the first-match lookup `FirstMatch`, and `TypeDestination`.
- `Organizer` (`organizer.dfy`): the two passes. `SetupDirectories` and
  `FileOrganization` are loops over a `Disk`. Each is proved equal to a recursive
  specification function over the initial tree (`Provision` and `Organize`).
  These are built from one-entry steps (`MakeFolder` and `Step`). The lemmas
  state what the passes guarantee.

The clock reading `now`, the entry list that `iterdir()` returns, and which
operating-system calls fail are parameters. Failures are given as sets of names
(`Faults`, `mkdirFails`). Some failures also follow from the tree itself:

- a move fails when its source is missing or its destination folder is not a
  directory;
- `mkdir` fails when the name is taken by a file.

The model follows the three error paths of the code exactly:

- A failing `stat` sends the file on to the move by type.
- A failing archive move also sends the file on to the move by type.
- A failing move by type is not caught, so it ends the whole pass.

Some behaviours of the code are easy to get wrong from a quick reading, and the
model follows the code in each of them:

- There is no content-type fallback. A file whose extension is in no category,
  such as `photo.heic`, goes to `Miscellaneous` even when it is an image
  (`NoContentTypeFallback`).
- A failed move is not always a per-file error. Only the archive move is inside
  the `try`. A failing move by type ends the pass (`FailedTypeMoveEndsPass`).
- The image category is spelled `images`, in lower case, unlike the other three.
- Nothing is reported except by printing, and printing is left out.
- A file already at `<destination>/<name>` is replaced by the moved file, as a
  POSIX rename replaces its target (`PreviousFileAtDestinationIsReplaced`). So
  a pass can lose a file that sat in a destination folder before it started.
  No listed file is lost: each one ends up in exactly one place.

## Model

| member | source | states |
|---|---|---|
| `FileSystem.MakeFolder` | organizer.py:30 | `mkdir(parents=True, exist_ok=True)` succeeds exactly when the name is already a directory, or is absent and its creation does not fail. On success the name is a directory, at most that one path is added, and every existing path keeps its content. |
| `FileSystem.Stat` | organizer.py:46 | Reading the modification time succeeds exactly when a file is there and no fault hits it, and then it returns that file's time. |
| `FileSystem.MoveFile` | organizer.py:50 | `shutil.move` succeeds exactly when the source exists, the destination's folder is a directory, and no fault hits it. On success the source path is gone, the destination holds the moved entry, and every other path is unchanged. |
| `FileSystem.Disk.IsDir` | organizer.py:41 | `is_dir()` is true exactly when a directory is at the path; it is false for a file and for a missing path. |
| `FileSystem.Disk.StatMtime` | organizer.py:46 | Reading the time of an entry on the disk gives exactly what `Stat` gives. The path is one that `is_dir()` reported is not a directory, so the read raises only when nothing is there or a fault hits it. |
| `FileSystem.Disk.Mkdir` | organizer.py:30 | Creating a folder changes the disk exactly as `MakeFolder` says, and reports whether it raised. |
| `FileSystem.Disk.Move` | organizer.py:64 | Moving changes the disk exactly as `MoveFile` says, and leaves it unchanged when it raises. |
| `Classification.Categories` | organizer.py:28 | The category names of the table, in declaration order. |
| `Classification.AllFolders` | organizer.py:28 | The folders to provision are the category names in declaration order, then `Miscellaneous`, then `Old_Files`. |
| `Classification.ArchiveThreshold` | organizer.py:35 | The archive threshold is `now` minus 30 days of 86400 seconds, that is `now - 2592000`. |
| `Classification.IsOld` | organizer.py:49 | A file is old exactly when it was modified more than 30 days (2592000 seconds) before `now`, strictly. |
| `Classification.ThresholdIsStrict` | organizer.py:35 | The threshold is `now` minus 30 days of 86400 seconds. A file modified exactly at the threshold is not old; one second earlier it is. |
| `Classification.LastDot` | organizer.py:57 | The index of the last dot of a name, or -1 when it has none. |
| `Classification.Suffix` | organizer.py:57 | `Path.suffix` is empty, or it is a proper tail of the name that starts with its only dot and has at least one more character. |
| `Classification.SuffixCharacterization` | organizer.py:57 | A name has a non-empty suffix exactly when its last dot is neither its first nor its last character. |
| `Classification.SuffixAt` | organizer.py:57 | When the last dot is inside the name, the suffix is the name from that dot on. |
| `Classification.Lower` | organizer.py:57 | Lower-casing keeps the length, leaves no upper-case ASCII letter, and changes only upper-case letters, each into its lower-case form. |
| `Classification.FirstMatch` | organizer.py:59-62 | The scan stops at the first category whose list holds the extension. No earlier category holds it, and when the scan runs off the end no category holds it. |
| `Classification.TypeDestination` | organizer.py:57-62 | The folder chosen by type is always one of the provisioned folders. |
| `Classification.FirstListingCategoryWins` | organizer.py:59-62 | If category `i` is the first in table order whose list holds the lower-cased suffix, the file goes to category `i`, even when later categories list the suffix too. |
| `Classification.UnlistedSuffixIsMiscellaneous` | organizer.py:58-62 | A lower-cased suffix that no category lists, the empty suffix included, sends the file to `Miscellaneous`. |
| `Classification.TypeDestinationCases` | organizer.py:57-62 | The type destination is either the first category listing the suffix, or `Miscellaneous` when no category lists it. |
| `Classification.ConfiguredFoldersAreDistinct` | organizer.py:13-28 | The six folders of the configured table are pairwise distinct. |
| `Classification.UpperCaseExtensionMatches` | organizer.py:57-62 | `REPORT.PDF` goes to `Documents`. |
| `Classification.OnlyLastSuffixCounts` | organizer.py:57-62 | `backup.tar.gz` has the suffix `.gz` and goes to `Miscellaneous`. |
| `Classification.LeadingDotIsNoSuffix` | organizer.py:57-62 | `.py` and `.bashrc` have no suffix, and `.py` goes to `Miscellaneous`, not to `Code`. |
| `Classification.TrailingDotIsNoSuffix` | organizer.py:57 | `notes.` has no suffix. |
| `Classification.NoContentTypeFallback` | organizer.py:56-63 | `photo.heic` goes to `Miscellaneous`: nothing looks up a content type. |
| `Organizer.Provision` | organizer.py:29-30 | A folder it reports as raised is one of the folders it was given (which one, and what was created before it, is stated by `ProvisionRaisesAtFirstFailure` and `ProvisionCreatesFoldersBeforeFailure`). Whether or not it raises, no existing entry is removed or changed. |
| `Organizer.SetupDirectories` | organizer.py:26-30 | Provisioning creates the folders of `AllFolders` in order, on the disk. The first `mkdir` that raises ends it, and the disk then holds exactly what `Provision` gives. |
| `Organizer.ProvisionRaisesAtFirstFailure` | organizer.py:29-30 | When provisioning raises, the folder it reports is the first in order that cannot be provisioned; every folder before it could be. |
| `Organizer.ProvisionCreatesFoldersBeforeFailure` | organizer.py:29-30 | When folder `k` is the first that cannot be provisioned, provisioning raises at it. By then exactly the folders before it have been added, each as a directory. |
| `Organizer.ProvisionSucceedsIff` | organizer.py:28-30 | Provisioning completes exactly when every folder name is already a directory, or is absent and can be created. |
| `Organizer.ProvisionCreatesFolders` | organizer.py:28-30 | After a successful provisioning, every folder is a directory. Only those folders were added, and no existing entry changed. |
| `Organizer.ProvisionOfExistingFoldersIsNoop` | organizer.py:29-30 | When every folder already exists as a directory, provisioning changes nothing and does not raise. |
| `Organizer.ProvisionIsIdempotent` | organizer.py:29-30 | Provisioning a second time leaves the tree as the first run left it, and does not raise. |
| `Organizer.ArchiveAttempt` | organizer.py:45-54 | The archive branch succeeds exactly when the entry is a file, its time can be read, it is old, `Old_Files` is a directory and the move does not fail. Then the file has left the top level and sits in `Old_Files` under its own name, with its content. |
| `Organizer.Step` | organizer.py:39-64 | One entry: a directory leaves the tree as it is. A step raises only for a non-directory whose archive branch failed. After a successful step on a non-directory, the entry has left the top level. |
| `Organizer.Destination` | organizer.py:45-63 | The folder a file is filed under is always one of the provisioned folders. |
| `Organizer.DirectoryIsSkipped` | organizer.py:41-42 | A directory entry changes nothing: it is not moved and not renamed. |
| `Organizer.OldFileIsArchived` | organizer.py:49-52 | An old file whose time can be read and whose archive move succeeds goes to `Old_Files` under its own name, whatever its extension. The step is the same under any category table, so the type lookup is never reached. |
| `Organizer.AgeCheckFailureFallsThrough` | organizer.py:45-64 | A file that is not old, whose time cannot be read, or whose archive move raises (a fault, or `Old_Files` is not a directory) is moved by type instead. |
| `Organizer.ThresholdFileIsNotArchived` | organizer.py:49 | A file modified exactly at the threshold is filed by type, not archived. |
| `Organizer.StepRaisesOnlyOnTypeMove` | organizer.py:45-64 | An entry raises exactly when it is not a directory, was not archived, and its move by type cannot happen. |
| `Organizer.StepPlacesFile` | organizer.py:45-64 | After a successful step, the file has left the top level and sits at `<destination>/<its name>` with its content. |
| `Organizer.StepFrame` | organizer.py:38-64 | A step on an entry changes no path other than the entry itself and `<destination>/<entry>` for the one destination chosen for it. |
| `Organizer.PreviousFileAtDestinationIsReplaced` | organizer.py:63-64 | `a.pdf` filed while `Documents/a.pdf` already exists replaces the older file: the older content is gone. |
| `Organizer.StepKeepsTopLevelDirectories` | organizer.py:41-42 | A step neither removes nor creates a directory at the top level. |
| `Organizer.DestinationIsLocal` | organizer.py:45-63 | An entry's destination depends only on that entry and on whether `Old_Files` is a directory. This is why earlier moves in the pass do not change it. |
| `Organizer.Organize` | organizer.py:38-64 | The entry the pass reports as raised is one of the listed entries. |
| `Organizer.FileOrganization` | organizer.py:33-65 | The pass over the listed entries changes the disk exactly as `Organize` does. It reports the entry whose move by type raised and ended the pass, if any. |
| `Organizer.PassKeepsTopLevelDirectories` | organizer.py:38-42 | After the pass, the top-level directories are exactly those that were there before. |
| `Organizer.PassFrame` | organizer.py:38-64 | The pass changes no path other than the listed entries and `<folder>/<entry>` for a listed entry. |
| `Organizer.PassWritesOnlyTheDestination` | organizer.py:38-64 | Over distinct names, whether or not the pass completes, the only `<folder>/<entry>` it can change for a listed entry is the one under that entry's destination. Every other folder's copy of that name is left as it was. |
| `Organizer.CompletedPassPlacesEveryFile` | organizer.py:38-64 | When the pass completes over distinct names, every listed file has left the top level. It sits under its own name, with its content, in the folder chosen for it. |
| `Organizer.FailedTypeMoveEndsPass` | organizer.py:63-64 | A move by type that raises ends the pass where it stands. Later entries are never processed. |
| `Organizer.RaisedFileStaysInPlace` | organizer.py:63-64 | The entry whose move raised is a listed one, and it is still at the top level, unchanged. |
| `Organizer.ProvisionedPassCompletes` | organizer.py:26-64 | With every provisioned folder a directory, a pass over existing entries raises only if a fault hits a move by type. |
| `Organizer.SetupThenOrganize` | organizer.py:26-64 | After provisioning succeeds, a pass without faults on moves by type completes, and each listed file ends up under its own name in a provisioned folder. The listing may name folders that provisioning just created. |

## Left out

- Console output (the `print` calls at organizer.py:51, 54, 65 and 68-73), `main`, and the `target_directory` constant. The model assumes that `print` never raises. If it did, the effects would differ. At line 51 the file is already archived, so the exception is caught, the move by type then finds no source and raises, and the pass ends. At lines 54 and 65 the exception ends the pass.
- The clock and float timestamps: `now` and each mtime are whole seconds given as integers. `datetime.fromtimestamp` works in naive local time, so a daylight-saving shift inside the 30 days can move the real threshold by an hour; the model does not capture this. A conversion that raises counts as a `stat` fault.
- Enumeration order: `iterdir()` is a given sequence of names. Lemmas that follow a file through the pass assume the names are distinct, as a directory listing's are.
- Operating-system failures of `mkdir`, `stat`, the archive move and the move by type are given as sets of names. An entry listed twice would share its faults.
- `FileSystem.Disk.IsDir` and `Organizer.Step`: the model assumes `is_dir()` at organizer.py:41 never raises. On Python versions whose pathlib passes on any `OSError` from `is_dir()` other than a missing path, a non-directory component, a bad descriptor or a symlink loop (for example a permission error on a target directory that is readable but not searchable), that error is outside the `try`, so it would end the whole pass at that entry, like a failing move by type.
- `shutil.move` details. A move replaces whatever is at the destination, as a POSIX rename does. A failed move changes nothing. The model does not capture a cross-device copy that stops half-way, or a move onto an existing directory (which `shutil.move` would turn into a move into that directory).
- `mkdir(parents=True)` creating the target directory itself: the target is taken to exist. A failure to create a folder raises and ends provisioning.
- Symbolic links and file kinds other than regular files and directories.
- `Classification.Lower` maps only the ASCII letters A-Z. Python's `str.lower()` also folds other Unicode letters, so such suffixes are not lower-cased here.
- `Classification.Suffix` follows the `PurePath.suffix` rule of Python 3.13 and earlier: a name ending in a dot has no suffix. Python 3.14 treats the trailing dot as a suffix.
