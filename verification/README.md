# SLDB accelerator-integration scripts, modelled in Dafny

Three small Python tools move hardware accelerator RTL (Verilog) from a large
dump of repositories into the ESP SoC tree:

- `rename_module.py FILE OLD NEW` renames a Verilog module. It rewrites every
  line that opens a declaration of `OLD` (`^\s*module\s+OLD\b`) or closes it
  with a marker (`^\s*endmodule\s*//\s*OLD\s*$`). It keeps the original file
  as `FILE.bak`.
- `choose_acc_files.py` reads a fixed table of eight accelerators. For each
  requested file it runs a case-insensitive search under `rtl_repos/`,
  optionally narrowed by a search hint. It copies the first match into
  `selected_accelerator_files/<acc>/`.
- `copy_acc_into_esp.py` copies the regular files of each curated folder into
  an existing folder
  `esp/accelerators/rtl/<acc>_rtl/hw/src/<acc>_rtl_basic_dma64/`. It skips an
  accelerator whose source or destination folder is missing.

## The model

- **Filesystem** (`fs_model.dfy`):
  - The tree is a map from paths (sequences of name segments) to nodes, each
    a regular file with its text or a directory.
  - The class `FsModel.FileSystem` holds that map in a field. Its methods are
    the OS calls the tools make: `exists`, `is_file`, `readlines`,
    `mkdir(parents=True, exist_ok=True)`, `shutil.copy2`, `Path.rename` and
    `open(..., "w")`.
  - Each method states exactly when it succeeds and which constant writes it
    performs.
  - An exception that the scripts do not catch is a failed step. The run
    that hits it stops there and keeps the writes made before it.
- **Text** (`text.dfy`): Python's text mode, ASCII only. Universal newlines,
  `readlines`, `\s`, `\w` and `str.lower`.
- **Renamer** (`rename_module.dfy`):
  - Both regular expressions are defined twice: once as their meaning (an
    existential over match positions) and once as a scanner the code can
    run. The two are proved equivalent.
  - `str.replace` is `ReplaceAll`.
  - The per-line loop and the whole function are methods, each proved
    against a function of the file's contents.
- **Curator** (`choose_acc_files.dfy`):
  - `find_file`, `process_accelerator` and `main` are loops. Each is a method
    proved against a function of the tree: `FirstHit` for the search,
    `RunTasks` for the copies.
  - The order in which `rglob('*')` yields paths is an input, `walkOf(dir)`.
- **Integrator** (`copy_acc_into_esp.dfy`):
  - `copy_to_esp` and `main` are methods proved against `CopyToEspEffect` and
    `EspMain`.
  - The order of `iterdir()` is an input, `listingOf(dir)`.

The properties proved include:
- Both regular expressions match exactly the lines the scanners accept.
- The rename's outcome is decided by the file and the pattern matches, and
  only a successful rename touches the tree. After it, the backup holds the
  original and the file holds the rewritten lines.
- `find_file` returns the first hit of the walk.
- The curator never writes outside `selected_accelerator_files`. Its reports
  follow the dump. Running it a second time changes nothing.
- The integrator creates no directory and writes only the copies inside the
  ESP destination folders, each holding its source file's text. Running an
  accelerator a second time changes nothing.

The renamer's declaration pattern accepts any run of blanks after `module`,
but the replacement looks for `module OLD` with one space. So a declaration
written as `module<TAB>OLD` counts as a change and is left unrenamed. The
backup is still made and the file rewritten. The model keeps this behaviour
and `RenameModule.TabSeparatedDeclarationKeepsItsName` exhibits it.

The declaration rewrite calls `str.replace`, which renames every occurrence of
`module OLD` in a matching line, not only the first one
(`RenameModule.DeclarationRenamed`).

## Model

| member | source | states |
|---|---|---|
| Text.IsSpace | rename_module.py:19-20 | every `\s` character is a blank or a control character, at most U+0020 |
| Text.IsWordChar | rename_module.py:19 | every `\w` character lies above U+0020 and is not `/`, so no blank is a word character |
| Text.Lower | choose_acc_files.py:94-96 | `str.lower` keeps the length, leaves no upper-case letter and changes no other character |
| Text.TranslateNewlines | rename_module.py:13-14 | reading in text mode leaves no `\r`, and text without `\r` is read unchanged |
| Text.Lines | rename_module.py:14 | `readlines` cuts the text into non-empty lines whose concatenation is the text; every line but the last ends in `\n`, and no line has `\n` before its end |
| FsModel.ParsePath | rename_module.py:8 | every segment `Path(file_path)` keeps is a plain name: not empty, not `.`, without `/` |
| FsModel.ApplyTwice | choose_acc_files.py:100-103 | performing the same constant writes twice leaves the tree as performing them once (why re-copying is harmless) |
| FsModel.DirWritesKeepWellFormed | choose_acc_files.py:101 | `mkdir(parents=True, exist_ok=True)` keeps every node inside a directory |
| FsModel.CopyKeepsWellFormed | choose_acc_files.py:103 | a successful `copy2` keeps every node inside a directory |
| FsModel.RenameKeepsWellFormed | rename_module.py:37 | a successful `rename` keeps every node inside a directory |
| FsModel.WriteFileKeepsWellFormed | rename_module.py:40-41 | a successful write keeps every node inside a directory |
| FsModel.FileSystem.Exists | rename_module.py:9 | `exists()` is true exactly when the path is in the tree |
| FsModel.FileSystem.IsFile | choose_acc_files.py:96 | `is_file()` is true exactly when the path holds a regular file |
| FsModel.FileSystem.ReadLines | rename_module.py:13-14 | `readlines()` returns the lines of the file's text after newline translation |
| FsModel.FileSystem.MakeDirs | choose_acc_files.py:101 | `mkdir` fails exactly when a regular file sits on a prefix of the path; otherwise every prefix becomes a directory |
| FsModel.FileSystem.Copy2 | choose_acc_files.py:103 | `copy2` copies into `dst/<name>` when `dst` is a directory; it fails on a missing parent or a directory target and otherwise writes the source's text there |
| FsModel.FileSystem.Rename | rename_module.py:37 | `rename` moves the file, replacing a file at the target, and fails when the target is a directory or has no parent directory |
| FsModel.FileSystem.WriteText | rename_module.py:40-41 | `open(p, "w")` fails on a directory or a missing parent, and otherwise makes `p` hold exactly the text |
| RenameModule.DeclarationIsPattern | rename_module.py:19 | the scanner accepts a line exactly when `^\s*module\s+OLD\b` matches it |
| RenameModule.ClosingMarkerIsPattern | rename_module.py:20 | the scanner accepts a line exactly when `^\s*endmodule\s*//\s*OLD\s*$` matches it |
| RenameModule.BlankToEndIsAllSpace | rename_module.py:20 | the trailing `\s*$` accepts exactly the all-blank remainders |
| RenameModule.Classify | rename_module.py:23-28 | a line is a declaration exactly when the first pattern matches, and a closing marker exactly when only the second one does |
| RenameModule.ReplaceAbsent | rename_module.py:24 | `replace` leaves a line without the pattern unchanged |
| RenameModule.ReplaceAll | rename_module.py:24 | `replace` with NEW equal to OLD leaves a declaration line unchanged |
| RenameModule.RewriteLinesSpec | rename_module.py:22-29 | one output line per input line, at the same index: other lines unchanged, declarations with every `module OLD` replaced, closing markers replaced by `endmodule // NEW\n` |
| RenameModule.AnyMatchIsSomeMatchingLine | rename_module.py:16-28 | `changed` is set exactly when some line matches one of the two patterns, even when the rewrite leaves it as it was |
| RenameModule.DeclarationLineRewrite | rename_module.py:23-24 | a line matching the declaration pattern is rewritten by `replace` over the whole line |
| RenameModule.ReplaceInDeclaration | rename_module.py:24 | `replace` on `<blanks>module OLD<rest>` keeps the blanks, renames the declaration and also every later `module OLD` in the line |
| RenameModule.DeclarationRenamed | rename_module.py:19-25 | a single-spaced declaration becomes `<blanks>module NEW` followed by its remainder, with `module OLD` renamed there too |
| RenameModule.TabSeparatedIsDeclaration | rename_module.py:19 | `module<TAB>foo;` matches the declaration pattern for `foo` |
| RenameModule.TabSeparatedHasNoSpacedName | rename_module.py:24 | `module foo` with a space does not occur in `module<TAB>foo;` |
| RenameModule.TabSeparatedDeclarationKeepsItsName | rename_module.py:19-25 | a tab-separated declaration counts as a change and stays as it was |
| RenameModule.BackupPath | rename_module.py:36 | the backup is a different path with the same length and the same parent folder |
| RenameModule.RewriteFileLines | rename_module.py:16-29 | the loop produces the rewritten lines and the `changed` flag of the whole file |
| RenameModule.RenameVerilogModule | rename_module.py:7-44 | the outcome and the tree after the call are exactly what `RenameEffect` prescribes for the tree before it |
| RenameModule.RenameOutcomeCases | rename_module.py:8-37 | not found exactly when the path is missing; a crash exactly when it is a directory; no change exactly when no line matches; a crash exactly when the backup target is unusable; the tree changes only on a rename |
| RenameModule.RenamedResult | rename_module.py:35-41 | after a rename the backup holds the original node, the file holds the rewritten lines, no other path changed and the tree stays well formed |
| RenameModule.RunCli | rename_module.py:49-58 | anything but three arguments prints the usage and changes nothing; otherwise the run is `rename_verilog_module(argv[1], argv[2], argv[3])` |
| ChooseAccFiles.RegistryShape | choose_acc_files.py:28-81 | the table has eight entries, each lists files, and the names are distinct single segments |
| ChooseAccFiles.SubHint | choose_acc_files.py:109 | the hint is the table's `search_hint` when the entry has one and `""` otherwise |
| ChooseAccFiles.SearchRoot | choose_acc_files.py:109-111 | the search root lies in `rtl_repos`; it is `rtl_repos` itself for an empty hint and `rtl_repos/<hint>` otherwise |
| ChooseAccFiles.DestDirOfSegment | choose_acc_files.py:112 | each accelerator's folder is `selected_accelerator_files/<name>` |
| ChooseAccFiles.FirstHit | choose_acc_files.py:91-98 | a path `find_file` returns was walked and is a regular file whose lower-cased name is the lower-cased file name |
| ChooseAccFiles.FirstHitIsFirst | choose_acc_files.py:91-98 | `find_file` is `None` exactly when no walked path is a regular file with the lower-cased name; otherwise it is the earliest such path |
| ChooseAccFiles.FindFile | choose_acc_files.py:91-98 | the early-return loop returns the first hit of the walk |
| ChooseAccFiles.MoveFile | choose_acc_files.py:100-103 | `move_file` succeeds and writes exactly as `mkdir` followed by `copy2` prescribe, failing where either raises |
| ChooseAccFiles.MoveFileResult | choose_acc_files.py:100-103 | the source stays as it was and only prefixes of the folder and the copy change; on success the folder is a directory and the copy (under the source's name, one level deeper if that name is a directory) holds the source's text |
| ChooseAccFiles.ProcessFile | choose_acc_files.py:115-120 | one pass reports a miss or a copy of the first hit and moves it, as `RunTask` prescribes |
| ChooseAccFiles.ProcessAccelerator | choose_acc_files.py:106-120 | the accelerator's files are handled in table order until one raises, as `RunTasks` prescribes |
| ChooseAccFiles.RunTasksAppend | choose_acc_files.py:115-127 | running two lists of files one after the other is running their concatenation |
| ChooseAccFiles.ProcessAll | choose_acc_files.py:126-127 | the accelerators are processed in table order, stopping at the first exception |
| ChooseAccFiles.CurateAccelerators | choose_acc_files.py:122-127 | `main` stops before anything when `rtl_repos` is missing and otherwise runs the whole table |
| ChooseAccFiles.MoveFileKeepsAgree | choose_acc_files.py:100-103 | a move never changes a node outside the destination root |
| ChooseAccFiles.RunTasksKeepsAgree | choose_acc_files.py:115-120 | a run over any files never changes a node outside the destination root |
| ChooseAccFiles.RunTasksAgree | choose_acc_files.py:115-120 | a run gives the same reports and writes on trees that differ only in ways the curator cannot observe |
| ChooseAccFiles.FirstHitAgree | choose_acc_files.py:91-98 | the search gives the same answer on such trees when its walk stays out of the destination |
| ChooseAccFiles.ReportsFollowSourceTree | choose_acc_files.py:115-120 | report `i` belongs to file `i` and is a miss or the first hit in the original dump; without an exception every file is reported, and an exception comes only at a file the search found |
| ChooseAccFiles.CurationLeavesSourceAlone | choose_acc_files.py:122-127 | `main` leaves everything outside `selected_accelerator_files`, including the dump, as it was |
| ChooseAccFiles.CurationReports | choose_acc_files.py:122-127 | `main` stops exactly when `rtl_repos` is missing; otherwise it reports the table's files in order, each as the search sees the dump, and an exception comes only at a file the search found |
| ChooseAccFiles.CurationIdempotent | choose_acc_files.py:122-127 | a second `main` on the tree the first left reports the same and changes nothing |
| CopyAccIntoEsp.DestDirLayout | copy_acc_into_esp.py:38-43 | the source folder is `selected_accelerator_files/<acc>` and the destination `esp/accelerators/rtl/<acc>_rtl/hw/src/<acc>_rtl_basic_dma64` |
| CopyAccIntoEsp.FoldersApart | copy_acc_into_esp.py:20-21 | no accelerator's source and destination folders lie inside each other |
| CopyAccIntoEsp.NamesMatchRegistry | copy_acc_into_esp.py:23-32 | the integrator's names are the curator's table names, in the same order |
| CopyAccIntoEsp.CopyEntriesAgree | copy_acc_into_esp.py:48-51 | the copy loop depends only on the directories and the source folder's contents |
| CopyAccIntoEsp.CopyEntriesPlan | copy_acc_into_esp.py:48-51 | the loop finishes exactly when every listed regular file can be copied, then copying all of them; each copy writes the source's text as found before the loop |
| CopyAccIntoEsp.PlanEffect | copy_acc_into_esp.py:48-51 | after the copies each target holds its source's text, nothing else changes, and the source folder and every directory are untouched |
| CopyAccIntoEsp.CopyListed | copy_acc_into_esp.py:48-51 | the loop over the listing copies what `CopyEntries` prescribes and stops at the first failing `copy2` |
| CopyAccIntoEsp.CopyToEsp | copy_acc_into_esp.py:37-51 | `copy_to_esp` reports and writes what `CopyToEspEffect` prescribes |
| CopyAccIntoEsp.CopyToEspResult | copy_acc_into_esp.py:37-51 | a missing source or destination is reported and changes nothing; the run finishes exactly when the source is a directory whose listed regular files can all be copied; every copied file's text sits at its target and nothing else changes |
| CopyAccIntoEsp.CopyToEspTwice | copy_acc_into_esp.py:37-51 | a second `copy_to_esp` on the tree the first left does the same and changes nothing |
| CopyAccIntoEsp.CopyToEspStaysInDestination | copy_acc_into_esp.py:43-51 | one run writes only inside its destination folder and creates no directory |
| CopyAccIntoEsp.EspMainStaysInEsp | copy_acc_into_esp.py:57-60 | `main` creates no directory and changes nothing outside `esp/accelerators/rtl` |
| CopyAccIntoEsp.EspMainShape | copy_acc_into_esp.py:57-60 | one run per name in order; a missing folder does not stop the loop, and only the last run can be one that raised |
| CopyAccIntoEsp.EspMainRuns | copy_acc_into_esp.py:57-60 | run `k` is `copy_to_esp(accs[k])` on the tree the earlier runs left |
| CopyAccIntoEsp.CopyNext | copy_acc_into_esp.py:58-60 | one pass of the loop of `main` adds the next run of `EspMain` and performs its writes |
| CopyAccIntoEsp.CopyAllToEsp | copy_acc_into_esp.py:57-60 | the loop of `main` yields the outcomes and writes of `EspMain` |
| CopyAccIntoEsp.CopyAllAccelerators | copy_acc_into_esp.py:57-60 | `main` over the script's eight names yields at most one outcome per name, the writes of `EspMain`, no new directory and no change outside `esp/accelerators/rtl` |

## Left out

- Console output (`print`) is not modelled. Outcomes and reports stand for the messages.
- The `[OK]` lines call `relative_to`. That call cannot fail here, because every found path lies inside the search root (`WalkWithin`) and every target inside its destination. It is not modelled further.
- The process exit status is modelled only as the usage check of `rename_module.py` (`RunCli`).
- File metadata that `shutil.copy2` keeps (times, mode bits), permissions, symbolic links and special files are not modelled. Every node is a regular file or a directory.
- Only relative paths of plain segments are modelled. Path strings are split on `/`, dropping empty and `.` segments as `pathlib` does. Absolute paths and `..` are not modelled.
- The orders of `rglob('*')` and `iterdir()` depend on the operating system. They are the inputs `walkOf` and `listingOf`. The lemmas assume only that a walk stays inside its root.
- Text is ASCII. Python's Unicode `\s`, `\w` and `str.lower` agree with the model on ASCII only. Encodings and decoding errors are not modelled.
- Concurrent changes to the tree and partially written files are not modelled. Every OS call is atomic.
- POSIX semantics are assumed. `Path.rename` silently replaces an existing `.bak` file (rename_module.py:37), where Windows raises `FileExistsError`. Text mode writes `\n` as it is, with no `\r\n` translation.
- `get_rtl_repo_acc.py` is not part of this model.
