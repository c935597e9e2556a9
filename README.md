# Advisor: verified model of the pre-flight advisory

Advisor is a command-line tool that warns about a disruptive command before anyone runs it. It never runs the command. Its `main` looks at the argument vector:
- `reboot` and `shutdown` get a power-off warning.
- `rm -rf <folder>` gets a deletion warning, together with an analysis of the folder.
- Any other command is reported as not recognized.
- A missing command gets a usage message and exit status 1.

The folder analysis (`analyze_folder`) walks the folder recursively and keeps two counters:
- the number of regular files;
- the largest regular-file size seen, replaced only by a strictly larger size.

It prints the file count and the largest size. The largest size appears twice: once as the number of bytes the deletion would "free up", and once as the largest file.

This project models both parts in Dafny:

- `analysis.dfy`, module `FolderAnalysis`. The directory walk becomes a sequence of `Entry` values: a regular file with its size, a directory, or another kind. `AnalyzeFolder` is the source's loop, written as a method with a loop invariant. It is proved against `Fold`, a left fold of the per-entry `Step`. Lemmas relate `Fold` to `RegularSizes`, an independent reference that lists the sizes of the regular files in walk order. `Holder` gives the position of the entry that `largest_file` was last taken from. It makes the strict `>` comparison observable.
- `dispatch.dfy`, module `CommandDispatch`. `Dispatch` is the branching of `main` as a pure function from the argument vector (program name first) to an `Action` and an exit status. `Run` is the whole of `main`: it dispatches, then runs `AnalyzeFolder` on the walk of `argv[3]` when the command is `rm -rf`.

`analyze_folder` keeps only a count and a running maximum. It computes no total size, no directory count and no per-extension counts, and it reports no errors of its own. The "free up" figure is `largest_file`, not a sum of sizes.

## Model

| member | source | states |
|---|---|---|
| FolderAnalysis.AnalyzeFolder | advisor.cpp:5-20 | The loop leaves file_count and largest_file equal to the fold over the walk. The count is the number of regular-file entries. The largest size is at least every regular file's size, and is one of them or 0. An empty walk gives 0 and 0. |
| FolderAnalysis.FoldCountsRegularFiles | advisor.cpp:10-13 | After the walk, the file count equals the number of regular-file entries. |
| FolderAnalysis.FoldIsMaximum | advisor.cpp:8-15 | After the walk, the largest size is at least every regular file's size. It is one of those sizes unless it is still the initial 0. |
| FolderAnalysis.LargestZeroIff | advisor.cpp:8-15 | The largest size is 0 exactly when no regular file has a positive size, including when there are no regular files. |
| FolderAnalysis.NonRegularIgnored | advisor.cpp:11-18 | A directory or other non-regular entry inserted anywhere in the walk changes neither counter. |
| FolderAnalysis.FoldMonotone | advisor.cpp:13-15 | Extending the walk never decreases the file count or the largest size. |
| FolderAnalysis.FirstMaximumWins | advisor.cpp:14-15 | Because the comparison is strict, largest_file was last taken from a regular file of exactly that size, and every earlier regular file is strictly smaller: the first file of maximal size wins. No entry was used exactly when the largest size is 0. |
| FolderAnalysis.RegularFileBelowLargest | advisor.cpp:15 | Every regular file in the walk is no larger than the final largest size. |
| FolderAnalysis.NoticeOfWalk | advisor.cpp:22-23 | For every walk, the printed summary's file count is the number of regular files. Its "would free up" bytes equal its largest-file bytes. That figure is the maximum regular-file size, or 0, and not a sum. |
| CommandDispatch.Dispatch | advisor.cpp:26-45 | Exit status 1 and the usage message exactly when there are fewer than 2 arguments; status 0 otherwise. reboot and shutdown select the power advisory with that command. The folder advisory runs on argv[3] exactly when the command is rm, argc >= 4 and argv[2] is -rf. Everything else, including rm with another flag or too few arguments, is not recognized. |
| CommandDispatch.Run | advisor.cpp:26-45 | main returns the dispatched status, which is 1 exactly when argc < 2. The folder analysis runs exactly on the rm -rf path. Its notice then holds the regular-file count of the walk of argv[3], and the maximum regular-file size printed twice. |

## Left out

- The recursive directory iterator and its skip_permission_denied option (advisor.cpp:10) are operating-system I/O. The model takes the entries the walk yields as an input sequence. Traversal order, permissions and which entries are reachable are not modelled. In `Run`, the walk is a parameter from folder name to entries.
- Symbolic links are followed when entries are classified, as `is_regular_file()` and `file_size()` do. A link to a regular file is counted as a regular file with its target's size, so a file reached through several links is counted once per link. The model takes that classification as given in each `Entry` and does not model links or their targets.
- Exceptions that the iterator or `file_size` may throw, for example for a folder that does not exist. The source has no handler, so such an exception ends the program. The model has no error path for it.
- All message text written to standard output and standard error. Only the chosen advisory and the numbers passed to the analysis message are modelled.
- The widths of `size_t` and `uintmax_t`. Counts and sizes are unbounded naturals, so wrap-around is not modelled.
