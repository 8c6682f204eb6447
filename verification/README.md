# A verified model of the multi-bot Google Drive backup service

`send-to-google-drive.py` runs one backup loop per bot. A cycle does the following:

1. It names a local folder after the current weekday, date and minute, in French, and creates that folder.
2. It zips the bot's source folder into that local folder. Excluded folder names are pruned, and files whose names end with an excluded suffix are skipped.
3. It authenticates and creates a time-stamped folder on Drive.
4. It uploads the zip to that folder.
5. It prunes old local backup folders, keeping the `local_keep` newest by ctime.
6. It prunes old Drive folders, deleting `files[:-drive_keep]` of the folders sorted oldest first.
7. It logs a summary line.

The steps inside the `try` run in order, and the first exception skips the rest. The end-of-cycle line is always logged.

This project models the pure layer under that I/O as Dafny datatypes and functions, and proves its properties. The clock, the filesystem, the Drive listing and whether each foreign call raises are all inputs.

| module | file | what it models |
|---|---|---|
| `Wrappers` | wrappers.dfy | `Option` and `Result`; where a loop of calls stops at the first that raises |
| `PySlice` | pyslice.dfy | Python slice bounds: `s[i:]` and `s[:j]` for any integer, negative included |
| `Sorting` | sorting.dfy | `list.sort(key=..., reverse=...)` as a stable insertion sort |
| `Text` | text.dfy | `str.endswith`; `<=` on `str`; `d`/`02d` formatting; split/join; ASCII `lower()` |
| `Config` | config.dfy | `BotBackup.__init__`: the required keys, the fallbacks, and the global keys it reads |
| `Archive` | archive.dfy | `custom_zip_folder`: the walk, the two exclusion rules, the archive names, the count, and each call that can raise, in the order they are made |
| `Retention` | retention.dfy | `clean_local_backups` and `delete_old_backups_by_count`: what they select, and their stop-at-first-error removal loop |
| `Naming` | naming.dfy | the local folder name, the zip name and the Drive folder name, each with a decoder proved to invert it |
| `Cycle` | cycle.dfy | `do_backup` and one turn of `run`: the step order, the log, and the effects of each step; the same `try` with the size read moved before the cleanups |

The code behaves as follows in these places:

- **Local retention with a negative `local_keep`.** `subs[-k:]` removes only the `k` oldest folders.
- **Drive retention with `drive_keep = 0`.** The code deletes nothing, because `files[:-0]` is `files[:0]`. With `drive_keep = -k`, it deletes the `k` oldest.
- **Removal is not best-effort.** The first `rmtree` or `delete` that raises ends the loop, and the exception aborts the cycle.
- **A Drive `NotFound` is not treated as benign.** It raises like any other error.
- **A global key is required even when the bot overrides it.** `cfg.get(k, global_cfg[k])` evaluates the default first, so the key must exist. `scopes` is read only from the global section.
- **The local folder name has minute resolution, not second resolution.** Two cycles started in the same minute share one local folder.
- **An error before the `try` escapes `do_backup`.** The `os.makedirs` of the cycle's folder runs before the `try`, so its exception is caught by `run`, and no end-of-cycle line is logged.
- **Drive pruning sees at most one page of the listing** (`pageSize=1000`, no pagination). The model takes whatever listing the call returns.

## Model

| member | source | states |
|---|---|---|
| Config.LoadBot | send-to-google-drive.py:38-52 | Construction succeeds only when all ten keys read with `[]` are present, and `scopes` then comes from the global section. The exact error and the fallbacks are the lemmas below. |
| Config.LoadBotFailsOnFirstMissing | send-to-google-drive.py:40-52 | Construction fails exactly when one of the ten keys read with `[]` is missing: four from the bot, six from the global section. The error names the first missing key in reading order. |
| Config.GlobalKeysRequired | send-to-google-drive.py:46-52 | A missing global `backup_interval`, `local_keep`, `drive_keep`, `scopes`, `excluded_extensions` or `excluded_folders` makes construction fail even when the bot sets that key itself. |
| Config.LoadBotFallbacks | send-to-google-drive.py:40-52 | With every required key present, each attribute is the bot's value if it has one. Otherwise it is the global value, or `backup/{name}` or `backup-{name.lower()}`. `scopes` is always the global value. The exclusion sets have exactly the members of the chosen lists. |
| Config.BotScopesIgnored | send-to-google-drive.py:50 | A `scopes` key in the bot's own section changes nothing. |
| Config.AsSet | send-to-google-drive.py:51-52 | `set(list)` has exactly the list's members. |
| Text.AsciiLower | send-to-google-drive.py:45 | `lower()` keeps the length, maps each upper-case ASCII letter to its lower-case letter and leaves every other character alone. |
| Text.LexLe | send-to-google-drive.py:180 | `<=` on Python `str`: code point by code point, with a proper prefix first. Its properties are the three `LexLe*` lemmas below. |
| Text.LexLeTotal | send-to-google-drive.py:180 | Any two `createdTime` strings are comparable under Python's `str` order. |
| Text.LexLeTransitive | send-to-google-drive.py:180 | Python's `str` order is transitive. |
| Text.LexLeAntisymmetric | send-to-google-drive.py:180 | Two strings that are each `<=` the other are equal. |
| Text.PaddedValue | send-to-google-drive.py:197-200 | `{n:0wd}` of an `n` below `10^w` is exactly `w` digits that read back as `n`. |
| Text.JoinSplit | send-to-google-drive.py:222 | Splitting a string at a separator and joining the pieces back gives the string. The source never splits; this lemma supports the decoder `Naming.ParseDriveFolderName`, which recovers a bot name with spaces from the name built at this line. |
| Text.SplitJoin | send-to-google-drive.py:222 | Joining pieces that do not contain the separator, then splitting, gives the pieces back. Like `Text.JoinSplit`, it supports the decoder `Naming.ParseDriveFolderName` and models no call of the source. |
| Text.EndsWith | send-to-google-drive.py:109 | `str.endswith(suffix)`: the last `len(suffix)` characters equal the suffix. `Text.EndsWithEmpty` and `Archive.SuffixNotExtension` state its consequences. |
| Text.EndsWithEmpty | send-to-google-drive.py:109 | Every name ends with the empty string. |
| PySlice.From | send-to-google-drive.py:162 | `s[i:]`: a negative `i` counts from the end, and the bound is clamped into the sequence. Its properties are `PySlice.UptoFrom`, `PySlice.UptoFromMultiset` and `PySlice.FromLength`. |
| PySlice.Upto | send-to-google-drive.py:181 | `s[:j]` with the same bound rules; `s[:-0]` is `s[:0]`. Its properties are `PySlice.UptoFrom`, `PySlice.UptoFromMultiset` and `PySlice.UptoLength`. |
| PySlice.UptoFrom | send-to-google-drive.py:162 | `s[:i] + s[i:] == s` for every integer `i`, negative or out of range. |
| PySlice.UptoFromMultiset | send-to-google-drive.py:162 | The two slices at any `i` hold the elements of `s`, each once. |
| PySlice.FromLength | send-to-google-drive.py:162 | The length of `s[i:]` for every integer `i`: `max(0, n - i)` for `i >= 0`, and `min(-i, n)` for `i < 0`. |
| PySlice.UptoLength | send-to-google-drive.py:181 | The length of `s[:j]` for every integer `j`: `min(j, n)` for `j >= 0`, and `max(0, n + j)` for `j < 0`. |
| Sorting.Sort | send-to-google-drive.py:161 | The sorted list is a permutation of the input. |
| Sorting.SortSorted | send-to-google-drive.py:161 | For a total preorder on the keys, the sorted list is ordered by key. |
| Sorting.SortedSplit | send-to-google-drive.py:162 | Both halves of a sorted list are sorted, and every key of the first half comes no later than every key of the second. |
| Archive.Walk | send-to-google-drive.py:106-115 | The files `os.walk` with `dirs[:]` pruning hands to the write loop, in order: a directory's kept files, then each kept sub-directory. Its property is `Archive.WalkExact`. |
| Archive.ExcludedByExtension | send-to-google-drive.py:109 | `any(fname.endswith(ext) for ext in excluded_extensions)`. `Archive.SuffixNotExtension` shows it is a suffix test and not an extension test. |
| Archive.CustomZipFolder | send-to-google-drive.py:93-120 | The calls that can raise are made in the source's order. First an existing zip is removed, and a failing `os.remove` raises before anything else. Then a source that is not a directory raises `FileNotFoundError` naming the absolute path, and no zip is created. Then opening the new zip can raise. Then the walk's entries are written in order until a `z.write` raises, which leaves the zip with the entries before it; `total_files` counts them. Leaving the `with` block closes the zip, and a `close` that raises takes the place of any write error. Last, reading the zip's size can raise. With no raise, the zip holds every entry of the walk. |
| Archive.WriteTree | send-to-google-drive.py:105-115 | Below one directory, the files written are the walk's files in `os.walk` order, each under the source path and its relative name, up to the first write that raises. That entry is reported, and the count equals the number of entries written. |
| Archive.WriteFiles | send-to-google-drive.py:108-115 | The loop over one directory's files writes and counts its files with no excluded suffix, in listing order, and stops at the first write that raises. |
| Archive.WriteSubTrees | send-to-google-drive.py:106-107 | Each sub-directory whose name is not excluded is walked in turn, the excluded ones are pruned, and a write that raises in one of them ends the walk. |
| Archive.WalkExact | send-to-google-drive.py:106-111 | A path is walked if and only if a file exists there, no directory on it below the root is an excluded folder, and its name has no excluded suffix. |
| Archive.ArchiveContents | send-to-google-drive.py:106-114 | Every entry is an existing admitted file, stored under the source path and named by its relative path joined with `/`. Every admitted file has an entry. |
| Archive.SuffixNotExtension | send-to-google-drive.py:109 | The exclusion is a suffix test: `"py"` also excludes `"happy"`, and `""` excludes every file. |
| Retention.SelectLocal | send-to-google-drive.py:153-165 | The directories of the listing, sorted newest first by ctime, are split at `local_keep` with Python's slice rules, and `subs[local_keep:]` is removed. Kept and removed together number as many as the listed directories. |
| Retention.Subdirectories | send-to-google-drive.py:156-160 | The entries of `os.listdir(root)` for which `os.path.isdir` holds, in listing order, and no more of them than were listed. `Retention.SubdirectoriesMembers` states its members. |
| Retention.NewestFirst | send-to-google-drive.py:161 | `subs.sort(key=getctime, reverse=True)`. `Retention.LocalOrdering` states the order it gives. |
| Retention.SubdirectoriesMembers | send-to-google-drive.py:156-160 | The candidates are exactly the directories of the listing. |
| Retention.LocalPartition | send-to-google-drive.py:156-164 | Kept and removed together are the listed directories, each once. Nothing removed is anything other than a listed directory. |
| Retention.LocalOrdering | send-to-google-drive.py:161-162 | Every kept folder is at least as recent as every removed one, and removals go newest first. |
| Retention.LocalCount | send-to-google-drive.py:162 | For `k >= 0`, all but the `k` newest are removed (none when `k >= n`). For `k < 0`, the `-k` oldest are removed (all when `-k >= n`). |
| Retention.LocalKeepZeroRemovesAll | send-to-google-drive.py:162 | `local_keep = 0` keeps nothing and removes every directory. |
| Retention.LocalIdempotent | send-to-google-drive.py:161-162 | For a non-negative keep count, the rule removes nothing when applied again to its own survivors. |
| Retention.LocalExample | send-to-google-drive.py:153-165 | With two backups and a file in the root and `local_keep = 1`, the older backup is removed, the newer one is kept and the file is untouched. |
| Retention.SelectDrive | send-to-google-drive.py:167-186 | The listed folders, sorted oldest first by `createdTime` as Python strings, are split at `-drive_keep` with Python's slice rules, and `files[:-drive_keep]` is deleted. Kept and deleted together number as many as the listed folders. |
| Retention.OldestFirst | send-to-google-drive.py:180 | `files.sort(key=lambda f: f["createdTime"])` under Python's `str` order. `Retention.DriveOrdering` states the order it gives. |
| Retention.DrivePartition | send-to-google-drive.py:179-181 | Kept and deleted together are the listed folders, each once. |
| Retention.DriveOrdering | send-to-google-drive.py:180-181 | Every deleted folder was created no later than every kept one; a kept folder that is not strictly newer than a deleted one has the same `createdTime`. Deletions go oldest first. |
| Retention.DriveCount | send-to-google-drive.py:181 | For `1 <= k < n`, the `n - k` oldest are deleted. None are deleted for `k >= n` or `k == 0`. For `k < 0`, the `-k` oldest are deleted (all when `-k >= n`). |
| Retention.DriveKeepZeroDeletesNothing | send-to-google-drive.py:181 | `drive_keep = 0` deletes nothing and keeps every folder. |
| Retention.DriveIdempotent | send-to-google-drive.py:180-181 | For a non-negative keep count, the rule deletes nothing when applied again to its own survivors. |
| Retention.DriveExample | send-to-google-drive.py:179-183 | With two folders listed newest first, `drive_keep = 1` and `drive_keep = -1` both delete the older one. |
| Retention.RemoveInOrder | send-to-google-drive.py:163-164 | The targets are removed in order up to the first one that raises. That one is reported, nothing after it is attempted, and no error means every target was removed. |
| Naming.Weekday | send-to-google-drive.py:196 | `weekday()` computed from the day ordinal is below 7, so it indexes the seven French day names. |
| Naming.NextDayWeekday | send-to-google-drive.py:196 | `weekday()` advances by one, modulo 7, from one calendar day to the next, across month and year ends. |
| Naming.WeekdayAnchor | send-to-google-drive.py:196 | The weekday arithmetic gives Monday for 1 January 2024. |
| Naming.LocalFolderName | send-to-google-drive.py:195-201 | The f-string `jour-DD-mois-YYYY-HHhMM` with French weekday and month names. Its property is `Naming.LocalFolderNameRoundTrip`. |
| Naming.LocalFolderNameRoundTrip | send-to-google-drive.py:195-201 | The local folder name decodes back to the weekday, day, month, year, hour and minute it was built from. |
| Naming.LocalFolderNameIgnoresSeconds | send-to-google-drive.py:195-201 | Two times in the same minute give the same local folder name. |
| Naming.UtcStamp | send-to-google-drive.py:206 | `strftime("%Y%m%d_%H%M%S")` of the UTC time. `Naming.UtcStampShape` states its fixed width and that each field reads back. |
| Naming.ZipName | send-to-google-drive.py:205-207 | `{zip_prefix}_{%Y%m%d_%H%M%S}.zip` of the UTC time. Its property is `Naming.ZipNameRoundTrip`, and `Naming.UtcStampShape` gives the stamp its fixed width. |
| Naming.ZipNameRoundTrip | send-to-google-drive.py:206-207 | The zip name decodes back to its prefix and the UTC second it was built from, even when the prefix contains `_`. |
| Naming.ZipNameInjective | send-to-google-drive.py:206-207 | Two zip names are equal only for the same prefix and the same UTC second. |
| Naming.DriveFolderName | send-to-google-drive.py:222 | `{name} {day} {mois} {year} {hour}h{minute:02d}` with unpadded day and hour. Its property is `Naming.DriveFolderNameRoundTrip`. |
| Naming.DriveFolderNameRoundTrip | send-to-google-drive.py:222 | The Drive folder name decodes back to the bot name (spaces and all), day, month, year, hour and minute. |
| Cycle.StepFails | send-to-google-drive.py:213-236 | Which call in the `try` raises, for each step, given the steps already run. `Cycle.RunStep` states that each step fails exactly then. |
| Cycle.Trace | send-to-google-drive.py:210-242 | The log of a cycle in the source's order: the start line, the `try`, the end line. Its properties are the `Trace*` lemmas below. |
| Cycle.Attempt | send-to-google-drive.py:213-240 | The `try`: each step is started in turn, and the first that raises logs its error and ends the block. The block always ends with either the success line or an error. |
| Cycle.AttemptClosedForm | send-to-google-drive.py:213-240 | The `try` logs the steps up to and including the first failing one, then that step's error. With no failing step, it logs all steps, then the success line. |
| Cycle.TraceEnds | send-to-google-drive.py:210-242 | A cycle's log starts with the start line and ends with the end line, whatever fails. |
| Cycle.TraceRan | send-to-google-drive.py:213-236 | A step is started exactly when every step before it succeeded. |
| Cycle.TraceError | send-to-google-drive.py:238-239 | An error is logged for a step exactly when it is reached and raises, so at most one error per cycle. |
| Cycle.TraceOk | send-to-google-drive.py:230-236 | The success line is logged exactly when no step raises. |
| Cycle.FailureSkipsLater | send-to-google-drive.py:213-240 | Once a step's error is logged, no later step is started. |
| Cycle.RunStep | send-to-google-drive.py:213-236 | A step, run after any set of earlier steps, reports success exactly when it raises nothing, and adds its own effect to the effects of the steps run so far. The summary reads the zip's size: it raises exactly when the local cleanup has already run and removed the cycle's own folder. |
| Cycle.ZipStep | send-to-google-drive.py:215 | The zip step fails exactly when `custom_zip_folder` raises: removing the old zip, the source check, opening the new zip, a write, closing the zip, or reading its size. It records the zip outcome and count. |
| Cycle.CleanLocalStep | send-to-google-drive.py:153-165 | The local cleanup, called at line 227, fails exactly when listing the root or reading a ctime for the sort raises, or when an `rmtree` raises. It records the folders removed before that. |
| Cycle.CleanDriveStep | send-to-google-drive.py:228 | The Drive cleanup fails when the listing or a deletion raises, and records the folders deleted before that. |
| Cycle.RunTry | send-to-google-drive.py:213-242 | The loop over the steps, in any order without repeats, produces exactly the log of the first-failure control flow for that order, and the effects of every started step. |
| Cycle.DoBackup | send-to-google-drive.py:188-242 | The exception escapes exactly when creating the local folder fails. Otherwise the report has the log of the first-failure control flow, the three names, the zip outcome, and a Drive folder, upload and removals only for the steps that were reached. |
| Cycle.RunIteration | send-to-google-drive.py:247-253 | One turn of `run` ends with the end-of-cycle line, or with the single line for an exception that escaped `do_backup`. |
| Cycle.CleanRunReportsSummary | send-to-google-drive.py:213-236 | When every step before the summary succeeds, the upload is logged as done. The summary then logs an error exactly when the cycle's own folder was removed, and the success line otherwise. |
| Cycle.LocalKeepZeroRemovesCurrent | send-to-google-drive.py:161-164 | With `local_keep = 0`, a clean local cleanup removes the cycle's own folder. |
| Cycle.LocalKeepZeroReportsError | send-to-google-drive.py:161-164 | As written, with `local_keep = 0` a cycle whose upload succeeded still logs an error and no success line. |
| Cycle.LogOutcome | send-to-google-drive.py:213-240 | For any step order, the success line is logged exactly when no step fails, and an error only for a failing step. |
| Cycle.SizeFirstFailing | send-to-google-drive.py:231-232 | Corrected order, with the size read right after the upload: the steps that raise are those of the source's order, except the summary, which can no longer raise because the local cleanup has not run when the size is read. |
| Cycle.SizeFirstCleanRunOk | send-to-google-drive.py:230-236 | With the size read first, the success line is logged exactly when every step other than the summary succeeds, and no error is ever logged for the summary. A cycle whose steps before the summary all succeed logs success and no error, whatever `local_keep` is. |

## Left out

- **Foreign calls.** Google Drive calls, OAuth and `build`, `MediaFileUpload` and `mimetypes` are left out. Whether each call raises is an input flag (`credentialsOk`, `createOk`, `uploadOk`). The same holds for the zip's `os.remove`, `zipfile.ZipFile`, each `z.write`, the closing `close` and the `getsize` after it (`ZipIo`). The local listing is `None` when `os.listdir` or a `getctime` of the sort raises. A failing `build` counts as a failing authentication. Folder and file ids are not modelled: the created folder and the upload are recorded by name.
- **Filesystem and archive bytes.** The source is an abstract tree, not `os.walk`. DEFLATE bytes are not modelled, nor the `os.path.join`, `abspath` and `relpath` strings: a path is a sequence of components, and archive names are joined with `/`. Symbolic links and unreadable directories are not modelled; `os.walk` skips the latter silently. A `z.write` that raises midway is taken to add nothing, so a partly written entry in the closed zip is not modelled. The tree is an input, so a backup root inside the source folder, which would zip earlier backups, is not modelled.
- **Listings taken before the cycle.** The local listing and the Drive listing are inputs. The source lists the local root only when cleaning. `Cycle.LocalKeepZeroReportsError` therefore takes as a precondition that the cycle's own folder is in the listing, which the source guarantees by creating it first.
- **Logging.** Logger setup, message texts and the debug traceback are not modelled. The log is a sequence of events: start, `Ran(step)`, error, success, end and unexpected. `Ran(step)` marks that a step started; it is not a log line of the source.
- **Durations and sizes.** Durations and MB sizes (`time.time()`, `getsize`) are floating point and wall-clock values and are not modelled. The only role of `getsize` in the model is whether it raises. In `custom_zip_folder` that is an input flag. In the summary it raises when the zip is gone.
- **Intervals.** `timedelta(**backup_interval)` is left out. `run` evaluates it before its loop, so the summary's second evaluation cannot raise. A bad interval stops `run` before the first cycle, and that is not modelled.
- **Process level.** Threads, the infinite `run` loop with `time.sleep`, `main`, YAML loading and Ctrl+C are left out. The model covers one turn of `run`.
- **Start-up side effects.** The `os.makedirs(local_backup_root)` and logger setup at the end of `__init__` are left out (I/O).
- **YAML value types.** Every value is assumed to have the type the code expects. A non-string `name`, for example, making `.lower()` raise, is not modelled.
- Sorting.Sort: stability under equal keys is not proved. The retention properties are stated up to ties: ordering, partition and counts.
- Text.AsciiLower: only the ASCII letters are lowered. Python's `str.lower()` on other Unicode letters is not modelled.
- Naming.UtcStamp: the year is padded to four digits. Years before 1000, where some platforms' `strftime("%Y")` does not pad, are not covered; the clock never returns them.
- Retention.RemoveInOrder: it records only what is removed before the first failure, not a partially removed folder (a `rmtree` that raised midway).

## Findings

| source | as written | input that shows it | evidently intended | confidence | as-written member | corrected member |
|---|---|---|---|---|---|---|
| send-to-google-drive.py:161-164, 231-232 | With `local_keep = 0`, `clean_local_backups` removes every folder under the backup root, including the one this cycle just created with the zip in it. The summary then calls `os.path.getsize(zip_path)` on the deleted file, and the cycle logs an error although the upload succeeded. | `local_keep: 0` (keep no local copies), and a cycle whose zip, authentication, folder creation, upload and both cleanups succeed | A cycle whose upload and cleanups succeed logs the success line. Reading the size right after the upload (`Cycle.SizeFirstSteps`, run by `Cycle.RunTry`) makes it so. | medium, not executed | Cycle.LocalKeepZeroReportsError | Cycle.SizeFirstCleanRunOk |
