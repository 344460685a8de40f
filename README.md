# Discography collector: a verified model of the bounce-selection pass

`ExtractDiscography.py` treats every directory directly under the working directory as one song folder. In each folder it looks for audio "bounces", meaning regular files whose path ends in `.mp3`, `.wav`, `.flac` or `.ogg`. The match is case-sensitive. It picks the bounce with the greatest birth time and copies it into `Current Discography`. It keeps three counters: song folders seen, bounces seen, and bounces copied.

This project models the pass at lines 10–42. The filesystem is replaced by plain data:

- The root listing is a `seq<Entry>` in enumeration order. Each entry is either `NonDir` or `Dir(path, children)`.
- Each child is `Child(name, isFile, birthTime)`. The birth time is a `real` that is only ever compared with other times.
- The output directory is a `map<string, string>`. It sends each file name in the folder to the source path that was copied under that name. It starts with whatever the directory already held, because the directory is created with `exist_ok=True`.

There are two modules:

- `Bounces` (Bounces.dfy) covers one song folder. It holds the entities, the suffix filter, the newest-bounce function `Newest` with its declarative characterisation `IsNewestAt`, and the method `ScanFolder`, which is the inner loop.
- `ExtractDiscography` (ExtractDiscography.dfy) covers the pass over the root. It holds the specification functions for the three counters and the output map, the method `Collect`, which is the outer loop, and the lemmas about the whole pass.

The inner loop in the source is written inline in the outer loop. Here it is the method `ScanFolder`. That method returns the folder's candidate count, which `Collect` adds to the bounce counter, and the index of the pick in the folder's listing. Using an index tells apart children that are equal as values, and lets the model state the tie rule.

The suffix test matches what the code does. It runs on the child's full path string, `str(subitem)` = folder path + `/` + name, not on the name alone. `CandidateByName` proves the two tests agree for every folder path and name, because none of the four extensions contains a `/`.

The running maximum starts at `0` (line 24), and a candidate replaces the current pick only when its time is strictly greater (line 32). So the pick is not simply "the newest candidate". A candidate with a birth time ≤ 0 is never picked, and among equal maxima the first one listed wins. The model follows the code here.

## Model

| member | source | states |
|---|---|---|
| `Bounces.IsAudioPath` | ExtractDiscography.py:28 | a path is an audio path exactly when it ends, case-sensitively, in one of the entries of the extension tuple `.mp3`, `.wav`, `.flac`, `.ogg` |
| `Bounces.IsCandidate` | ExtractDiscography.py:28 | a candidate is always a regular file (the `is_file()` half of the test); it is a file whose full path passes `IsAudioPath` |
| `Bounces.EndsWithAfterSeparator` | ExtractDiscography.py:28 | a separator-free extension is a suffix of `dir/name` exactly when it is a suffix of `name` |
| `Bounces.CandidateByName` | ExtractDiscography.py:28 | a child is a candidate iff it is a file and its name ends in one of the four extensions |
| `Bounces.CaseSensitiveMatch` | ExtractDiscography.py:28 | `.wav`/`.flac` match; `.WAV`, `.Mp3` and `.wav.txt` do not |
| `Bounces.Candidates` | ExtractDiscography.py:26-29 | a child value occurs among the folder's candidates exactly when it occurs in the listing and is a file with an audio path; there are never more candidates than children |
| `Bounces.CandidateCount` | ExtractDiscography.py:26-29 | the number of candidates, which is what a folder adds to bounce_count, equals the number of listing positions holding a candidate |
| `Bounces.Newest` | ExtractDiscography.py:23-35 | the running pick, when there is one, is an index of the listing whose child is a candidate with a birth time > 0 |
| `Bounces.NewestBound` | ExtractDiscography.py:24-34 | every candidate's time is ≤ the running maximum (0 when nothing is picked) |
| `Bounces.NewestEarliest` | ExtractDiscography.py:32 | every candidate listed before the pick is strictly older: the first of several equal maxima wins |
| `Bounces.NewestCorrect` | ExtractDiscography.py:23-35 | no pick means no candidate has a positive time; a pick is a positive-time candidate that is maximal and earliest among maxima |
| `Bounces.NewestUnique` | ExtractDiscography.py:32 | at most one index is the maximal, earliest positive-time candidate |
| `Bounces.NewestIff` | ExtractDiscography.py:24-37 | pick == Some(i) iff i is the maximal, earliest positive-time candidate; pick == None iff no candidate has time > 0 |
| `Bounces.NewestOfIncreasing` | ExtractDiscography.py:32-35 | with strictly increasing candidate times, the last candidate is picked |
| `Bounces.NewestHasCandidate` | ExtractDiscography.py:29-37 | a folder with a pick has at least one candidate |
| `Bounces.ScanFolder` | ExtractDiscography.py:21-35 | the loop returns the candidate count and the index of the maximal, earliest positive-time candidate, or None iff there is none |
| `ExtractDiscography.Selected` | ExtractDiscography.py:18-39 | a non-directory or a folder without a pick copies nothing; otherwise the copy is the newest bounce's name and full path |
| `ExtractDiscography.CopyOut` | ExtractDiscography.py:37-39 | copying a pick adds or overwrites only the pick's own name and leaves every other entry unchanged; no pick leaves the output unchanged |
| `ExtractDiscography.FolderCount` | ExtractDiscography.py:17-19 | folder_count after the pass; it never exceeds the number of root entries |
| `ExtractDiscography.BounceCount` | ExtractDiscography.py:26-29 | bounce_count after the pass, each folder adding its candidates; it is never smaller than `FoundCount`, because a copy needs a candidate |
| `ExtractDiscography.FoundCount` | ExtractDiscography.py:37-40 | found_count after the pass, one per folder with a pick; it never exceeds `FolderCount` |
| `ExtractDiscography.Output` | ExtractDiscography.py:15-39 | the output directory after the pass, starting from its existing contents; no existing name is ever removed |
| `ExtractDiscography.PassAppend` | ExtractDiscography.py:17-40 | one more root entry adds 1 to folder_count if it is a directory, its candidates to bounce_count, 1 to found_count if it has a pick, and its copy to the output |
| `ExtractDiscography.VisitEntry` | ExtractDiscography.py:18-40 | one outer iteration: a directory bumps the folder counter, adds its candidate count, and copies and counts its pick; a non-directory changes nothing |
| `ExtractDiscography.Collect` | ExtractDiscography.py:10-40 | the three counters and the output after the nested loops equal FolderCount, BounceCount, FoundCount and Output; found ≤ folders and found ≤ bounces |
| `ExtractDiscography.FolderCountIsDirectoryCount` | ExtractDiscography.py:17-19 | folder_count is the number of root entries that are directories |
| `ExtractDiscography.NonDirectoryIgnored` | ExtractDiscography.py:17-18 | a non-directory inserted anywhere in the root listing changes no counter and no output entry |
| `ExtractDiscography.OutputLastPickWins` | ExtractDiscography.py:37-39 | an output name holds the copy from the last folder that picked that name |
| `ExtractDiscography.OutputUnpickedKey` | ExtractDiscography.py:37-39 | a name no folder picks keeps whatever the existing output directory held, or stays absent |
| `ExtractDiscography.OutputOverrides` | ExtractDiscography.py:37-39 | the output is the existing directory overridden by the pass's own copies, and those copies do not depend on what was already there |
| `ExtractDiscography.OutputIdempotent` | ExtractDiscography.py:37-39 | applying the pass's copies twice gives the same output as applying them once |
| `ExtractDiscography.SongACandidates` | ExtractDiscography.py:28 | both `.wav` takes of the sample folder are candidates |
| `ExtractDiscography.SongAAllCandidates` | ExtractDiscography.py:26-29 | every child of the sample folder is a candidate |
| `ExtractDiscography.SongANewest` | ExtractDiscography.py:23-35 | the sample folder's pick is the second take, the one with the later time |
| `ExtractDiscography.SongAScan` | ExtractDiscography.py:23-39 | the sample folder with takes at times 1 and 2 has two candidates and copies `take2.wav` |
| `ExtractDiscography.SongBScan` | ExtractDiscography.py:26-42 | a folder holding only `notes.txt` has no candidate and copies nothing |
| `ExtractDiscography.TwoFolderScenario` | ExtractDiscography.py:10-40 | those two folders give folder_count 2, bounce_count 2, found_count 1, and an output of only `take2.wav` |

## Left out

- Filesystem I/O is replaced by input data. This covers `os.getcwd`, `Path.iterdir`, `is_dir`, `is_file` and `os.stat(...).st_birthtime` (lines 4–8, 18, 21, 28, 30). Listing order is an input, because `iterdir` leaves it unspecified.
- `float(...)` on the birth time (line 30) is not modelled. Times are `real`, and the pass only compares them.
- `os.makedirs(..., exist_ok=True)` (line 15) is modelled only as "the output directory starts with its existing contents".
- `shutil.copy2` (line 39) is modelled only as "the output entry named after the file now refers to the source path". File contents and copied metadata are not modelled.
- `print` output is not modelled (lines 38, 42, 44–46). That includes the warning on line 42, which names the leftover loop variable `subitem` instead of the folder.
- Collect: does not model the `NameError` that line 42 raises when the first directory of the root listing is empty. Then `subitem` has never been bound, and the exception ends the whole run: no later folder is scanned or copied, and no summary is printed. The model instead carries on past such a folder, counting it and copying nothing for it. So for a listing whose first directory is empty, `FolderCount`, `BounceCount`, `FoundCount` and `Output` describe a run the source never finishes.
- OutputIdempotent: is stated for the output map with the same root listing on both runs. A real second run also lists `Current Discography` itself among the root entries, because the directory now exists when line 8 runs. That folder is counted, and its own copies become candidates. If its pick is one of them, `shutil.copy2` is asked to copy the file onto itself. That raises `shutil.SameFileError` and ends the run. Neither that entry nor the exception is modelled.
- Failures are not modelled: permission errors, a missing birth time, or a failed copy. In the source they abort the run.
