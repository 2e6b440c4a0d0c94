# Augmented `runai list`, modelled in Dafny

`dgx/rlist.py` runs `runai list` and parses the output into a table. It drops a fixed set of
columns. When extras are asked for, it reads a JSON document from inside every running job.
Each key found in those documents becomes a new column, and every row gets the values from the
document of the job it is named after. The table is printed once, or redrawn every `loop`
seconds.

This project models that core:

- `Split`: the two string splits of `runai_list`.
  - `out.split("\n")` is `SplitLines`.
  - `re.split(r"\s{2,}", line)` is `SplitCells`, with `\s` being Python's `str.isspace`.
  - Proved: both round trips, that a split into cells is the unique decomposition by maximal
    runs of two or more whitespace characters, and the cell count.
- `RunaiListing`: what `runai_list` does to the captured output. The first and last lines are
  dropped, the header comes from the second line, and each remaining line becomes one row.
- `Frames`: the part of a pandas DataFrame that `get_table` uses, as a value (`Table`) and as a
  class (`Frame`) that the source updates in place. It covers `drop`, `assign` and `loc`
  writes.
- `Envs`, for `get_envs` and `get_envs_for_all_running_jobs`:
  - empty output stands for `{}`;
  - `ToDict` builds the dictionary `json.loads` returns from the parsed pairs: one entry per
    key, at the place of the key's first pair, holding the key's last value;
  - the pool size is `min(10, cpu_count(), len(jobs))`, and a pool of zero workers fails;
  - `p.map` runs over the jobs, in job order;
  - `dict(zip(jobs, results))` is an insertion-ordered dictionary. A repeated name keeps its
    first position and its last value.
- `Pipeline`: `get_table` as a specification function (`GetTableSpec`), and as a method
  (`GetTable`) that updates one `Frame` with the source's two nested loops. Lemmas state what
  the extras step leaves in every cell.
- `Timing`: the wait rule of `timed_loop`, and the redraw loop of `looping_table` against a
  clock.
- `Args`: `to_bool`, the parser of `--extras`.
- `Results`: the error outcomes. Most are the places where the program raises; `DuplicateColumn`
  and `RaggedRow` are the model's own refusals of listings that pandas would accept or pad.

The outside world is passed in as parameters:

| Parameter | Stands for |
|---|---|
| `out` | the text `runai list` prints |
| `fetch` | the map from job name to the output of `runai exec <job> cat <file>` |
| `parse` | reads a JSON object's key/value pairs in document order, repeated keys included; `None` stands for text that is not an object |
| `cpus` | `cpu_count()` |
| `Clock` | `time.time()`, with `Clock.Advance` as `time.sleep` |

## Model

| member | source | states |
|---|---|---|
| Split.IsSpace | dgx/rlist.py:39 | the characters for which Python's `str.isspace` holds, which `\s` matches; its use is stated by the lemmas about `SplitCells` below |
| Split.SplitLines | dgx/rlist.py:37 | one piece more than there are newlines, and no piece holds a newline |
| Split.JoinSplitLines | dgx/rlist.py:37 | joining the pieces with newlines gives the text back |
| Split.SplitLinesSingle | dgx/rlist.py:37 | a newline-free string splits into itself alone |
| Split.SplitLinesCons | dgx/rlist.py:37 | a line followed by a newline splits off as the first piece |
| Split.SplitJoinLines | dgx/rlist.py:37 | splitting newline-free lines joined with newlines gives those lines back |
| Split.TrimStartSpace | dgx/rlist.py:39 | removes exactly a leading block of whitespace, leaving no whitespace in front, at least two characters shorter when two spaces lead |
| Split.SplitCells | dgx/rlist.py:39 | at least one cell; the first cell is a prefix of the line |
| Split.FirstCellEmpty | dgx/rlist.py:39 | an empty first cell followed by more cells means the line opened with a separator run |
| Split.SplitCellsClean | dgx/rlist.py:39 | no cell holds a double whitespace; only the first and the last cell can be empty; no cell starts or ends with whitespace where it touches a separator |
| Split.SplitCellsReassemble | dgx/rlist.py:39 | there is one separator run fewer than cells, each run is two or more whitespace characters, and putting the runs back between the cells gives the line back |
| Split.SplitCellsSingle | dgx/rlist.py:39 | a line with no double whitespace is one cell |
| Split.SplitCellsSeparatorFirst | dgx/rlist.py:39 | a line opening with a separator run starts with an empty cell |
| Split.SplitCellsAfterSeparator | dgx/rlist.py:39 | a clean cell followed by a separator run is split off whole |
| Split.SplitCellsRoundTrip | dgx/rlist.py:39 | splitting any clean decomposition, re-interleaved with separator runs, gives its cells back, so the decomposition is unique |
| Split.SplitCellsJoinRoundTrip | dgx/rlist.py:39 | non-empty cells with no whitespace at either end and no double whitespace, joined with two spaces, split back into those cells |
| Split.ThreeCells | dgx/rlist.py:39 | three clean cells separated by two runs split into exactly those three |
| Split.SingleSpaceStays | dgx/rlist.py:39 | a single space inside a cell (as in `PODs Running (Pending)`) does not split it |
| Split.SplitCellsCount | dgx/rlist.py:39 | a line with k maximal runs of two or more whitespace characters splits into k + 1 cells |
| RunaiListing.Inner | dgx/rlist.py:37 | `[1:-1]`: drops the first and last piece, which leaves nothing for fewer than two |
| RunaiListing.DecodeListing | dgx/rlist.py:35-40 | fails (no `data[0]`) exactly when the output has fewer than two newlines; otherwise the header is the second line's cells and the k-th data row is line k + 2's cells |
| RunaiListing.DecodeListingFraming | dgx/rlist.py:37-40 | on lines joined by newlines: the first and last line are discarded, the second is the header, the ones in between are the rows in order |
| RunaiListing.RowOf | dgx/rlist.py:40 | a row has exactly the header's names as keys, the k-th name holding the k-th cell |
| RunaiListing.ToTable | dgx/rlist.py:40 | succeeds exactly for distinct header names and rows exactly as wide as the header; the table is rectangular, its columns are the header, and every cell is the cell of the split line |
| RunaiListing.RunaiList | dgx/rlist.py:33-40 | an output with fewer than two newlines fails; otherwise it succeeds exactly when the second line's cells are distinct and every line between it and the last has as many cells, and fails with `DuplicateColumn` or `RaggedRow` otherwise; a table has the second line's cells as columns, one row per line between the second and the last, and row `i` holds the `k`-th cell of line `i + 2` under the `k`-th column |
| Frames.Except | dgx/rlist.py:78 | keeps exactly the elements outside the excluded list, distinct when the input is |
| Frames.ExceptSingle | dgx/rlist.py:78 | one element survives exactly when it is not excluded |
| Frames.ExceptCons | dgx/rlist.py:78 | the first element survives, in front, exactly when it is not excluded, and the rest is filtered on its own |
| Frames.ExceptAppend | dgx/rlist.py:78 | filtering a concatenation filters each part in turn, so the surviving columns keep their order |
| Frames.DropColumns | dgx/rlist.py:78 | fails exactly when a label is not a column, naming the missing labels; otherwise only the named columns go, the rest keep their order (by `ExceptAppend`), and every other cell is kept |
| Frames.NamesOfRunning | dgx/rlist.py:81-82 | a name is listed exactly when some row with that name has status `Running` |
| Frames.NamesOfRunningSingle | dgx/rlist.py:81-82 | one row gives its `NAME` exactly when it is running |
| Frames.NamesOfRunningAppend | dgx/rlist.py:81-82 | the names of two blocks of rows are the first block's, then the second's, so the names come in row order |
| Frames.RunningNames | dgx/rlist.py:81-82 | fails exactly when `STATUS` or `NAME` is not a column; otherwise lists the names of exactly the running rows |
| Frames.NewNames | dgx/rlist.py:84 | exactly the names not yet columns, once each, so the column list stays distinct |
| Frames.NewNamesSingle | dgx/rlist.py:84 | one name is appended exactly when it is not a column yet |
| Frames.NewNamesSnoc | dgx/rlist.py:84 | one more name is appended at the end exactly when it is neither a column nor already appended |
| Frames.NewNamesAppend | dgx/rlist.py:84 | the new names of two blocks are the first block's, then the second block's that are new after the first, so they come in the order of first appearance |
| Frames.AssignBlank | dgx/rlist.py:84 | existing columns keep their place; new ones are appended; the assigned columns are blank in every row; other cells are kept; the table stays rectangular |
| Frames.SetCell | dgx/rlist.py:87 | one masked cell write: in a row named after the job the column gets the value (created if absent); every other cell, and every row with another name, is kept |
| Frames.Frame.constructor | dgx/rlist.py:76 | the frame holds the listed table |
| Frames.Frame.Drop | dgx/rlist.py:78 | returns the labels that are not columns; with none, the frame becomes the dropped table, otherwise it is unchanged |
| Frames.Frame.Assign | dgx/rlist.py:84 | the frame becomes the blank-assigned table and stays rectangular |
| Frames.Frame.SetWhere | dgx/rlist.py:87 | only rows whose `NAME` matches get the value in that column; shape and other rows are unchanged |
| Envs.LastValue | dgx/rlist.py:51 | a key has a value exactly when some pair of the document has that key; the last such pair wins |
| Envs.LastValueSnoc | dgx/rlist.py:51 | a pair appended at the end decides its own key and leaves every other key's value alone |
| Envs.DistinctKeysSnoc | dgx/rlist.py:51 | appending a pair with a key not yet present keeps the keys distinct |
| Envs.Put | dgx/rlist.py:51 | storing one pair into a dictionary: its key now has the new value, every other key keeps its value, and distinct keys stay distinct |
| Envs.PutPlace | dgx/rlist.py:51 | a new key goes at the end; an existing key keeps its place, and the order of the keys does not change |
| Envs.ToDict | dgx/rlist.py:51 | the dictionary of a list of pairs has distinct keys, and every key has the value of its last pair |
| Envs.PutKeepsLastValues | dgx/rlist.py:51 | storing the next pair keeps the dictionary's values equal to the last values of the pairs read so far |
| Envs.ToDictSnoc | dgx/rlist.py:51 | the dictionary of pairs with one more pair is the previous dictionary with that pair stored |
| Envs.PutOverLast | dgx/rlist.py:51 | storing a key that is the last entry replaces that entry in place |
| Envs.PutBeforeLast | dgx/rlist.py:51 | storing an earlier key leaves the last entry last |
| Envs.ToDictTwo | dgx/rlist.py:51 | two pairs with different keys give a two-entry dictionary in the same order |
| Envs.PutRepeatsFirst | dgx/rlist.py:51 | storing the first key again overwrites the first entry and keeps it first |
| Envs.ToDictThird | dgx/rlist.py:51 | the dictionary of three pairs is the third pair stored into the dictionary of the first two |
| Envs.ToDictRepeatedKey | dgx/rlist.py:51 | the pairs `k1: x`, `k2: a`, `k1: y` give the dictionary `k1: y`, `k2: a`: the first place, the last value |
| Envs.GetEnvs | dgx/rlist.py:43-51 | empty output gives the empty dictionary; other output succeeds exactly when it parses, giving the dictionary of the parsed pairs; a result has distinct keys; failure is a bad document |
| Envs.PoolSize | dgx/rlist.py:61 | at most 10, at most the CPU count and at most the job count, and equal to one of them |
| Envs.FetchAll | dgx/rlist.py:63 | succeeds exactly when every job's fetch does; one result per job, in job order; a failure is a bad document |
| Envs.LookupFound | dgx/rlist.py:66 | a name is found exactly when some item has it |
| Envs.LookupSnoc | dgx/rlist.py:66 | appending an item does not hide an earlier one |
| Envs.LookupAt | dgx/rlist.py:66 | with distinct names, each item is what its name finds |
| Envs.Insert | dgx/rlist.py:66 | `d[k] = v`: the key now finds the new value; every other key finds what it did before; names stay distinct; length grows only for a new key |
| Envs.ZipDict | dgx/rlist.py:66 | the dictionary has distinct names and no more items than pairs |
| Envs.ZipDictLookup | dgx/rlist.py:66 | every name finds its value, names not among the jobs find nothing, and distinct names give one item per pair |
| Envs.EnvsForAllRunningJobs | dgx/rlist.py:54-66 | no job or no CPU fails as `Pool(0)` does; otherwise it succeeds exactly when every job's document loads, and fails with a bad document; a dictionary has distinct names |
| Envs.EnvsForAllRunningJobsLookup | dgx/rlist.py:61-66 | the dictionary holds exactly the running job names, each mapped to its own `get_envs` result, `{}` for empty output, one item per job when the names are distinct |
| Envs.NewColumns | dgx/rlist.py:83 | exactly the keys of the documents |
| Pipeline.Listed | dgx/rlist.py:76-78 | a failed listing fails the same way; a listing succeeds exactly when every dropped label is a header name, else the missing labels are named; the result is rectangular, its columns are the header's names outside the dropped list in header order, and it has the listing's rows with every kept cell unchanged |
| Pipeline.GetTableSpec | dgx/rlist.py:69-88 | definition of `get_table`'s result; `NoExtras`, `NoRunningJob`, `GetTableExtras` and `ExtrasCharacterization` state what it is, and `GetTable` is proved equal to it |
| Pipeline.Enrich | dgx/rlist.py:83-87 | definition of the extras step (the blank assignment, then every job's writes); `EnrichCharacterization` and `NameKeyBlanksAll` state what it leaves in every cell |
| Pipeline.RowWriteBag | dgx/rlist.py:86-87 | definition of one job's writes seen from one row; `RowWriteBagEffect` and `RowWriteBagOther` state their effect |
| Pipeline.RowWriteAll | dgx/rlist.py:85-87 | definition of all jobs' writes seen from one row; `RowWriteAllEffect` and `RowWriteAllOther` state their effect |
| Pipeline.WriteAll | dgx/rlist.py:85-87 | definition of the two loops on a whole table; `WriteJobs` is proved to compute it |
| Pipeline.RowWriteBagOther | dgx/rlist.py:86-87 | a row whose `NAME` is not the job is left as it was by that job's writes |
| Pipeline.RowWriteAllOther | dgx/rlist.py:85-87 | a row whose `NAME` is no job's name is left as it was by all the writes |
| Pipeline.NameKeyIsNewColumn | dgx/rlist.py:83 | a `NAME` key in some document makes `NAME` a new column |
| Pipeline.NameKeyBlanksAll | dgx/rlist.py:83-87 | when some document has a `NAME` key and no job is named `""`, the extras step is just the blank assignment: `NAME` and every new column hold `""` in every row |
| Pipeline.RowWriteBagEffect | dgx/rlist.py:86-87 | one job's writes leave other rows as they were; in its own rows each key gets the last value the document gives it and every other cell is kept |
| Pipeline.WrittenIsNew | dgx/rlist.py:83-87 | only keys that are new columns are ever written |
| Pipeline.RowWriteAllEffect | dgx/rlist.py:85-87 | over all jobs, a row gets only the writes of the job it is named after |
| Pipeline.EnrichRow | dgx/rlist.py:84-87 | a blanked row keeps its keys, and each cell holds the written value if there is one, else what was there |
| Pipeline.NameNotNew | dgx/rlist.py:83 | with no `NAME` key in any document, `NAME` is not a new column |
| Pipeline.EnrichBlankRow | dgx/rlist.py:84-87 | on a blanked row, new columns hold the job's value or blank, and other cells are kept |
| Pipeline.EnrichAt | dgx/rlist.py:84-87 | one row of the extras step: its keys are the assigned table's; new columns hold the value of the job it is named after, or blank; other cells are kept |
| Pipeline.EnrichCharacterization | dgx/rlist.py:83-87 | the extras step on a table: rectangular; new keys appended once each; every cell of the new columns holds its row's job's value or blank; every other cell is kept |
| Pipeline.NoExtras | dgx/rlist.py:80-88 | without extras the result is the listing minus the dropped columns |
| Pipeline.NoRunningJob | dgx/rlist.py:61-62 | with extras and no running job the whole call fails with the empty pool |
| Pipeline.ExtrasSucceeds | dgx/rlist.py:80-88 | on a listing with the columns it needs, `get_table` with extras succeeds exactly when some job runs, there is a CPU, and every running job's document loads; any failure is the empty pool or a bad document |
| Pipeline.WriteAllAt | dgx/rlist.py:85-87 | row i of the two loops' result is the writes seen from row i |
| Pipeline.GetTableExtras | dgx/rlist.py:80-88 | a successful extras call is the extras step on the listing, with the dictionary of its running jobs |
| Pipeline.ExtrasCharacterization | dgx/rlist.py:80-87 | a row whose `NAME` is a running job's name, whatever its own status, holds that job's document's last value per key, or blank; a row whose `NAME` is no running job's name holds blanks in the new columns; all other cells are kept; shape as above |
| Pipeline.EnrichedRunning | dgx/rlist.py:82-87 | in a row whose `NAME` is a running job's name, a new column holds that job's document's value, or blank |
| Pipeline.EnrichedIdle | dgx/rlist.py:82-87 | a row whose `NAME` is no running job's name gets a blank in every new column |
| Pipeline.NoNameKeyInEnv | dgx/rlist.py:63-66 | the dictionary has distinct names, and no `NAME` key when no document has one |
| Pipeline.WriteJob | dgx/rlist.py:86-87 | the inner loop leaves every row as the one-row fold of the job's writes, and keeps the frame rectangular |
| Pipeline.WriteJobs | dgx/rlist.py:85-87 | the outer loop leaves the frame equal to all writes of all jobs applied to the table it started from |
| Pipeline.GetTable | dgx/rlist.py:69-88 | the in-place `get_table` returns exactly the specified table or error, and any table is rectangular |
| Timing.Wait | dgx/rlist.py:101-104 | sleeps exactly when the body took less than `nsec`, and then for the rest, so body plus sleep is `max(nsec, elapsed)` |
| Timing.Clock.constructor | dgx/rlist.py:98 | the clock starts at the given time |
| Timing.Clock.Advance | dgx/rlist.py:104 | time moves on by the amount slept or spent |
| Timing.TimedLoop | dgx/rlist.py:98-104 | returns the time slept, and one timed block takes `max(nsec, busy)`, so at least `nsec` |
| Timing.ElapsedBounds | dgx/rlist.py:130-131 | n refreshes take at least n times `nsec`, and exactly that when no body overruns |
| Timing.Refreshes | dgx/rlist.py:130-136 | the loop of refreshes advances the clock by the sum of `max(nsec, busy)`, at least n times `nsec` |
| Args.LowerChar | dgx/rlist.py:160 | ASCII capitals lower to their small letter, the Kelvin sign lowers to `k`, and every other character stays |
| Args.Lower | dgx/rlist.py:160 | lower-cases character by character, keeping the length |
| Args.ToBool | dgx/rlist.py:154-164 | true exactly for the five true words, false exactly for the five false words in any case, and an error for everything else |
| Args.WordsDisjoint | dgx/rlist.py:160-162 | no word is both true and false |
| Args.CheckOrderIrrelevant | dgx/rlist.py:160-163 | checking the false words first gives the same answers |
| Args.LowerIdempotent | dgx/rlist.py:160 | lower-casing twice is lower-casing once |
| Args.ToBoolLower | dgx/rlist.py:160-162 | lower-casing the argument first changes nothing |
| Args.ToBoolIgnoresCase | dgx/rlist.py:160-162 | two spellings that lower to the same string get the same answer |
| Args.ToBoolCapitals | dgx/rlist.py:160-163 | `YES` is true and `No` is false |
| Args.ToBoolRejects | dgx/rlist.py:164 | `maybe` is rejected |

## Left out

- `run_cmd`: the subprocesses, their exit codes and the check for empty standard error are not modelled. Their outputs are the parameters `out` and `fetch`, and a failing command is not modelled.
- A document that is JSON but not an object fails in the source only at `v.keys()` (dgx/rlist.py:83), after all documents are fetched; `parse` gives `None` for it, so the model reports `BadDocument` when it is loaded. Either way the program ends with an exception.
- `json.loads` is the parameter `parse`, which only reads the pairs of the object; `ToDict` then builds the dictionary from them. Parse errors are a single outcome.
- JSON values of any type (numbers, lists, nested objects) are modelled as strings.
- The worker pool's concurrency, `close` and `join` are not modelled. `p.map` is a sequential map with the same, order-preserving result.
- The CPU count is the parameter `cpus`.
- The following are not modelled: `curses_context`, the screen drawing, `df.to_string`, `print`, `datetime.now`, the `argparse` set-up and `main`.
- Timing: `time.time()` is a float; the model uses whole seconds on a clock that only moves forward.
- Timing.Refreshes: models the first n rounds of the endless `while True` loop, not the infinite loop itself. Every round's body is assumed to finish (`busy` is a number of seconds). In the source a body that raises, as `get_table` does in every case the model reports as an error, leaves `timed_loop` at its `yield`: there is no sleep, and the exception ends `looping_table`.
- Timing.TimedLoop: the same assumption; a raising body skips the sleep, which the model does not cover.
- RunaiListing.ToTable: pandas accepts repeated header names. For rows of unequal width it pads the shorter ones with missing values when the widest row is exactly as wide as the header, and raises ValueError otherwise (every row shorter, or some row wider). The model fails on every row whose width differs from the header's (`RaggedRow`) and on repeated names (`DuplicateColumn`), so it promises nothing for the listings pandas accepts by padding or with repeated names.
- Args.LowerChar: lowers the ASCII capitals and the Kelvin sign (to `k`) and nothing else, while `str.lower` lowers many more characters; the reason is in the next line.
- Args.Lower: lower-cases only the ASCII capitals and the Kelvin sign. No other character lowers to something made only of ASCII letters and digits, so `to_bool`'s answer is the same as with the full Unicode `str.lower`, but `Lower` itself is not the full `str.lower`.
- Frames.Frame.SetWhere: requires an existing column. `get_table` writes only into columns that `assign` has just created, and the model proves that at the call site; a `loc` write that would create a column is not modelled.
- Pipeline.ExtrasCharacterization: requires that no running job's document has a `NAME` key. With such a key, `NAME` becomes a new column, so `assign` sets it to `""` in every row. After that, no `df.NAME == job_name` mask matches any row (unless a job is named `""`), so no write lands. `Pipeline.NameKeyBlanksAll` proves this case; `ExtrasCharacterization` does not cover it.
- Pipeline.EnrichCharacterization: requires that no document has a `NAME` key, for the same reason as `Pipeline.ExtrasCharacterization`.
