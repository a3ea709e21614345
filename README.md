# A verified model of the BTree engine of PhVHoang/btree

The repository is a small log-structured key-value engine in Rust. Its
orchestrator, `BTree` in `src/lib.rs`, owns three files, all named after one
base path:

- a write-ahead log at `base.wal`, which every insert appends to first;
- an in-memory multimap from each key to the ordered set of its values;
- a sorted on-disk data file at `base`.

Once the multimap reports more than `MAX_MEMORY_ITEMS` (1000) inserts, the
engine compacts. Compaction merges the multimap's ordered stream with the
data file's stream into a new file at `base.new`.

The model is a Dafny class `Engine.BTree`:

- Its fields are the record sequences of the files (`wal`, `tree`,
  `newTree`), the index (`mem`, a map from key to a set of values) and the
  size the index reports (`memSize`).
- Its methods are the engine's operations: `New`, `Insert`, `Get` and
  `Compact`. `New` and its corrected twin `NewRecovering` both call `Open`.
  `Open` takes the replay condition of src/lib.rs:55 as a parameter, so
  that condition is the only thing in which the two differ.
- `Valid()` is the invariant tying the index to the log. The index is
  exactly the replay of the log from its first record not skipped at open,
  and `memSize` counts those records. After `New` as written that is the
  records appended since the engine was opened. After `NewRecovering` it is
  the whole log, replayed at open and extended since.

The collaborators are modelled on values:

- `MultiMap` models the multimap: insertion, lookup in value order, and
  traversal in (key, value) order.
- `Merging` models `itertools::merge`, a generic recursive function. It is
  proved order-preserving and a permutation. It is also proved to respect
  the tie-break: on equal records the index's copy, from the first stream,
  comes first.
- `Records` holds the record type and the result types.

`Scenarios` restates the repository's unit tests as methods whose
postconditions promise the outcomes those tests assert. It goes beyond the
tests in four places:

- the compaction threshold;
- the reopen behaviour;
- a failing log append (`InsertWalFails`);
- the value `get` returns after the two inserts of `insert_multiple`, which
  that test does not check.

Files and I/O errors are not modelled as effects:

- The disk at open time is a map from path to records.
- Each I/O failure is chosen by the caller: `unavailable` (paths that fail
  to open), `walFails` (the log append fails) and `CompactFault` (the `.new`
  file fails to open, or an append fails after a given number of records).
- The error stops the operation at the same point as the `?` in the source.

Two points of reading the code:

- The comment at src/lib.rs:54 says the log is replayed when there is one.
  Line 55 replays only when `is_new()` holds. The model follows line 55.
- The tests at src/lib.rs:215 and 252 read `is_new` as false right after an
  insert. The model therefore treats `is_new` as "the file holds no record".
  Reading it as "the file was empty when opened" gives the same outcome: the
  as-written replay loop never adds anything (see Findings).

## Model

| member | source | states |
|---|---|---|
| Engine.WalPath | src/lib.rs:49 | The log's path is the base path followed by exactly `.wal`. |
| Engine.NewPath | src/lib.rs:98-99 | Compaction's output path is the base path followed by exactly `.new`. |
| Engine.FilesDistinct | src/lib.rs:49-99 | The data file, the log and the compaction output are three different paths, so writing one never touches another. |
| Engine.StoredAttaches | src/lib.rs:52-62 | A file opened after records were stored at its path attaches to exactly those records, whatever other paths hold. On an empty disk every file is created empty and reports new. |
| Engine.IsNew | src/lib.rs:55 | A log or data file reports new exactly when it holds no record. |
| Engine.IndexAtOpen | src/lib.rs:54-59 | With the replay condition as written, the index at open is empty whatever the log holds. |
| Engine.IndexAtOpenFixed | src/lib.rs:54-59 | With the condition the comment on line 54 describes, the index at open holds exactly the associations the log records. |
| Engine.OpenForgetsLoggedInsert | src/lib.rs:54-59 | For the log [(1, 2)], the as-written index answers `None` for key 1 and the corrected one answers `[2]`. |
| Engine.ReplayLog | src/lib.rs:56-58 | The replay loop inserts every log record in file order: its result is `Replay(log)` and it counts `|log|` inserts. |
| Engine.ReplayAppended | src/lib.rs:78-82 | Appending a record to the log and inserting it into the index keep the index equal to the replay of the log since open. |
| Engine.WriteMerged | src/lib.rs:110-112 | The write loop appends the merged stream in order. It completes exactly when no append fails before the end. A failed append leaves exactly the prefix written so far. |
| Engine.CompactionContents | src/lib.rs:104-112 | For any data file, the merged output is a permutation of index plus data file, with no deduplication, and holds exactly their records. |
| Engine.CompactionTieBreak | src/lib.rs:104-112 | For any data file, no data-file record precedes an index record it equals: the index's copy is written first. |
| Engine.CompactionSorted | src/lib.rs:104-112 | When the data file is sorted, the merged output is sorted. |
| Engine.BTree.constructor | src/lib.rs:64-71 | The engine holds the given path, widths, log, index, size and data file, and the `.new` file is empty. |
| Engine.BTree.Open | src/lib.rs:40-72 | The opening steps shared by both opens, with the line-55 condition as a parameter. The log's open failure takes precedence over the data file's, and each error names its path. On success the engine attaches to the stored files, the `.new` file is empty and the invariant holds. The index is the replay of the whole log, sized by its length, exactly when `is_new()` equals the parameter, and otherwise it is empty with size 0. |
| Engine.BTree.New | src/lib.rs:40-72 | Opening succeeds exactly when both files open. The log's open failure takes precedence over the data file's, and the error names the path that failed. A fresh open attaches to the stored log and data file, the index follows the as-written replay, and the invariant holds. |
| Engine.BTree.NewRecovering | src/lib.rs:40-72 | The same open with the corrected condition: the index is the replay of the whole log and its size is the log's length. |
| Engine.BTree.Get | src/lib.rs:91-93 | Reads only the index. `None` exactly for a key with no value in the index, that is, one with no record in the replayed part of the log, as `GetReflectsLog` states. Otherwise the key's values, strictly ascending and exactly those stored. |
| Engine.BTree.GetReflectsLog | src/lib.rs:91-93 | In a valid engine a key is found exactly when a record under it is in the replayed part of the log, and the values found are exactly those so logged. That part is the records logged since open after `New` as written, and the whole log after `NewRecovering`. |
| Engine.BTree.Compact | src/lib.rs:96-115 | Only the `.new` file changes. If it cannot be opened the call fails and nothing changes. Otherwise the file receives the merge of the index's stream (first) and the data file's stream, all of it or the prefix before a failing append, and the outcome reports which. |
| Engine.BTree.AppendAndIndex | src/lib.rs:80-82 | After a successful log append the record is at the end of the log, the index gains it, the size grows by one, and the invariant is kept. |
| Engine.BTree.Insert | src/lib.rs:75-89 | A failing log append returns the log's error and changes nothing. Otherwise exactly one record is appended to the log and inserted into the index, and the invariant is kept. Compaction runs exactly when the returned size exceeds 1000: at or below it the `.new` file is untouched and the result is `Done`, above it the result and file are those of `Compact`. |
| Merging.Merge | src/lib.rs:110 | The merge emits as many records as its two inputs hold together. |
| Merging.MergeRightEmpty | src/lib.rs:110 | Merging with an empty second stream yields the first stream unchanged. |
| Merging.MergePermutes | src/lib.rs:110 | The merge is a permutation of the concatenated inputs. |
| Merging.MergeBelow | src/lib.rs:110 | A lower bound of both inputs is a lower bound of the merge. |
| Merging.SortedCons | src/lib.rs:110 | A head at or below a sorted tail makes a sorted stream. |
| Merging.MergeSorted | src/lib.rs:110 | Merging two sorted streams gives a sorted stream. |
| Merging.TagAll | src/lib.rs:105-108 | Tagging keeps every record in place and marks it with its stream. |
| Merging.Untag | src/lib.rs:110 | Dropping the tags keeps every record in place. |
| Merging.MergeIgnoresTags | src/lib.rs:110 | Merging tagged streams and dropping the tags gives the same result as merging the plain records. |
| Merging.MemoryElementsAbove | src/lib.rs:105-110 | Every index record in the merge is at or above any lower bound of the index stream. |
| Merging.MergeMemoryFirst | src/lib.rs:105-110 | With a sorted index stream, a data-file record is emitted before an index record only if strictly smaller, so equal records come index copy first. |
| Merging.MergeExample | src/lib.rs:105-112 | Data file 1, 3, 5 and index 2, 3, 4 merge to 1, 2, 3, 3, 4, 5, with the index's 3 before the data file's. |
| MultiMap.Least | src/lib.rs:92 | The least element of a non-empty set is in the set and at or below every element. |
| MultiMap.SortedInts | src/lib.rs:92 | A value set iterates in strictly ascending order, with exactly the set's elements. |
| MultiMap.SortedSingleton | src/lib.rs:92 | A one-value set iterates as that value alone. |
| MultiMap.SortedPair | src/lib.rs:92 | A two-value set iterates smaller value first. |
| MultiMap.Add | src/lib.rs:82 | Inserting adds the key and adds the value to the key's set. Nothing is overwritten and nothing else changes. |
| MultiMap.Replay | src/lib.rs:56-58 | The index left by inserting the log's records, in file order, into an empty multimap. An empty log leaves an empty index, and the index always holds the latest logged record. The full characterisation is `ReplayHolds`. |
| MultiMap.ReplayHolds | src/lib.rs:56-58 | Replaying a log gives an index holding exactly the logged associations, with no key left without a value. |
| MultiMap.ReplaySnoc | src/lib.rs:56-57 | Replaying one more record is one more insert. |
| MultiMap.Lookup | src/lib.rs:92 | `None` exactly for an absent key, otherwise the key's values, strictly ascending and exactly those stored. |
| MultiMap.LookupAfterAdd | src/lib.rs:82 | After an insert the key is found with the new value and all earlier ones, and every other key answers as before. |
| MultiMap.Row | src/lib.rs:105 | A key's row holds exactly the records of that key whose value is in the given values, and is strictly ascending when the values are. |
| MultiMap.ConcatStrictlySorted | src/lib.rs:105 | A row followed by rows of larger keys stays strictly ascending. |
| MultiMap.Rows | src/lib.rs:105 | The rows of ascending keys form a strictly ascending stream holding exactly those keys' associations. |
| MultiMap.Entries | src/lib.rs:105 | The index's traversal is strictly ascending in (key, value) order and holds exactly its associations. |
| MultiMap.StrictlySortedUnique | src/lib.rs:105 | Two strictly ascending streams with the same records are equal, so the traversal is fixed by the index's contents. |
| Scenarios.OpenFresh | src/lib.rs:140-170 | On a fresh open both files hold 0 records and report new. |
| Scenarios.OpenExisting | src/lib.rs:173-188 | Reopening the files of an engine with no inserts finds both empty. |
| Scenarios.InsertIntoFresh | src/lib.rs:191-219 | One insert into a fresh engine leaves 1 log record. The log no longer reports new and the index holds the key. |
| Scenarios.InsertWalFails | src/lib.rs:78 | Not one of the tests. A failing log append reports the log's path and leaves the log empty and the key absent. |
| Scenarios.GetAfterInsert | src/lib.rs:222-240 | After inserting (1, 2), `get(1)` yields exactly `[2]`. |
| Scenarios.InsertMultiple | src/lib.rs:82-260 | The test at lines 243-260: inserting (1, 5) then (1, 2) accumulates, and the log is not new after either. Beyond the test, the insert at line 82 and the `get` at lines 91-93 then make `get(1)` yield `[2, 5]`. |
| Scenarios.ReopenAfterInsert | src/lib.rs:54-59 | After inserting (1, 2) and reopening, the as-written open answers `None` for key 1 and the corrected open answers `[2]`. |
| Scenarios.DiagonalLog | src/lib.rs:82-86 | The log of inserts (0, 0) .. (n - 1, n - 1). |
| Scenarios.InsertDiagonal | src/lib.rs:82-86 | Up to 1000 inserts into an empty engine never compact: the `.new` file stays empty. |
| Scenarios.DiagonalEntriesComplete | src/lib.rs:105 | Every record of the diagonal log is in the index's traversal. |
| Scenarios.DiagonalEntriesOnly | src/lib.rs:105 | The index's traversal holds no record the diagonal log does not. |
| Scenarios.DiagonalAscending | src/lib.rs:105 | The diagonal log is strictly ascending. |
| Scenarios.DiagonalCompacted | src/lib.rs:105-112 | Compacting that index against an empty data file writes exactly the log: the same records, each once, in the same order. |
| Scenarios.CompactionThreshold | src/lib.rs:82-86 | After 1000 inserts nothing is compacted. The 1001st insert compacts, and the `.new` file then equals the log of the 1001 inserts. |

## Left out

- Record encoding (serde/bincode), the fixed key and value widths, and whatever checks `wal_file` and `disk_btree` make on a file's length or record width when opening it are not part of this model. Keys and values are unbounded integers, and records compare by key, then value.
- Keys and values are `int`, not the generic `KeyType`/`ValueType` traits. The `Box<dyn Error>` errors become the small `IoError` datatype.
- Real file I/O is not modelled. Each open, append and `is_new` is a pure read or update of a record sequence, and each failure is a caller-chosen parameter.
- Engine.BTree.Open: does not model a failure of the `wal_file.is_new()?` query itself, since the `RecordFile` code that could fail is not part of this model. The same holds for `New` and `NewRecovering`, which call it.
- `MultiMap`'s internals are not part of this model. `memSize` is the count of insert operations the instance has received (replayed or direct), which is what `insert`'s returned size is taken to be.
- The index is never cleared and the data file is never replaced, because the code does neither. So once the threshold is passed, every further insert compacts again. The model shows this and goes no further.
- `OpenFails` is a fault the caller chooses. Whatever `OnDiskBTree::new` would find in an existing `.new` file is not modelled: a compaction writes into an initially empty file.
- Renaming `.new` over the data file and truncating the log after compaction are not modelled, because the code does neither.
- The test helpers `gen_temp_name` (random file names) and `remove_files` (cleanup), and the tests' `OpenOptions`/metadata checks, are not modelled. The scenarios take the base path as a parameter and read the lengths from the model's record sequences.
- `get` returns the values as a sequence, not a borrowing iterator.
- Each error names the path of the file involved (`OpenFailed(path)`, `AppendFailed(path)`). The source's `?` passes on an opaque `Box<dyn Error>` from `wal_file` and `disk_btree`. The path is the model's way of recording which `?` fired, and the model does not claim the source's errors carry it.

## Findings

| source | as written | input that shows it | evidently intended | confidence | as-written member | corrected member |
|---|---|---|---|---|---|---|
| src/lib.rs:55 | `if wal_file.is_new()?` replays the log only when it holds no record, so replay never adds anything | insert (1, 2), reopen the same path: `get(1)` returns `None` although the log holds (1, 2) | `if !wal_file.is_new()?`, as the comment on line 54 says: replay when there is a log | not executed | Engine.IndexAtOpen, Engine.OpenForgetsLoggedInsert, Engine.BTree.New, Scenarios.ReopenAfterInsert | Engine.IndexAtOpenFixed, Engine.BTree.NewRecovering |
