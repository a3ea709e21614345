/** The engine (`BTree` in src/lib.rs): it owns a write-ahead log, the
    in-memory index and the on-disk data file, all named after one base
    path. Files are modelled by their record sequences; a map from paths
    to records stands for what is on disk when an engine is opened, and
    I/O failures are chosen by the caller through explicit parameters. */
module Engine {
  import opened Records
  import opened MultiMap
  import opened Merging

  /** Compaction runs once the index's size passes this bound. */
  const MAX_MEMORY_ITEMS: nat := 1000

  /** The write-ahead log lives next to the data file, at `base.wal`. */
  function WalPath(base: string): (p: string)
    ensures |p| == |base| + 4 && p[..|base|] == base && p[|base|..] == ".wal"
  {
    base + ".wal"
  }

  /** Compaction writes its output to `base.new`. */
  function NewPath(base: string): (p: string)
    ensures |p| == |base| + 4 && p[..|base|] == base && p[|base|..] == ".new"
  {
    base + ".new"
  }

  /** The three files of one engine are three different files. */
  lemma FilesDistinct(base: string)
    ensures base != WalPath(base) && base != NewPath(base) && WalPath(base) != NewPath(base)
  {
    assert WalPath(base)[|base|..] != NewPath(base)[|base|..];
  }

  /** Opening a record file attaches to its records, or creates it empty. */
  function Stored(disk: map<string, seq<Rec>>, path: string): seq<Rec> {
    if path in disk then disk[path] else []
  }

  /** A file opened after records were stored at its path attaches to
      exactly those records, whatever other paths hold; on an empty disk
      every file is created empty and reports itself new. */
  lemma StoredAttaches(disk: map<string, seq<Rec>>, p: string, s: seq<Rec>)
    ensures Stored(disk[p := s], p) == s
    ensures forall q :: q != p ==> Stored(disk[p := s], q) == Stored(disk, q)
    ensures IsNew(Stored(map[], p))
  {
  }

  /** `RecordFile::is_new`, `OnDiskBTree::is_new`: the file holds no record. */
  predicate IsNew(file: seq<Rec>): (b: bool)
    ensures b <==> forall x :: x !in file
  {
    assert |file| > 0 ==> file[0] in file;
    |file| == 0
  }

  /** The index `BTree::new` builds from the log, as written: the log is
      replayed only when it reports itself new. A new log holds no record,
      so the index at open is always empty, whatever the log holds. */
  function IndexAtOpen(log: seq<Rec>): (m: Index)
    ensures m == map[]
  {
    if IsNew(log) then Replay(log) else map[]
  }

  /** The index with the replay condition the comment above it describes
      (replay when there is a log to replay). It holds exactly the
      associations the log records. */
  function IndexAtOpenFixed(log: seq<Rec>): (m: Index)
    ensures forall k, v :: Holds(m, k, v) <==> Rec(k, v) in log
  {
    ReplayHolds(log);
    if !IsNew(log) then Replay(log) else map[]
  }

  /** Reopening loses a logged insert: after the log records (1, 2), the
      index as opened answers nothing for key 1, while replaying the log
      would answer [2]. */
  lemma OpenForgetsLoggedInsert()
    ensures Lookup(IndexAtOpen([Rec(1, 2)]), 1) == None
    ensures Lookup(IndexAtOpenFixed([Rec(1, 2)]), 1) == Some([2])
  {
    var m := IndexAtOpenFixed([Rec(1, 2)]);
    assert Holds(m, 1, 2);
    assert m[1] == {2} by {
      forall v ensures v in m[1] <==> v == 2 {
        assert Rec(1, v) in [Rec(1, 2)] <==> v == 2;
      }
    }
    SortedSingleton(m[1], 2);
  }

  /** The replay loop of `BTree::new`: insert every logged record, in file
      order, into a fresh index, counting the inserts. */
  method ReplayLog(log: seq<Rec>) returns (m: Index, size: nat)
    ensures m == Replay(log) && size == |log|
  {
    m, size := map[], 0;
    for i := 0 to |log|
      invariant m == Replay(log[..i]) && size == i
    {
      ReplayPrefix(log, i);
      m := Add(m, log[i].key, log[i].value);
      size := size + 1;
    }
    assert log[..|log|] == log;
  }

  /** Replaying one more record of the log adds that record to the index. */
  lemma ReplayPrefix(log: seq<Rec>, i: nat)
    requires i < |log|
    ensures Replay(log[..i + 1]) == Add(Replay(log[..i]), log[i].key, log[i].value)
  {
    assert log[..i + 1] == log[..i] + [log[i]];
    ReplaySnoc(log[..i], log[i]);
  }

  /** Appending a record to the log extends the replayed suffix by one insert. */
  lemma ReplayAppended(log: seq<Rec>, from: nat, r: Rec)
    requires from <= |log|
    ensures Replay((log + [r])[from..]) == Add(Replay(log[from..]), r.key, r.value)
  {
    assert (log + [r])[from..] == log[from..] + [r];
    ReplaySnoc(log[from..], r);
  }

  /** How the next compaction's I/O behaves: no failure, the `.new` file
      cannot be opened, or the file takes `written` records and the next
      append fails. */
  datatype CompactFault = NoFault | OpenFails | FailsAfter(written: nat)

  /** The loop of `BTree::compact` over `merge(mem_iter, disk_iter)`:
      append each merged record, in merge order, to a freshly created file.
      An append that fails ends the loop through `?`, leaving the records
      written so far; `complete` tells whether every record was written. */
  method WriteMerged(a: seq<Rec>, b: seq<Rec>, fault: CompactFault)
    returns (written: seq<Rec>, complete: bool)
    requires !fault.OpenFails?
    ensures complete <==> !(fault.FailsAfter? && fault.written < |a| + |b|)
    ensures complete ==> written == Merge(a, b, AsKey)
    ensures !complete ==> written == Merge(a, b, AsKey)[..fault.written]
  {
    var merged := Merge(a, b, AsKey);
    written := [];
    for k := 0 to |merged|
      invariant written == merged[..k]
      invariant fault.FailsAfter? ==> k <= fault.written
    {
      if fault.FailsAfter? && k == fault.written {
        return written, false;
      }
      written := written + [merged[k]];
    }
    assert written == merged;
    complete := true;
  }

  /** What `compact` leaves in the `.new` file and returns: the file held
      `before` and holds `after`. The merge takes the index's stream first
      and the data file's second. */
  ghost predicate Compacted(entries: seq<Rec>, tree: seq<Rec>, treePath: string, fault: CompactFault,
                            before: seq<Rec>, after: seq<Rec>, r: Outcome)
  {
    var merged := Merge(entries, tree, AsKey);
    match fault
    case OpenFails => r == Failed(OpenFailed(NewPath(treePath))) && after == before
    case NoFault => r == Done && after == merged
    case FailsAfter(n) =>
      if n < |merged| then r == Failed(AppendFailed(NewPath(treePath))) && after == merged[..n]
      else r == Done && after == merged
  }

  /** A sorted stream of distinct records is sorted. */
  lemma StrictlySortedIsSorted(s: seq<Rec>)
    requires StrictlySorted(s)
    ensures SortedBy(s, AsKey)
  {
  }

  /** A complete compaction writes every record of the index and of the
      data file, each as often as in its input: no record is dropped and
      none is merged away. */
  lemma CompactionContents(mem: Index, tree: seq<Rec>)
    ensures multiset(Merge(Entries(mem), tree, AsKey)) == multiset(Entries(mem)) + multiset(tree)
    ensures forall k, v :: Rec(k, v) in Merge(Entries(mem), tree, AsKey) <==>
                             Holds(mem, k, v) || Rec(k, v) in tree
  {
    var e := Entries(mem);
    MergePermutes(e, tree, AsKey);
    var merged := Merge(e, tree, AsKey);
    forall k, v ensures Rec(k, v) in merged <==> Holds(mem, k, v) || Rec(k, v) in tree {
      assert Rec(k, v) in merged <==> multiset(merged)[Rec(k, v)] > 0;
    }
  }

  /** The tie-break of a compaction, whatever the data file holds: the
      index's stream is sorted, so a data-file record is written before an
      index record only when it is strictly smaller. */
  lemma CompactionTieBreak(mem: Index, tree: seq<Rec>)
    ensures Untag(MergeTagged(Entries(mem), tree)) == Merge(Entries(mem), tree, AsKey)
    ensures MemoryFirst(MergeTagged(Entries(mem), tree))
  {
    var e := Entries(mem);
    StrictlySortedIsSorted(e);
    MergeIgnoresTags(e, tree);
    MergeMemoryFirst(e, tree);
  }

  /** When the data file is sorted, a complete compaction writes a sorted
      stream. */
  lemma CompactionSorted(mem: Index, tree: seq<Rec>)
    requires SortedBy(tree, AsKey)
    ensures SortedBy(Merge(Entries(mem), tree, AsKey), AsKey)
  {
    var e := Entries(mem);
    StrictlySortedIsSorted(e);
    MergeSorted(e, tree, AsKey);
  }

  class BTree {
    const treePath: string
    const keySize: nat
    const valueSize: nat
    /** The records of `treePath.wal`, in file order. */
    var wal: seq<Rec>
    /** `mem_tree`, and the size its inserts report. */
    var mem: Index
    var memSize: nat
    /** The records of the data file `treePath`; nothing writes to it. */
    const tree: seq<Rec>
    /** The records the latest compaction wrote to `treePath.new`. */
    var newTree: seq<Rec>
    /** The log records that were on disk at open and not replayed. */
    ghost const unreplayed: nat

    /** The index holds exactly the records logged since the engine was
        opened (plus any it replayed), and its size counts those inserts. */
    ghost predicate Valid()
      reads this`wal, this`mem, this`memSize
    {
      unreplayed <= |wal| && mem == Replay(wal[unreplayed..]) && memSize == |wal| - unreplayed
    }

    constructor (treePath: string, keySize: nat, valueSize: nat, wal: seq<Rec>, mem: Index,
                 memSize: nat, tree: seq<Rec>, ghost unreplayed: nat)
      ensures this.treePath == treePath && this.keySize == keySize && this.valueSize == valueSize
      ensures this.wal == wal && this.mem == mem && this.memSize == memSize && this.tree == tree
      ensures this.newTree == [] && this.unreplayed == unreplayed
    {
      this.treePath, this.keySize, this.valueSize := treePath, keySize, valueSize;
      this.wal, this.mem, this.memSize, this.tree := wal, mem, memSize, tree;
      this.newTree, this.unreplayed := [], unreplayed;
    }

    /** The opening steps of `BTree::new`: open the log at `treePath.wal`,
        replay it into the index when `is_new()` equals `replayWhenNew`,
        then open the data file. A path in `unavailable` fails to open. The
        source's condition is `replayWhenNew`; its comment asks for the
        opposite. */
    static method Open(treePath: string, keySize: nat, valueSize: nat,
                       disk: map<string, seq<Rec>>, unavailable: set<string>, replayWhenNew: bool)
      returns (r: Result<BTree>)
      ensures r.Ok? <==> WalPath(treePath) !in unavailable && treePath !in unavailable
      ensures WalPath(treePath) in unavailable ==> r == Err(OpenFailed(WalPath(treePath)))
      ensures WalPath(treePath) !in unavailable && treePath in unavailable ==>
                r == Err(OpenFailed(treePath))
      ensures r.Ok? ==> var e := r.value;
        && fresh(e) && e.Valid()
        && e.treePath == treePath && e.keySize == keySize && e.valueSize == valueSize
        && e.wal == Stored(disk, WalPath(treePath)) && e.tree == Stored(disk, treePath)
        && e.newTree == []
        && if IsNew(e.wal) == replayWhenNew
           then e.mem == Replay(e.wal) && e.memSize == |e.wal| && e.unreplayed == 0
           else e.mem == map[] && e.memSize == 0 && e.unreplayed == |e.wal|
    {
      var walPath := WalPath(treePath);
      if walPath in unavailable {
        return Err(OpenFailed(walPath));
      }
      var log := Stored(disk, walPath);
      var mem: Index, size: nat := map[], 0;
      ghost var skipped := |log|;
      if IsNew(log) == replayWhenNew {
        mem, size := ReplayLog(log);
        skipped := 0;
      }
      if treePath in unavailable {
        return Err(OpenFailed(treePath));
      }
      var tree := Stored(disk, treePath);
      assert log[|log|..] == [] && log[0..] == log;
      var e := new BTree(treePath, keySize, valueSize, log, mem, size, tree, skipped);
      r := Ok(e);
    }

    /** `BTree::new`, as written: the log is replayed only if it is new. */
    static method New(treePath: string, keySize: nat, valueSize: nat,
                      disk: map<string, seq<Rec>>, unavailable: set<string>)
      returns (r: Result<BTree>)
      ensures r.Ok? <==> WalPath(treePath) !in unavailable && treePath !in unavailable
      ensures WalPath(treePath) in unavailable ==> r == Err(OpenFailed(WalPath(treePath)))
      ensures WalPath(treePath) !in unavailable && treePath in unavailable ==>
                r == Err(OpenFailed(treePath))
      ensures r.Ok? ==> var e := r.value;
        && fresh(e) && e.Valid()
        && e.treePath == treePath && e.keySize == keySize && e.valueSize == valueSize
        && e.wal == Stored(disk, WalPath(treePath)) && e.tree == Stored(disk, treePath)
        && e.mem == IndexAtOpen(e.wal) && e.memSize == 0 && e.newTree == []
    {
      r := Open(treePath, keySize, valueSize, disk, unavailable, true);
    }

    /** `BTree::new` with the replay condition corrected: the log is replayed
        when it is NOT new, so the index again holds every logged record. */
    static method NewRecovering(treePath: string, keySize: nat, valueSize: nat,
                                disk: map<string, seq<Rec>>, unavailable: set<string>)
      returns (r: Result<BTree>)
      ensures r.Ok? <==> WalPath(treePath) !in unavailable && treePath !in unavailable
      ensures WalPath(treePath) in unavailable ==> r == Err(OpenFailed(WalPath(treePath)))
      ensures WalPath(treePath) !in unavailable && treePath in unavailable ==>
                r == Err(OpenFailed(treePath))
      ensures r.Ok? ==> var e := r.value;
        && fresh(e) && e.Valid() && e.unreplayed == 0
        && e.treePath == treePath && e.keySize == keySize && e.valueSize == valueSize
        && e.wal == Stored(disk, WalPath(treePath)) && e.tree == Stored(disk, treePath)
        && e.mem == IndexAtOpenFixed(e.wal) && e.memSize == |e.wal| && e.newTree == []
    {
      r := Open(treePath, keySize, valueSize, disk, unavailable, false);
    }

    /** `BTree::get`: a lookup in the in-memory index alone; the data file
        is never read. */
    function Get(key: int): (r: Option<seq<int>>)
      reads this`mem
      ensures r.None? <==> key !in mem
      ensures r.Some? ==> Increasing(r.value) && forall v :: v in r.value <==> Holds(mem, key, v)
    {
      Lookup(mem, key)
    }

    /** In a valid engine a key is found exactly when some record under it
        was logged since the engine was opened (or was replayed), and the
        values found under it are exactly the values so logged. */
    lemma GetReflectsLog(key: int)
      requires Valid()
      ensures Get(key).Some? <==> exists v :: Rec(key, v) in wal[unreplayed..]
      ensures Get(key).Some? ==> forall v :: v in Get(key).value <==> Rec(key, v) in wal[unreplayed..]
    {
      ReplayHolds(wal[unreplayed..]);
      if Get(key).Some? {
        var v :| v in mem[key];
        assert Rec(key, v) in wal[unreplayed..];
      }
    }

    /** `BTree::compact`: merge the index's records with the data file's into
        a fresh `.new` file, record by record. Only that file changes; the
        log, the index and the data file are left as they are. */
    method Compact(fault: CompactFault) returns (r: Outcome)
      modifies this`newTree
      ensures Compacted(Entries(mem), tree, treePath, fault, old(newTree), newTree, r)
    {
      if fault == OpenFails {
        return Failed(OpenFailed(NewPath(treePath)));
      }
      var written, complete := WriteMerged(Entries(mem), tree, fault);
      newTree := written;
      r := if complete then Done else Failed(AppendFailed(NewPath(treePath)));
    }

    /** The part of `insert` after a successful log append: the record is
        in the log and in the index, and the index's size grows by one. */
    method AppendAndIndex(key: int, value: int)
      requires Valid()
      modifies this`wal, this`mem, this`memSize
      ensures Valid()
      ensures wal == old(wal) + [Rec(key, value)] && mem == Add(old(mem), key, value)
      ensures memSize == old(memSize) + 1
    {
      ReplayAppended(wal, unreplayed, Rec(key, value));
      wal := wal + [Rec(key, value)];
      mem := Add(mem, key, value);
      memSize := memSize + 1;
    }

    /** `BTree::insert`: append the record to the log first; only if that
        succeeds insert it into the index, and compact when the size the
        index reports passes `MAX_MEMORY_ITEMS`. A compaction failure is
        reported after the insert itself has taken effect. */
    method Insert(key: int, value: int, walFails: bool, fault: CompactFault) returns (r: Outcome)
      requires Valid()
      modifies this
      ensures Valid()
      ensures walFails ==> r == Failed(AppendFailed(WalPath(treePath)))
      ensures walFails ==> wal == old(wal) && mem == old(mem) && memSize == old(memSize)
                           && newTree == old(newTree)
      ensures !walFails ==> wal == old(wal) + [Rec(key, value)] && mem == Add(old(mem), key, value)
                            && memSize == old(memSize) + 1
      ensures !walFails && memSize <= MAX_MEMORY_ITEMS ==> r == Done && newTree == old(newTree)
      ensures !walFails && memSize > MAX_MEMORY_ITEMS ==>
                Compacted(Entries(mem), tree, treePath, fault, old(newTree), newTree, r)
    {
      if walFails {
        return Failed(AppendFailed(WalPath(treePath)));
      }
      AppendAndIndex(key, value);
      if memSize > MAX_MEMORY_ITEMS {
        r := Compact(fault);
      } else {
        r := Done;
      }
    }
  }
}
