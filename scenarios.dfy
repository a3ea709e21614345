/** The behaviours the unit tests of src/lib.rs exercise, stated as methods
    that drive the engine model and promise the observed outcome. A disk
    with no file on it is the empty map; an empty `unavailable` set means
    every open succeeds. */
module Scenarios {
  import opened Records
  import opened MultiMap
  import opened Merging
  import opened Engine

  /** `new_blank_file`: a fresh open creates an empty log and an empty data
      file, and both report themselves new. */
  method OpenFresh(base: string) returns (walCount: nat, treeCount: nat, walNew: bool, treeNew: bool)
    ensures walCount == 0 && treeCount == 0 && walNew && treeNew
  {
    StoredAttaches(map[], base, []);
    StoredAttaches(map[], WalPath(base), []);
    var r := BTree.New(base, 1, 1, map[], {});
    var e := r.value;
    walCount, treeCount := |e.wal|, |e.tree|;
    walNew, treeNew := IsNew(e.wal), IsNew(e.tree);
  }

  /** `new_existing_file`: reopening the files an engine left behind, with
      nothing inserted, finds both empty. */
  method OpenExisting(base: string) returns (walCount: nat, treeCount: nat)
    ensures walCount == 0 && treeCount == 0
  {
    var r := BTree.New(base, 1, 1, map[], {});
    var first := r.value;
    FilesDistinct(base);
    var disk := map[base := first.tree, WalPath(base) := first.wal];
    StoredAttaches(map[], base, first.tree);
    StoredAttaches(map[base := first.tree], WalPath(base), first.wal);
    var r' := BTree.New(base, 1, 1, disk, {});
    var e := r'.value;
    walCount, treeCount := |e.wal|, |e.tree|;
  }

  /** `insert_new_u8`, `insert_new_str`: one insert into a fresh engine logs
      one record, the log is no longer new, and the index holds the key. */
  method InsertIntoFresh(base: string) returns (walCount: nat, walNew: bool, contains: bool)
    ensures walCount == 1 && !walNew && contains
  {
    var r := BTree.New(base, 1, 1, map[], {});
    var e := r.value;
    var o := e.Insert(2, 3, false, NoFault);
    walCount, walNew, contains := |e.wal|, IsNew(e.wal), e.Get(2).Some?;
  }

  /** A failing log append leaves the engine as it was: nothing is logged
      and the key is not indexed. */
  method InsertWalFails(base: string) returns (o: Outcome, walCount: nat, contains: bool)
    ensures o == Failed(AppendFailed(WalPath(base))) && walCount == 0 && !contains
  {
    var r := BTree.New(base, 1, 1, map[], {});
    var e := r.value;
    o := e.Insert(2, 3, true, NoFault);
    walCount, contains := |e.wal|, e.Get(2).Some?;
  }

  /** `get_returns_an_iter`: after one insert, `get` yields exactly the
      inserted value. */
  method GetAfterInsert(base: string) returns (found: Option<seq<int>>)
    ensures found == Some([2])
  {
    var r := BTree.New(base, 1, 1, map[], {});
    var e := r.value;
    var o := e.Insert(1, 2, false, NoFault);
    found := e.Get(1);
    assert e.mem == Add(map[], 1, 2);
    assert e.mem[1] == {2};
    SortedSingleton(e.mem[1], 2);
  }

  /** `insert_multiple`: two inserts under one key keep both values; the
      log is not new after either, and `get` yields the values in
      ascending order whatever the insertion order. */
  method InsertMultiple(base: string) returns (newAfterFirst: bool, newAfterSecond: bool,
                                               found: Option<seq<int>>)
    ensures !newAfterFirst && !newAfterSecond && found == Some([2, 5])
  {
    var r := BTree.New(base, 1, 1, map[], {});
    var e := r.value;
    var o1 := e.Insert(1, 5, false, NoFault);
    newAfterFirst := IsNew(e.wal);
    var o2 := e.Insert(1, 2, false, NoFault);
    newAfterSecond := IsNew(e.wal);
    found := e.Get(1);
    assert e.mem == Add(Add(map[], 1, 5), 1, 2);
    assert e.mem[1] == {2, 5};
    SortedPair(e.mem[1], 2, 5);
  }

  /** Reopening after an insert, as written, answers nothing for the logged
      key; with the replay condition corrected it answers the logged value. */
  method ReopenAfterInsert(base: string) returns (asWritten: Option<seq<int>>,
                                                  recovering: Option<seq<int>>)
    ensures asWritten == None && recovering == Some([2])
  {
    var r := BTree.New(base, 1, 1, map[], {});
    var first := r.value;
    var o := first.Insert(1, 2, false, NoFault);
    FilesDistinct(base);
    var disk := map[base := first.tree, WalPath(base) := first.wal];
    StoredAttaches(map[], base, first.tree);
    StoredAttaches(map[base := first.tree], WalPath(base), first.wal);
    var r1 := BTree.New(base, 1, 1, disk, {});
    var r2 := BTree.NewRecovering(base, 1, 1, disk, {});
    asWritten := r1.value.Get(1);
    recovering := r2.value.Get(1);
    var m := r2.value.mem;
    assert Holds(m, 1, 2);
    assert m[1] == {2} by {
      forall v ensures v in m[1] <==> v == 2 {
        assert Rec(1, v) in [Rec(1, 2)] <==> v == 2;
      }
    }
    SortedSingleton(m[1], 2);
  }

  /** The log of the inserts (0, 0), (1, 1), .., (n - 1, n - 1). */
  function DiagonalLog(n: nat): (s: seq<Rec>)
    ensures |s| == n && forall j :: 0 <= j < n ==> s[j] == Rec(j, j)
  {
    if n == 0 then [] else DiagonalLog(n - 1) + [Rec(n - 1, n - 1)]
  }

  /** Inserts (i, i) for i = 0 .. n - 1 into an engine whose log is empty,
      none of them compacting while the index stays within the bound. */
  method InsertDiagonal(e: BTree, n: nat)
    requires e.Valid() && e.unreplayed == 0 && e.wal == [] && e.newTree == []
    requires n <= MAX_MEMORY_ITEMS
    modifies e
    ensures e.Valid() && e.wal == DiagonalLog(n) && e.memSize == n && e.newTree == []
  {
    for i := 0 to n
      invariant e.Valid() && e.newTree == []
      invariant e.wal == DiagonalLog(i) && e.memSize == i
    {
      var o := e.Insert(i, i, false, NoFault);
    }
  }

  /** Every logged record of the diagonal log is in the index's stream. */
  lemma DiagonalEntriesComplete(n: nat)
    ensures forall i :: 0 <= i < n ==> Rec(i, i) in Entries(Replay(DiagonalLog(n)))
  {
    var log := DiagonalLog(n);
    ReplayHolds(log);
    forall i | 0 <= i < n ensures Rec(i, i) in Entries(Replay(log)) {
      assert log[i] == Rec(i, i);
      assert Holds(Replay(log), i, i);
    }
  }

  /** The index's stream holds nothing the diagonal log did not record. */
  lemma DiagonalEntriesOnly(n: nat)
    ensures forall x :: x in Entries(Replay(DiagonalLog(n))) ==> 0 <= x.key < n && x.value == x.key
  {
    var log := DiagonalLog(n);
    var m := Replay(log);
    ReplayHolds(log);
    forall x | x in Entries(m) ensures 0 <= x.key < n && x.value == x.key {
      assert Holds(m, x.key, x.value);
      assert Rec(x.key, x.value) in log;
      var j :| 0 <= j < n && log[j] == x;
    }
  }

  /** The diagonal log is strictly ascending. */
  lemma DiagonalAscending(n: nat)
    ensures StrictlySorted(DiagonalLog(n))
  {
    var log := DiagonalLog(n);
    forall i, j | 0 <= i < j < n ensures RecLt(log[i], log[j]) {
      assert log[i] == Rec(i, i) && log[j] == Rec(j, j);
    }
  }

  /** Compacting the index built from the log (0, 0), (1, 1), ... against
      an empty data file writes exactly that log: the same records, each
      once, in the same order. */
  lemma DiagonalCompacted(n: nat)
    ensures Merge(Entries(Replay(DiagonalLog(n))), [], AsKey) == DiagonalLog(n)
  {
    var log := DiagonalLog(n);
    var es := Entries(Replay(log));
    MergeRightEmpty(es, AsKey);
    DiagonalEntriesComplete(n);
    DiagonalEntriesOnly(n);
    forall x ensures x in es <==> x in log {
      if x in es {
        assert log[x.key] == x;
      }
      if x in log {
        var j :| 0 <= j < n && log[j] == x;
      }
    }
    DiagonalAscending(n);
    StrictlySortedUnique(es, log);
  }

  /** The threshold: inserting (i, i) for i = 0 .. 999 into a fresh engine
      never compacts; the 1001st insert does, and with an empty data file
      the `.new` file then holds exactly the inserted records, each once and
      in insertion order (which here is also key order). */
  method CompactionThreshold(base: string) returns (beforeLast: seq<Rec>, afterLast: seq<Rec>)
    ensures beforeLast == []
    ensures afterLast == DiagonalLog(MAX_MEMORY_ITEMS + 1)
  {
    var r := BTree.New(base, 1, 1, map[], {});
    var e := r.value;
    InsertDiagonal(e, MAX_MEMORY_ITEMS);
    beforeLast := e.newTree;
    var o := e.Insert(MAX_MEMORY_ITEMS, MAX_MEMORY_ITEMS, false, NoFault);
    afterLast := e.newTree;
    assert e.wal == DiagonalLog(MAX_MEMORY_ITEMS + 1);
    assert e.wal[0..] == e.wal;
    DiagonalCompacted(MAX_MEMORY_ITEMS + 1);
  }
}
