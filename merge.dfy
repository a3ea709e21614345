/** The two-way merge compaction uses (`itertools::merge`): it repeatedly
    emits the smaller head of its two input streams and, when the heads
    compare equal, the head of the FIRST stream. The merge is generic in
    the element type and compares elements through `key`, so that the same
    definition can merge plain records and records tagged with the stream
    they came from. */
module Merging {
  import opened Records

  function Merge<T>(a: seq<T>, b: seq<T>, key: T -> Rec): (r: seq<T>)
    ensures |r| == |a| + |b|
    decreases |a| + |b|
  {
    if a == [] then b
    else if b == [] then a
    else if RecLe(key(a[0]), key(b[0])) then [a[0]] + Merge(a[1..], b, key)
    else [b[0]] + Merge(a, b[1..], key)
  }

  /** Merging with an empty second stream passes the first one through. */
  lemma MergeRightEmpty<T>(a: seq<T>, key: T -> Rec)
    ensures Merge(a, [], key) == a
  {
  }

  /** No element is dropped or duplicated: the output is a permutation of
      the concatenated inputs. */
  lemma {:induction false} MergePermutes<T>(a: seq<T>, b: seq<T>, key: T -> Rec)
    ensures multiset(Merge(a, b, key)) == multiset(a) + multiset(b)
    decreases |a| + |b|
  {
    if a == [] || b == [] {
    } else if RecLe(key(a[0]), key(b[0])) {
      var rest := Merge(a[1..], b, key);
      assert Merge(a, b, key) == [a[0]] + rest;
      MergePermutes(a[1..], b, key);
      assert a == [a[0]] + a[1..];
    } else {
      var rest := Merge(a, b[1..], key);
      assert Merge(a, b, key) == [b[0]] + rest;
      MergePermutes(a, b[1..], key);
      assert b == [b[0]] + b[1..];
    }
  }

  /** `x` is at or below every element of `s`. */
  ghost predicate Below<T>(x: Rec, s: seq<T>, key: T -> Rec) {
    forall i :: 0 <= i < |s| ==> RecLe(x, key(s[i]))
  }

  lemma {:induction false} MergeBelow<T>(x: Rec, a: seq<T>, b: seq<T>, key: T -> Rec)
    requires Below(x, a, key) && Below(x, b, key)
    ensures Below(x, Merge(a, b, key), key)
    decreases |a| + |b|
  {
    if a == [] || b == [] {
    } else if RecLe(key(a[0]), key(b[0])) {
      MergeBelow(x, a[1..], b, key);
    } else {
      MergeBelow(x, a, b[1..], key);
    }
  }

  lemma SortedCons<T>(h: T, t: seq<T>, key: T -> Rec)
    requires Below(key(h), t, key) && SortedBy(t, key)
    ensures SortedBy([h] + t, key)
  {
    var s := [h] + t;
    forall i, j | 0 <= i < j < |s| ensures RecLe(key(s[i]), key(s[j])) {
      if i > 0 { assert s[i] == t[i - 1] && s[j] == t[j - 1]; }
      else { assert s[j] == t[j - 1]; }
    }
  }

  /** Merging two sorted streams gives a sorted stream. */
  lemma {:induction false} MergeSorted<T>(a: seq<T>, b: seq<T>, key: T -> Rec)
    requires SortedBy(a, key) && SortedBy(b, key)
    ensures SortedBy(Merge(a, b, key), key)
    decreases |a| + |b|
  {
    if a == [] || b == [] {
    } else if RecLe(key(a[0]), key(b[0])) {
      MergeSorted(a[1..], b, key);
      MergeBelow(key(a[0]), a[1..], b, key);
      SortedCons(a[0], Merge(a[1..], b, key), key);
    } else {
      MergeSorted(a, b[1..], key);
      MergeBelow(key(b[0]), a, b[1..], key);
      SortedCons(b[0], Merge(a, b[1..], key), key);
    }
  }

  // ---- Tie-breaking: which stream an emitted element came from ----

  /** The stream a record reaches the merge from: compaction passes the
      in-memory index as the first stream and the data file as the second. */
  datatype Side = Memory | Disk

  datatype Tagged = Tagged(rec: Rec, side: Side)

  function TagKey(t: Tagged): Rec { t.rec }

  function TagAll(s: seq<Rec>, side: Side): (r: seq<Tagged>)
    ensures |r| == |s| && forall i :: 0 <= i < |s| ==> r[i] == Tagged(s[i], side)
  {
    if s == [] then [] else [Tagged(s[0], side)] + TagAll(s[1..], side)
  }

  function Untag(s: seq<Tagged>): (r: seq<Rec>)
    ensures |r| == |s| && forall i :: 0 <= i < |s| ==> r[i] == s[i].rec
  {
    if s == [] then [] else [s[0].rec] + Untag(s[1..])
  }

  /** The merge compaction performs, with every record tagged with its stream. */
  function MergeTagged(a: seq<Rec>, b: seq<Rec>): seq<Tagged> {
    Merge(TagAll(a, Memory), TagAll(b, Disk), TagKey)
  }

  /** Tagging does not change the merge: it compares records only, so
      merging tagged streams and dropping the tags is merging the records. */
  lemma {:induction false} MergeIgnoresTags(a: seq<Rec>, b: seq<Rec>)
    ensures Untag(MergeTagged(a, b)) == Merge(a, b, AsKey)
    decreases |a| + |b|
  {
    var ta, tb := TagAll(a, Memory), TagAll(b, Disk);
    if a == [] || b == [] {
    } else if RecLe(a[0], b[0]) {
      assert ta[1..] == TagAll(a[1..], Memory);
      MergeIgnoresTags(a[1..], b);
    } else {
      assert tb[1..] == TagAll(b[1..], Disk);
      MergeIgnoresTags(a, b[1..]);
    }
  }

  /** Every memory record in `m` is at or above `x`. */
  ghost predicate MemoryAbove(x: Rec, m: seq<Tagged>) {
    forall j :: 0 <= j < |m| && m[j].side == Memory ==> RecLe(x, m[j].rec)
  }

  /** A record from the data file precedes a record from memory only when it
      is strictly smaller. */
  ghost predicate MemoryFirst(m: seq<Tagged>) {
    forall i, j :: 0 <= i < j < |m| && m[i].side == Disk && m[j].side == Memory ==>
      RecLt(m[i].rec, m[j].rec)
  }

  /** Every record the merge takes from the memory stream is at or above
      any lower bound of that stream. */
  lemma {:induction false} MemoryElementsAbove(x: Rec, a: seq<Rec>, b: seq<Rec>)
    requires forall i :: 0 <= i < |a| ==> RecLe(x, a[i])
    ensures MemoryAbove(x, MergeTagged(a, b))
    decreases |a| + |b|
  {
    var ta, tb := TagAll(a, Memory), TagAll(b, Disk);
    if a == [] || b == [] {
    } else if RecLe(a[0], b[0]) {
      assert ta[1..] == TagAll(a[1..], Memory);
      MemoryElementsAbove(x, a[1..], b);
    } else {
      assert tb[1..] == TagAll(b[1..], Disk);
      MemoryElementsAbove(x, a, b[1..]);
    }
  }

  /** The tie-break: when the memory stream is sorted, a record from the
      data file is emitted before a record from memory only if it is
      strictly smaller. Equal records therefore come memory copy first. */
  lemma {:induction false} MergeMemoryFirst(a: seq<Rec>, b: seq<Rec>)
    requires SortedBy(a, AsKey)
    ensures MemoryFirst(MergeTagged(a, b))
    decreases |a| + |b|
  {
    var ta, tb := TagAll(a, Memory), TagAll(b, Disk);
    var m := MergeTagged(a, b);
    if a == [] || b == [] {
    } else if RecLe(a[0], b[0]) {
      assert ta[1..] == TagAll(a[1..], Memory);
      MergeMemoryFirst(a[1..], b);
      var rest := MergeTagged(a[1..], b);
      assert m == [ta[0]] + rest;
      forall i, j | 0 <= i < j < |m| && m[i].side == Disk && m[j].side == Memory
        ensures RecLt(m[i].rec, m[j].rec)
      {
        assert i > 0 && m[i] == rest[i - 1] && m[j] == rest[j - 1];
      }
    } else {
      assert tb[1..] == TagAll(b[1..], Disk);
      MergeMemoryFirst(a, b[1..]);
      MemoryElementsAbove(a[0], a, b[1..]);
      var rest := MergeTagged(a, b[1..]);
      assert m == [tb[0]] + rest;
      forall i, j | 0 <= i < j < |m| && m[i].side == Disk && m[j].side == Memory
        ensures RecLt(m[i].rec, m[j].rec)
      {
        assert m[j] == rest[j - 1];
        if i > 0 { assert m[i] == rest[i - 1]; }
      }
    }
  }

  /** The tie-break on a small case: the data file holds 1, 3, 5 and the
      index 2, 3, 4 (all with value 0). The merge gives 1, 2, 3, 3, 4, 5, and
      of the two equal records the index's copy comes first. */
  lemma MergeExample()
    ensures Merge([Rec(2, 0), Rec(3, 0), Rec(4, 0)], [Rec(1, 0), Rec(3, 0), Rec(5, 0)], AsKey)
            == [Rec(1, 0), Rec(2, 0), Rec(3, 0), Rec(3, 0), Rec(4, 0), Rec(5, 0)]
    ensures MergeTagged([Rec(2, 0), Rec(3, 0), Rec(4, 0)], [Rec(1, 0), Rec(3, 0), Rec(5, 0)])
            == [Tagged(Rec(1, 0), Disk), Tagged(Rec(2, 0), Memory), Tagged(Rec(3, 0), Memory),
                Tagged(Rec(3, 0), Disk), Tagged(Rec(4, 0), Memory), Tagged(Rec(5, 0), Disk)]
  {
    var m2, m3, m4 := Tagged(Rec(2, 0), Memory), Tagged(Rec(3, 0), Memory), Tagged(Rec(4, 0), Memory);
    var d1, d3, d5 := Tagged(Rec(1, 0), Disk), Tagged(Rec(3, 0), Disk), Tagged(Rec(5, 0), Disk);
    assert TagAll([Rec(2, 0), Rec(3, 0), Rec(4, 0)], Memory) == [m2, m3, m4];
    assert TagAll([Rec(1, 0), Rec(3, 0), Rec(5, 0)], Disk) == [d1, d3, d5];
    assert [m2, m3, m4][1..] == [m3, m4] && [m3, m4][1..] == [m4] && [m4][1..] == [];
    assert [d1, d3, d5][1..] == [d3, d5] && [d3, d5][1..] == [d5];
    assert Merge([m4], [d5], TagKey) == [m4, d5];
    assert Merge([m4], [d3, d5], TagKey) == [d3, m4, d5];
    assert Merge([m3, m4], [d3, d5], TagKey) == [m3, d3, m4, d5];
    assert Merge([m2, m3, m4], [d3, d5], TagKey) == [m2, m3, d3, m4, d5];
    assert Merge([m2, m3, m4], [d1, d3, d5], TagKey) == [d1, m2, m3, d3, m4, d5];
    MergeIgnoresTags([Rec(2, 0), Rec(3, 0), Rec(4, 0)], [Rec(1, 0), Rec(3, 0), Rec(5, 0)]);
    var u := Untag([d1, m2, m3, d3, m4, d5]);
    assert u == [Rec(1, 0), Rec(2, 0), Rec(3, 0), Rec(3, 0), Rec(4, 0), Rec(5, 0)];
  }
}
