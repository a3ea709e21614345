/** The in-memory index (`mem_tree`): an ordered map from each key to the
    ordered set of values inserted under it. Only the behaviour the engine
    relies on is modelled: insertion, point lookup in value order, and the
    full traversal in (key, value) order that compaction consumes. */
module MultiMap {
  import opened Records

  type Index = map<int, set<int>>

  /** Value `v` is stored under key `k`. */
  predicate Holds(m: Index, k: int, v: int) {
    k in m && v in m[k]
  }

  predicate Increasing(s: seq<int>) {
    forall i, j :: 0 <= i < j < |s| ==> s[i] < s[j]
  }

  lemma Inhabited(s: set<int>)
    requires s != {}
    ensures exists y :: y in s
  {
    if forall y :: y !in s { assert false; }
  }

  lemma {:induction false} LeastExists(s: set<int>)
    requires s != {}
    ensures exists m :: m in s && forall x :: x in s ==> m <= x
    decreases |s|
  {
    Inhabited(s);
    var y :| y in s;
    var others := s - {y};
    if others == {} {
      forall x | x in s ensures y <= x {
        assert x !in others;
      }
    } else {
      LeastExists(others);
      var m :| m in others && forall x :: x in others ==> m <= x;
      var least := if y < m then y else m;
      forall x | x in s ensures least <= x {
        if x != y { assert x in others; }
      }
      assert least in s;
    }
  }

  function Least(s: set<int>): (m: int)
    requires s != {}
    ensures m in s && forall x :: x in s ==> m <= x
  {
    LeastExists(s);
    var m :| m in s && forall x :: x in s ==> m <= x;
    m
  }

  /** The elements of a finite set of integers in ascending order, as a
      `BTreeSet` iterates them. */
  function SortedInts(s: set<int>): (r: seq<int>)
    ensures |r| == |s| && Increasing(r)
    ensures forall x :: x in r <==> x in s
    decreases |s|
  {
    if s == {} then []
    else
      var m := Least(s);
      var rest := SortedInts(s - {m});
      assert forall j :: 0 <= j < |rest| ==> m < rest[j] by {
        forall j | 0 <= j < |rest| ensures m < rest[j] {
          assert rest[j] in rest;
        }
      }
      [m] + rest
  }

  /** A one-element set iterates as that element alone. */
  lemma SortedSingleton(s: set<int>, v: int)
    requires s == {v}
    ensures SortedInts(s) == [v]
  {
    var r := SortedInts(s);
    assert |r| == 1;
    assert r[0] in r;
  }

  /** A two-element set iterates smaller element first. */
  lemma SortedPair(s: set<int>, v: int, w: int)
    requires s == {v, w} && v < w
    ensures SortedInts(s) == [v, w]
  {
    var r := SortedInts(s);
    assert |r| == 2 && r[0] < r[1];
    assert r[0] in r && r[1] in r;
  }

  /** `mem_tree.insert(k, v)`: add `v` to the values of `k`, creating the
      key when absent. Values accumulate; nothing is overwritten. */
  function Add(m: Index, k: int, v: int): (r: Index)
    ensures r.Keys == m.Keys + {k}
    ensures forall k', v' :: Holds(r, k', v') <==> Holds(m, k', v') || (k' == k && v' == v)
  {
    m[k := (if k in m then m[k] else {}) + {v}]
  }

  /** The index obtained by inserting every record of `log`, in order, into
      an empty index. */
  function Replay(log: seq<Rec>): (m: Index)
    ensures log == [] ==> m == map[]
    ensures log != [] ==> Holds(m, log[|log| - 1].key, log[|log| - 1].value)
  {
    if log == [] then map[]
    else Add(Replay(log[..|log| - 1]), log[|log| - 1].key, log[|log| - 1].value)
  }

  /** The replayed index holds exactly the logged associations, and no key
      without a value. */
  lemma {:induction false} ReplayHolds(log: seq<Rec>)
    ensures forall k, v :: Holds(Replay(log), k, v) <==> Rec(k, v) in log
    ensures forall k :: k in Replay(log) ==> Replay(log)[k] != {}
    decreases |log|
  {
    if log != [] {
      var init := log[..|log| - 1];
      assert log == init + [log[|log| - 1]];
      ReplayHolds(init);
    }
  }

  /** Replaying one more record is one more insert. */
  lemma ReplaySnoc(log: seq<Rec>, r: Rec)
    ensures Replay(log + [r]) == Add(Replay(log), r.key, r.value)
  {
    assert (log + [r])[..|log|] == log;
  }

  /** `mem_tree.get(k)`: `None` for a key never inserted, otherwise the key's
      values in ascending order. */
  function Lookup(m: Index, k: int): (r: Option<seq<int>>)
    ensures r.None? <==> k !in m
    ensures r.Some? ==> Increasing(r.value) && forall v :: v in r.value <==> Holds(m, k, v)
  {
    if k in m then Some(SortedInts(m[k])) else None
  }

  /** An insert is visible to the next lookup of its key, with the earlier
      values kept, and leaves every other key's answer as it was. */
  lemma LookupAfterAdd(m: Index, k: int, v: int, k': int)
    ensures Lookup(Add(m, k, v), k).Some?
    ensures forall x :: x in Lookup(Add(m, k, v), k).value <==> x == v || Holds(m, k, x)
    ensures k' != k ==> Lookup(Add(m, k, v), k') == Lookup(m, k')
  {
  }

  /** The records of one key, in the order of `vs`: the row holds exactly
      the records of key `k` whose value is in `vs`, and is strictly
      ascending when `vs` is. */
  function Row(k: int, vs: seq<int>): (r: seq<Rec>)
    ensures |r| == |vs| && forall i :: 0 <= i < |vs| ==> r[i] == Rec(k, vs[i])
    ensures forall x :: x in r <==> x.key == k && x.value in vs
    ensures Increasing(vs) ==> StrictlySorted(r)
  {
    var r := seq(|vs|, i requires 0 <= i < |vs| => Rec(k, vs[i]));
    assert forall x :: x in r <==> x.key == k && x.value in vs by {
      forall x ensures x in r <==> x.key == k && x.value in vs {
        if x.key == k && x.value in vs {
          var q :| 0 <= q < |vs| && vs[q] == x.value;
          assert r[q] == x;
        }
      }
    }
    r
  }

  /** Two strictly sorted streams, the first wholly below the second, make a
      strictly sorted stream. */
  lemma ConcatStrictlySorted(a: seq<Rec>, b: seq<Rec>, k: int)
    requires StrictlySorted(a) && StrictlySorted(b)
    requires forall i :: 0 <= i < |a| ==> a[i].key == k
    requires forall j :: 0 <= j < |b| ==> k < b[j].key
    ensures StrictlySorted(a + b)
  {
  }

  /** One key's row followed by the rows of the larger keys: the step by
      which `Rows` grows. */
  lemma RowsJoin(m: Index, keys: seq<int>, rest: seq<Rec>)
    requires keys != [] && keys[0] in m && Increasing(keys)
    requires StrictlySorted(rest)
    requires forall i :: 0 <= i < |rest| ==> rest[i].key in keys[1..]
    requires forall k, v :: Rec(k, v) in rest <==> k in keys[1..] && Holds(m, k, v)
    ensures StrictlySorted(Row(keys[0], SortedInts(m[keys[0]])) + rest)
    ensures forall i :: 0 <= i < |Row(keys[0], SortedInts(m[keys[0]])) + rest| ==>
              (Row(keys[0], SortedInts(m[keys[0]])) + rest)[i].key in keys
    ensures forall k, v :: Rec(k, v) in Row(keys[0], SortedInts(m[keys[0]])) + rest <==>
              k in keys && Holds(m, k, v)
  {
    var k := keys[0];
    var row := Row(k, SortedInts(m[k]));
    forall j | 0 <= j < |rest| ensures k < rest[j].key {
      var q :| 0 <= q < |keys[1..]| && keys[1..][q] == rest[j].key;
      assert keys[0] < keys[q + 1];
    }
    ConcatStrictlySorted(row, rest, k);
    assert keys == [k] + keys[1..];
    var r := row + rest;
    forall i | 0 <= i < |r| ensures r[i].key in keys {
      if i < |row| { assert r[i] == row[i]; } else { assert r[i] == rest[i - |row|]; }
    }
    forall k', v ensures Rec(k', v) in r <==> k' in keys && Holds(m, k', v) {
      assert Rec(k', v) in r <==> Rec(k', v) in row || Rec(k', v) in rest;
    }
  }

  /** The rows of the keys `keys`, one after the other. */
  function Rows(m: Index, keys: seq<int>): (r: seq<Rec>)
    requires forall i :: 0 <= i < |keys| ==> keys[i] in m
    requires Increasing(keys)
    ensures StrictlySorted(r)
    ensures forall i :: 0 <= i < |r| ==> r[i].key in keys
    ensures forall k, v :: Rec(k, v) in r <==> k in keys && Holds(m, k, v)
    decreases |keys|
  {
    if keys == [] then []
    else
      var rest := Rows(m, keys[1..]);
      RowsJoin(m, keys, rest);
      Row(keys[0], SortedInts(m[keys[0]])) + rest
  }

  /** A stream is empty or holds its first record. */
  lemma HeadOrEmpty(s: seq<Rec>)
    ensures s == [] || s[0] in s
  {
  }

  /** The first record of a strictly ascending stream is below every other
      record of it. */
  lemma SortedHeadLeast(s: seq<Rec>, x: Rec)
    requires StrictlySorted(s) && x in s
    ensures x == s[0] || RecLt(s[0], x)
  {
  }

  /** Two strictly ascending streams with the same records are the same
      stream. */
  lemma {:induction false} StrictlySortedUnique(a: seq<Rec>, b: seq<Rec>)
    requires StrictlySorted(a) && StrictlySorted(b)
    requires forall x :: x in a <==> x in b
    ensures a == b
    decreases |a|
  {
    if a == [] {
      HeadOrEmpty(b);
    } else {
      assert a[0] in a;
      var ha, hb := a[0], b[0];
      SortedHeadLeast(a, hb);
      SortedHeadLeast(b, ha);
      assert ha == hb;
      forall x ensures x in a[1..] <==> x in b[1..] {
        if x in a[1..] {
          var p :| 0 <= p < |a[1..]| && a[1..][p] == x;
          assert RecLt(a[0], a[p + 1]);
          assert x in b && x != b[0];
          var q :| 0 <= q < |b| && b[q] == x;
          assert b[1..][q - 1] == x;
        }
        if x in b[1..] {
          var p :| 0 <= p < |b[1..]| && b[1..][p] == x;
          assert RecLt(b[0], b[p + 1]);
          assert x in a && x != a[0];
          var q :| 0 <= q < |a| && a[q] == x;
          assert a[1..][q - 1] == x;
        }
      }
      StrictlySortedUnique(a[1..], b[1..]);
      assert a == [a[0]] + a[1..] && b == [b[0]] + b[1..];
    }
  }

  /** The whole index as one record stream in (key, value) order: the
      traversal `mem_tree.into_iter()` hands to compaction. */
  function Entries(m: Index): (r: seq<Rec>)
    ensures StrictlySorted(r)
    ensures forall k, v :: Rec(k, v) in r <==> Holds(m, k, v)
  {
    var keys := SortedInts(m.Keys);
    Rows(m, keys)
  }
}
