/** Records shared by the write-ahead log, the on-disk store and the merge,
    and the small result types the engine's fallible operations return. */
module Records {

  /** One key-value pair, as appended to the WAL and to a data file. */
  datatype Rec = Rec(key: int, value: int)

  /** Records compare lexicographically: by key, then by value. */
  predicate RecLe(a: Rec, b: Rec) {
    a.key < b.key || (a.key == b.key && a.value <= b.value)
  }

  predicate RecLt(a: Rec, b: Rec) {
    RecLe(a, b) && a != b
  }

  /** The comparison key of a plain record is the record itself. */
  function AsKey(r: Rec): Rec { r }

  /** `s` is in non-decreasing order of `key`. */
  ghost predicate SortedBy<T>(s: seq<T>, key: T -> Rec) {
    forall i, j :: 0 <= i < j < |s| ==> RecLe(key(s[i]), key(s[j]))
  }

  /** `s` is in strictly increasing record order (no record twice). */
  ghost predicate StrictlySorted(s: seq<Rec>) {
    forall i, j :: 0 <= i < j < |s| ==> RecLt(s[i], s[j])
  }

  datatype Option<T> = None | Some(value: T)

  /** The I/O failures the engine surfaces, each naming the file involved. */
  datatype IoError = OpenFailed(path: string) | AppendFailed(path: string)

  datatype Result<T> = Ok(value: T) | Err(error: IoError)

  /** The result of an operation that returns no value. */
  datatype Outcome = Done | Failed(error: IoError)
}
