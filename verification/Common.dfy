/** What several modules use: a value that may be missing, a list without repeats, and the elements of a list. */
module Common {
  datatype Option<T> = None | Some(value: T)

  ghost predicate Distinct(q: seq<nat>) {
    forall i, j :: 0 <= i < j < |q| ==> q[i] != q[j]
  }

  function Elems(q: seq<nat>): set<nat> {
    set x | x in q
  }
}
