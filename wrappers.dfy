/** An optional value, for Python's `None`, and the set facts the loops
    over dictionary keys share. */
module Wrappers {

  datatype Option<T> = None | Some(value: T)

  /** A set of ids is empty or has an element: the step that lets a loop
      over a dictionary's keys pick its next key. */
  lemma Inhabited(s: set<int>)
    ensures s == {} || exists x :: x in s
  {
    if forall y :: y !in s {
      assert s == {};
    }
  }
}
