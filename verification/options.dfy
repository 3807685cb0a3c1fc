module Options {
  datatype Option<+T> = None | Some(value: T)
}

module Sequences {
  predicate Distinct<T(==)>(s: seq<T>) {
    forall i, j | 0 <= i < j < |s| :: s[i] != s[j]
  }
}

/** The life of a `setTimeout` handle. */
module Timers {
  datatype Timer = Unarmed | Armed | Fired | Cleared
}
