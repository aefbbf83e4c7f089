/** What several of the scripts' models share. */
module Collections {
  datatype Option<T> = None | Some(value: T)

  /** Which remote calls fail, and which of these have taken effect all the same: their answer was lost. */
  datatype Network = Network(fails: nat -> bool, applied: nat -> bool) {
    predicate TakesEffect(c: nat) {
      !fails(c) || applied(c)
    }
  }

  ghost predicate Distinct<T>(list: seq<T>) {
    forall i, j :: 0 <= i < j < |list| ==> list[i] != list[j]
  }

  lemma {:induction false} SubsetIsNoLarger<T>(a: set<T>, b: set<T>)
    requires a <= b
    ensures |a| <= |b|
  {
    if x :| x in a {
      SubsetIsNoLarger(a - {x}, b - {x});
    }
  }
}
