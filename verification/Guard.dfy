/** A guard for predicates that are passed on more often than they are looked into. */
module Guard {
  /** Always true.  A predicate that is stated as `forall n {:trigger Look(n)} :: Look(n)
      ==> ...` says what stands behind the arrow, but is unfolded only in a proof that
      names Look. */
  predicate Look(n: nat) {
    true
  }
}
