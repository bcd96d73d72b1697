/** Set facts shared by the loops that grow edge sets one step at a time. */
module Sets {
  /** `s == s0 + a` and `s' == s + x` give `s' == s0 + (a + x)`. */
  lemma UnionStep<T>(s0: set<T>, s: set<T>, s': set<T>, a: set<T>, a': set<T>, x: set<T>)
    requires s == s0 + a && s' == s + x && a' == a + x
    ensures s' == s0 + a'
  {
  }
}
