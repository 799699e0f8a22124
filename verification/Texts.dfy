/** Texts with a common beginning. */
module Texts {
  lemma SameRest(p: string, s: string, t: string)
    requires p + s == p + t
    ensures s == t
  {
    assert (p + s)[|p|..] == s && (p + t)[|p|..] == t;
  }
}
