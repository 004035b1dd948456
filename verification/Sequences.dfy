/** Facts about sequences that more than one module needs. */
module Sequences {
  lemma LastOrEarlier(xs: seq<nat>, x: int)
    requires xs != []
    ensures x in xs <==> x == xs[|xs| - 1] || x in xs[..|xs| - 1]
  {
    assert xs == xs[..|xs| - 1] + [xs[|xs| - 1]];
  }
}
