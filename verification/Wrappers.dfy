/** What the other modules share: optional values, and lists that lie inside
    longer ones. */
module Wrappers {

  datatype Option<T> = None | Some(value: T)
}

module Slices {

  /** The list x lies at position p of s. */
  ghost predicate At<T>(s: seq<T>, p: nat, x: seq<T>) {
    p + |x| <= |s| && s[p..p + |x|] == x
  }

  lemma AtBoth<T>(s: seq<T>, p: nat, x: seq<T>, y: seq<T>)
    requires At(s, p, x + y)
    ensures At(s, p, x) && At(s, p + |x|, y)
  {
    var z := s[p..p + |x + y|];
    assert z[..|x|] == x && z[|x|..] == y;
  }

  lemma AtIndex<T>(s: seq<T>, p: nat, x: seq<T>, i: nat)
    requires At(s, p, x) && i < |x|
    ensures s[p + i] == x[i]
  {
    assert s[p..p + |x|][i] == x[i];
  }
}
