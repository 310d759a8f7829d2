/** Laws of concatenation that the verifier has to be reminded of. */
module Sequences {

  lemma AppendNothing<T>(a: seq<T>)
    ensures a + [] == a
  {
  }

  lemma Associates<T>(a: seq<T>, b: seq<T>, c: seq<T>)
    ensures a + b + c == a + (b + c)
  {
  }

  lemma SnocEquals<T>(r: seq<T>, init: seq<T>, last: T)
    requires |r| == |init| + 1
    ensures r == init + [last] <==> r[..|init|] == init && r[|init|] == last
  {
    assert r == r[..|init|] + [r[|init|]];
    assert (init + [last])[..|init|] == init;
  }
}
