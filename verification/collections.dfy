/** Generic sequence helpers shared by the loader and the aggregation. */
module Collections {

  /** No element of `xs` occurs twice. */
  predicate Distinct<T(==)>(xs: seq<T>) {
    forall i, j :: 0 <= i < j < |xs| ==> xs[i] != xs[j]
  }

  /** The distinct values of `xs` in order of first appearance, as the
      dataframe `unique()` method returns them. */
  function Unique<T(==)>(xs: seq<T>): (u: seq<T>)
    ensures forall i :: 0 <= i < |xs| ==> xs[i] in u
    ensures forall i :: 0 <= i < |u| ==> u[i] in xs
    ensures Distinct(u)
    ensures |u| <= |xs|
  {
    if |xs| == 0 then []
    else
      var u := Unique(xs[..|xs| - 1]);
      var x := xs[|xs| - 1];
      assert xs == xs[..|xs| - 1] + [x];
      if x in u then u else u + [x]
  }

  /** `Unique` lists values in order of first appearance: of two values it
      lists, the earlier one already occurs before every occurrence of the
      later one. */
  lemma {:induction false} UniqueFirstAppearance<T>(xs: seq<T>)
    ensures forall i, j, p :: 0 <= i < j < |Unique(xs)| && 0 <= p < |xs| && xs[p] == Unique(xs)[j] ==>
              Unique(xs)[i] in xs[..p]
  {
    if |xs| > 0 {
      var init := xs[..|xs| - 1];
      var x := xs[|xs| - 1];
      var u' := Unique(init);
      var u := Unique(xs);
      UniqueFirstAppearance(init);
      assert xs == init + [x];
      forall i, j, p | 0 <= i < j < |u| && 0 <= p < |xs| && xs[p] == u[j]
        ensures u[i] in xs[..p]
      {
        assert u[i] == u'[i] && u'[i] in init;
        if p < |xs| - 1 {
          assert xs[..p] == init[..p] && init[p] == u[j];
          assert u[j] == u'[j];
        } else {
          assert xs[..p] == init;
        }
      }
    }
  }
}
