/** The list shapes the parser builds with LINQ and `foreach`/`Add`: a filtered,
    mapped list in document order, and `Distinct()`. */
module Seqs {
  import opened Wrappers

  /** Goes through `xs` in order and keeps `y` for every element that `f` maps to
      `Some(y)`: the `foreach`/`if`/`Add` loops of the parser. */
  function FilterMap<A, B>(xs: seq<A>, f: A -> Option<B>): (r: seq<B>)
    ensures |r| <= |xs|
  {
    if |xs| == 0 then []
    else
      var init := FilterMap(xs[..|xs| - 1], f);
      match f(xs[|xs| - 1])
      case Some(y) => init + [y]
      case None => init
  }

  /** Filtering a concatenation filters each part and keeps the parts' order. */
  lemma {:induction false} FilterMapAppend<A, B>(xs: seq<A>, ys: seq<A>, f: A -> Option<B>)
    ensures FilterMap(xs + ys, f) == FilterMap(xs, f) + FilterMap(ys, f)
    decreases |ys|
  {
    if |ys| == 0 {
      assert xs + ys == xs;
    } else {
      var ys' := ys[..|ys| - 1];
      assert (xs + ys)[..|xs + ys| - 1] == xs + ys';
      FilterMapAppend(xs, ys', f);
    }
  }

  /** A value is in the result exactly when `f` yields it for some element. */
  lemma {:induction false} FilterMapMember<A, B>(xs: seq<A>, f: A -> Option<B>, y: B)
    ensures y in FilterMap(xs, f) <==> exists i :: 0 <= i < |xs| && f(xs[i]) == Some(y)
    decreases |xs|
  {
    if |xs| > 0 {
      var init := xs[..|xs| - 1];
      FilterMapMember(init, f, y);
      if i :| 0 <= i < |init| && f(init[i]) == Some(y) {
        assert f(xs[i]) == Some(y);
      }
      if i :| 0 <= i < |xs| && f(xs[i]) == Some(y) {
        if i < |init| {
          assert f(init[i]) == Some(y);
        }
      }
    }
  }

  /** The result is empty exactly when `f` rejects every element. */
  lemma {:induction false} FilterMapEmpty<A, B>(xs: seq<A>, f: A -> Option<B>)
    ensures FilterMap(xs, f) == [] <==> forall i :: 0 <= i < |xs| ==> f(xs[i]).None?
    decreases |xs|
  {
    if |xs| > 0 {
      var init := xs[..|xs| - 1];
      FilterMapEmpty(init, f);
      if forall i :: 0 <= i < |xs| ==> f(xs[i]).None? {
        assert forall i :: 0 <= i < |init| ==> f(init[i]) == f(xs[i]);
      }
    }
  }

  /** The first element of the result comes from the first element `f` keeps. */
  lemma FilterMapFirst<A, B>(xs: seq<A>, f: A -> Option<B>, i: int)
    requires 0 <= i < |xs| && f(xs[i]).Some?
    requires forall j :: 0 <= j < i ==> f(xs[j]).None?
    ensures FilterMap(xs, f) != [] && FilterMap(xs, f)[0] == f(xs[i]).value
  {
    assert xs[..i] + xs[i..] == xs;
    FilterMapAppend(xs[..i], xs[i..], f);
    FilterMapEmpty(xs[..i], f);
    assert [xs[i]] + xs[i + 1..] == xs[i..];
    FilterMapAppend([xs[i]], xs[i + 1..], f);
    assert [xs[i]][..0] == [];
  }

  /** When `f` rejects nothing the result is `f` applied element by element. */
  lemma {:induction false} FilterMapTotal<A, B>(xs: seq<A>, f: A -> Option<B>)
    requires forall i :: 0 <= i < |xs| ==> f(xs[i]).Some?
    ensures |FilterMap(xs, f)| == |xs|
    ensures forall i :: 0 <= i < |xs| ==> Some(FilterMap(xs, f)[i]) == f(xs[i])
    decreases |xs|
  {
    if |xs| > 0 {
      var init := xs[..|xs| - 1];
      assert forall i :: 0 <= i < |init| ==> f(init[i]) == f(xs[i]);
      FilterMapTotal(init, f);
    }
  }

  /** `Distinct()`: the first occurrence of every element, in order. */
  function Distinct<T(==)>(xs: seq<T>): (r: seq<T>)
    ensures forall i :: 0 <= i < |xs| ==> xs[i] in r
    ensures forall i :: 0 <= i < |r| ==> r[i] in xs
    ensures forall i, j :: 0 <= i < j < |r| ==> r[i] != r[j]
    ensures |xs| > 0 ==> |r| > 0 && r[0] == xs[0]
  {
    if |xs| == 0 then []
    else
      var d := Distinct(xs[..|xs| - 1]);
      if xs[|xs| - 1] in d then d else d + [xs[|xs| - 1]]
  }
}
