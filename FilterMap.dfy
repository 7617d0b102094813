/** The shape of a loop that walks a list in order and appends, for each element, the
    value computed from it when there is one; elements without a value are skipped. */
module FilterMap {
  import opened Wrappers

  /** The values `f` gives the elements of `xs`, in the order of `xs`. */
  function Kept<X, Y>(xs: seq<X>, f: X -> Option<Y>): (ys: seq<Y>)
    ensures |ys| <= |xs|
  {
    if xs == [] then []
    else
      var init := Kept(xs[..|xs| - 1], f);
      match f(xs[|xs| - 1])
      case None => init
      case Some(y) => init + [y]
  }

  /** One more element adds its value, if it has one, at the end. */
  lemma KeptSnoc<X, Y>(xs: seq<X>, f: X -> Option<Y>, i: nat)
    requires i < |xs|
    ensures f(xs[i]).None? ==> Kept(xs[..i + 1], f) == Kept(xs[..i], f)
    ensures f(xs[i]).Some? ==> Kept(xs[..i + 1], f) == Kept(xs[..i], f) + [f(xs[i]).value]
  {
    assert xs[..i + 1][..i] == xs[..i];
  }

  /** The values of two runs of elements are those of the first run followed by those of
      the second: values keep the order of the elements they come from. */
  lemma {:induction false} KeptAppend<X, Y>(a: seq<X>, b: seq<X>, f: X -> Option<Y>)
    ensures Kept(a + b, f) == Kept(a, f) + Kept(b, f)
  {
    if b == [] {
      assert a + b == a;
    } else {
      var b' := b[..|b| - 1];
      assert (a + b)[..|a + b| - 1] == a + b';
      assert (a + b)[|a + b| - 1] == b[|b| - 1];
      KeptAppend(a, b', f);
    }
  }

  /** Every value is the value of some element. */
  lemma {:induction false} KeptOrigin<X, Y>(xs: seq<X>, f: X -> Option<Y>)
    ensures forall k :: 0 <= k < |Kept(xs, f)| ==>
      exists j :: 0 <= j < |xs| && f(xs[j]) == Some(Kept(xs, f)[k])
  {
    if xs != [] {
      var init := xs[..|xs| - 1];
      KeptOrigin(init, f);
      var ys := Kept(xs, f);
      var last := xs[|xs| - 1];
      assert ys == Kept(init, f) + (if f(last).Some? then [f(last).value] else []);
      forall k | 0 <= k < |ys|
        ensures exists j :: 0 <= j < |xs| && f(xs[j]) == Some(ys[k])
      {
        if k < |Kept(init, f)| {
          var j :| 0 <= j < |init| && f(init[j]) == Some(Kept(init, f)[k]);
          assert xs[j] == init[j] && ys[k] == Kept(init, f)[k];
        } else {
          assert f(xs[|xs| - 1]) == Some(ys[k]);
        }
      }
    } else {
      assert Kept(xs, f) == [];
    }
  }

  /** When every element has a value, every value is kept, one per element and in order. */
  lemma {:induction false} KeptAllSome<X, Y>(xs: seq<X>, f: X -> Option<Y>)
    requires forall j :: 0 <= j < |xs| ==> f(xs[j]).Some?
    ensures |Kept(xs, f)| == |xs|
    ensures forall j :: 0 <= j < |xs| ==> Some(Kept(xs, f)[j]) == f(xs[j])
  {
    if xs != [] {
      var init := xs[..|xs| - 1];
      assert forall j :: 0 <= j < |init| ==> init[j] == xs[j];
      KeptAllSome(init, f);
      assert Kept(xs, f) == Kept(init, f) + [f(xs[|xs| - 1]).value];
    }
  }

  /** When every value of an element of `xs` satisfies `ok`, all of them do. */
  lemma {:induction false} KeptAll<X, Y>(xs: seq<X>, f: X -> Option<Y>, ok: Y -> bool)
    requires forall j :: 0 <= j < |xs| && f(xs[j]).Some? ==> ok(f(xs[j]).value)
    ensures forall k :: 0 <= k < |Kept(xs, f)| ==> ok(Kept(xs, f)[k])
  {
    if xs != [] {
      var init := xs[..|xs| - 1];
      assert forall j :: 0 <= j < |init| ==> init[j] == xs[j];
      KeptAll(init, f, ok);
    }
  }

  /** The number of elements of `xs` for which `keep` holds. */
  function CountWhere<X>(xs: seq<X>, keep: X -> bool): (n: nat)
    ensures n <= |xs|
  {
    if xs == [] then 0
    else CountWhere(xs[..|xs| - 1], keep) + (if keep(xs[|xs| - 1]) then 1 else 0)
  }

  /** When only elements satisfying `keep` have a value, there are at most as many values
      as such elements. */
  lemma {:induction false} KeptAtMost<X, Y>(xs: seq<X>, f: X -> Option<Y>, keep: X -> bool)
    requires forall j :: 0 <= j < |xs| && f(xs[j]).Some? ==> keep(xs[j])
    ensures |Kept(xs, f)| <= CountWhere(xs, keep)
  {
    if xs != [] {
      var init := xs[..|xs| - 1];
      assert forall j :: 0 <= j < |init| ==> init[j] == xs[j];
      KeptAtMost(init, f, keep);
    }
  }
}
