/**
 * Order-preserving operations on sequences: the `filter`, `map` and
 * `flat` of JavaScript arrays, as used by the upload route and by the
 * results panel, with the facts the rest of the model relies on.
 */
module Seqs {
  import opened Wrappers

  /** `xs.filter(keep)`: the elements satisfying `keep`, in their original order. */
  function Filter<T>(xs: seq<T>, keep: T -> bool): (r: seq<T>)
    ensures |r| <= |xs|
    ensures forall i :: 0 <= i < |r| ==> r[i] in xs && keep(r[i])
    ensures forall i :: 0 <= i < |xs| && keep(xs[i]) ==> xs[i] in r
  {
    if xs == [] then []
    else (if keep(xs[0]) then [xs[0]] else []) + Filter(xs[1..], keep)
  }

  /** Filtering a concatenation filters each part: the relative order of the kept elements is the input's. */
  lemma {:induction false} FilterAppend<T>(xs: seq<T>, ys: seq<T>, keep: T -> bool)
    ensures Filter(xs + ys, keep) == Filter(xs, keep) + Filter(ys, keep)
  {
    if xs == [] {
      assert xs + ys == ys;
    } else {
      assert (xs + ys)[1..] == xs[1..] + ys;
      FilterAppend(xs[1..], ys, keep);
    }
  }

  /** A filter that keeps every element is the identity. */
  lemma {:induction false} FilterKeepsAll<T>(xs: seq<T>, keep: T -> bool)
    requires forall i :: 0 <= i < |xs| ==> keep(xs[i])
    ensures Filter(xs, keep) == xs
  {
    if xs != [] {
      FilterKeepsAll(xs[1..], keep);
    }
  }

  /** A filter that keeps no element yields the empty sequence. */
  lemma {:induction false} FilterKeepsNone<T>(xs: seq<T>, keep: T -> bool)
    requires forall i :: 0 <= i < |xs| ==> !keep(xs[i])
    ensures Filter(xs, keep) == []
  {
    if xs != [] {
      FilterKeepsNone(xs[1..], keep);
    }
  }

  /**
   * Filtering an already filtered sequence by a stronger condition is the
   * same as filtering the original by the stronger condition alone.
   */
  lemma {:induction false} FilterNarrows<T>(xs: seq<T>, weak: T -> bool, strong: T -> bool)
    requires forall x :: strong(x) ==> weak(x)
    ensures Filter(Filter(xs, weak), strong) == Filter(xs, strong)
  {
    if xs != [] {
      FilterNarrows(xs[1..], weak, strong);
      if weak(xs[0]) {
        assert Filter(xs, weak) == [xs[0]] + Filter(xs[1..], weak);
        var w := Filter(xs, weak);
        assert w[0] == xs[0] && w[1..] == Filter(xs[1..], weak);
        assert Filter(w, strong) == (if strong(xs[0]) then [xs[0]] else []) + Filter(w[1..], strong);
      } else {
        assert !strong(xs[0]);
        assert Filter(xs, weak) == Filter(xs[1..], weak);
        assert Filter(xs, strong) == Filter(xs[1..], strong);
      }
    }
  }

  /** Two conditions that agree on every element filter alike. */
  lemma {:induction false} FilterAgrees<T>(xs: seq<T>, keep: T -> bool, same: T -> bool)
    requires forall i :: 0 <= i < |xs| ==> keep(xs[i]) == same(xs[i])
    ensures Filter(xs, keep) == Filter(xs, same)
  {
    if xs != [] {
      FilterAgrees(xs[1..], keep, same);
    }
  }

  /** `xs.map(f)`. */
  function Map<T, U>(xs: seq<T>, f: T -> U): (r: seq<U>)
    ensures |r| == |xs|
    ensures forall i :: 0 <= i < |xs| ==> r[i] == f(xs[i])
  {
    if xs == [] then [] else [f(xs[0])] + Map(xs[1..], f)
  }

  /** The kept elements are exactly the elements of `xs` that pass `keep`. */
  lemma FilterMembers<T>(xs: seq<T>, keep: T -> bool, y: T)
    ensures y in Filter(xs, keep) <==> y in xs && keep(y)
  {
    if y in Filter(xs, keep) {
      var i :| 0 <= i < |Filter(xs, keep)| && Filter(xs, keep)[i] == y;
    }
    if y in xs && keep(y) {
      var i :| 0 <= i < |xs| && xs[i] == y;
    }
  }

  /** The mapped elements are exactly the images of the elements of `xs`. */
  lemma MapMembers<T, U>(xs: seq<T>, f: T -> U, y: U)
    ensures y in Map(xs, f) <==> exists i :: 0 <= i < |xs| && f(xs[i]) == y
  {
    if y in Map(xs, f) {
      var i :| 0 <= i < |Map(xs, f)| && Map(xs, f)[i] == y;
      assert f(xs[i]) == y;
    }
  }

  lemma MapAppend<T, U>(xs: seq<T>, ys: seq<T>, f: T -> U)
    ensures Map(xs + ys, f) == Map(xs, f) + Map(ys, f)
  {
    assert forall i :: 0 <= i < |xs + ys| ==> Map(xs + ys, f)[i] == (Map(xs, f) + Map(ys, f))[i];
  }

  /** Concatenation of a sequence of sequences, in order. */
  function Flatten<T>(xss: seq<seq<T>>): seq<T>
  {
    if xss == [] then [] else xss[0] + Flatten(xss[1..])
  }

  lemma FlattenOne<T>(xs: seq<T>)
    ensures Flatten([xs]) == xs
  {
    assert [xs][1..] == [];
  }

  /** A property every image has is kept by any filter of the images. */
  lemma FilterMapAll<T, U>(xs: seq<T>, f: T -> U, keep: U -> bool, good: U -> bool)
    requires forall i :: 0 <= i < |xs| ==> good(f(xs[i]))
    ensures forall k :: 0 <= k < |Filter(Map(xs, f), keep)| ==> good(Filter(Map(xs, f), keep)[k])
  {
    var ys := Map(xs, f);
    forall k | 0 <= k < |Filter(ys, keep)|
      ensures good(Filter(ys, keep)[k])
    {
      var j :| 0 <= j < |ys| && ys[j] == Filter(ys, keep)[k];
    }
  }

  lemma {:induction false} FlattenAppend<T>(xss: seq<seq<T>>, yss: seq<seq<T>>)
    ensures Flatten(xss + yss) == Flatten(xss) + Flatten(yss)
  {
    if xss == [] {
      assert xss + yss == yss;
    } else {
      assert (xss + yss)[1..] == xss[1..] + yss;
      FlattenAppend(xss[1..], yss);
    }
  }

  /** `xs.filter(Boolean)` on a sequence whose elements are either an object or `null`. */
  function Present<T>(xs: seq<Option<T>>): (r: seq<T>)
    ensures |r| <= |xs|
    ensures (forall i :: 0 <= i < |xs| ==> xs[i].Some?) ==>
              |r| == |xs| && forall i :: 0 <= i < |xs| ==> r[i] == xs[i].value
  {
    if xs == [] then [] else (if xs[0].Some? then [xs[0].value] else []) + Present(xs[1..])
  }

  lemma {:induction false} PresentAppend<T>(xs: seq<Option<T>>, ys: seq<Option<T>>)
    ensures Present(xs + ys) == Present(xs) + Present(ys)
  {
    if xs == [] {
      assert xs + ys == ys;
    } else {
      var head := if xs[0].Some? then [xs[0].value] else [];
      assert (xs + ys)[0] == xs[0];
      assert (xs + ys)[1..] == xs[1..] + ys;
      PresentAppend(xs[1..], ys);
      calc {
        Present(xs + ys);
        head + Present(xs[1..] + ys);
        head + (Present(xs[1..]) + Present(ys));
        (head + Present(xs[1..])) + Present(ys);
      }
    }
  }
}
