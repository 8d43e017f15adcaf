/** Generic traversals of sequences: `map`, a left-to-right pass that
    remembers the last value produced, and a pass that stops at the first
    element it cannot handle. */
module Seqs {
  import opened Wrappers

  /** `xs.map(f)`. */
  function MapAll<A, B>(f: A -> B, xs: seq<A>): (ys: seq<B>)
    ensures |ys| == |xs|
    ensures forall i :: 0 <= i < |xs| ==> ys[i] == f(xs[i])
  {
    if xs == [] then [] else MapAll(f, xs[..|xs| - 1]) + [f(xs[|xs| - 1])]
  }

  /** The pieces `f` gives for the elements, joined in order. */
  function ConcatMap<A, T>(f: A -> seq<T>, xs: seq<A>): seq<T>
  {
    if xs == [] then [] else ConcatMap(f, xs[..|xs| - 1]) + f(xs[|xs| - 1])
  }

  lemma {:induction false} ConcatMapAppend<A, T>(f: A -> seq<T>, xs: seq<A>, ys: seq<A>)
    ensures ConcatMap(f, xs + ys) == ConcatMap(f, xs) + ConcatMap(f, ys)
    decreases |ys|
  {
    if ys == [] {
      assert xs + ys == xs;
    } else {
      var init := ys[..|ys| - 1];
      assert (xs + ys)[..|xs + ys| - 1] == xs + init;
      assert (xs + ys)[|xs + ys| - 1] == ys[|ys| - 1];
      ConcatMapAppend(f, xs, init);
    }
  }

  /** The value `m` gives the last element it gives one for. */
  function LastSome<A, B>(m: A -> Option<B>, xs: seq<A>): Option<B>
  {
    if xs == [] then None
    else
      match m(xs[|xs| - 1])
      case Some(v) => Some(v)
      case None => LastSome(m, xs[..|xs| - 1])
  }

  lemma {:induction false} LastSomeMeaning<A, B>(m: A -> Option<B>, xs: seq<A>, v: B)
    ensures LastSome(m, xs) == Some(v) <==>
              exists j :: 0 <= j < |xs| && m(xs[j]) == Some(v) && forall k :: j < k < |xs| ==> m(xs[k]).None?
  {
    if xs != [] {
      var init := xs[..|xs| - 1];
      var last := |xs| - 1;
      LastSomeMeaning(m, init, v);
      if m(xs[last]).None? {
        if LastSome(m, init) == Some(v) {
          var j :| 0 <= j < |init| && m(init[j]) == Some(v) && forall k :: j < k < |init| ==> m(init[k]).None?;
          assert xs[j] == init[j];
          forall k | j < k < |xs| ensures m(xs[k]).None? {
            if k < last { assert xs[k] == init[k]; }
          }
        }
        if exists j :: 0 <= j < |xs| && m(xs[j]) == Some(v) && forall k :: j < k < |xs| ==> m(xs[k]).None? {
          var j :| 0 <= j < |xs| && m(xs[j]) == Some(v) && forall k :: j < k < |xs| ==> m(xs[k]).None?;
          assert init[j] == xs[j];
          forall k | j < k < |init| ensures m(init[k]).None? {
            assert init[k] == xs[k];
          }
        }
      }
    }
  }

  /** `f` applied to the first `n` elements, or the index of the first of
      them it gives nothing for. */
  function TraversePrefix<A, B>(f: A -> Option<B>, xs: seq<A>, n: nat): Result<seq<B>, nat>
    requires n <= |xs|
  {
    if n == 0 then Ok([])
    else
      match TraversePrefix(f, xs, n - 1)
      case Err(i) => Err(i)
      case Ok(ys) =>
        match f(xs[n - 1])
        case None => Err(n - 1)
        case Some(y) => Ok(ys + [y])
  }
  /** A pass over two elements that both succeed. */
  lemma TraverseTwo<A, B>(f: A -> Option<B>, xs: seq<A>, a: B, b: B)
    requires |xs| == 2 && f(xs[0]) == Some(a) && f(xs[1]) == Some(b)
    ensures TraversePrefix(f, xs, |xs|) == Ok([a, b])
  {
    assert TraversePrefix(f, xs, 0) == Ok([]);
    assert [] + [a] == [a];
    assert TraversePrefix(f, xs, 1) == Ok([a]);
    assert [a] + [b] == [a, b];
  }


  lemma {:induction false} TraverseMeaning<A, B>(f: A -> Option<B>, xs: seq<A>, n: nat)
    requires n <= |xs|
    ensures TraversePrefix(f, xs, n).Ok? <==> forall j :: 0 <= j < n ==> f(xs[j]).Some?
    ensures TraversePrefix(f, xs, n).Ok? ==>
              |TraversePrefix(f, xs, n).value| == n &&
              forall j :: 0 <= j < n ==> f(xs[j]) == Some(TraversePrefix(f, xs, n).value[j])
    ensures TraversePrefix(f, xs, n).Err? ==>
              var i := TraversePrefix(f, xs, n).error;
              i < n && f(xs[i]).None? && forall j :: 0 <= j < i ==> f(xs[j]).Some?
  {
    if n > 0 {
      TraverseMeaning(f, xs, n - 1);
    }
  }

  /** Once a prefix fails, every longer prefix fails at the same element. */
  lemma {:induction false} TraverseSticky<A, B>(f: A -> Option<B>, xs: seq<A>, i: nat, n: nat)
    requires i <= n <= |xs| && TraversePrefix(f, xs, i).Err?
    ensures TraversePrefix(f, xs, n) == TraversePrefix(f, xs, i)
    decreases n - i
  {
    if i < n {
      assert TraversePrefix(f, xs, i + 1) == TraversePrefix(f, xs, i);
      TraverseSticky(f, xs, i + 1, n);
    }
  }
}
