/** Sequence helpers shared by the observation selector and the batch loop. */
module Seqs {
  import opened Results

  /** The values `f(x)` for the elements `x` of `xs` on which `f` yields a
      value, in the order of `xs`: what a loop appending each kept value to an
      initially empty list produces. */
  function FilterMap<A, B>(xs: seq<A>, f: A -> Option<B>): (r: seq<B>)
    ensures |r| <= |xs|
  {
    if xs == [] then []
    else
      var n := |xs| - 1;
      var init := FilterMap(xs[..n], f);
      match f(xs[n])
      case Some(y) => init + [y]
      case None => init
  }

  /** The positions of `xs`, ascending, at which `f` yields a value. */
  function KeptIndices<A, B>(xs: seq<A>, f: A -> Option<B>): (r: seq<nat>)
    ensures forall k :: 0 <= k < |r| ==> r[k] < |xs| && f(xs[r[k]]).Some?
    ensures forall k, l :: 0 <= k < l < |r| ==> r[k] < r[l]
    ensures forall i :: 0 <= i < |xs| && f(xs[i]).Some? ==> i in r
  {
    if xs == [] then []
    else
      var n := |xs| - 1;
      var init := KeptIndices(xs[..n], f);
      assert forall i :: 0 <= i < n ==> xs[..n][i] == xs[i];
      init + (if f(xs[n]).Some? then [n] else [])
  }

  /** `FilterMap` keeps exactly the positions `KeptIndices` lists: its k-th
      value is the value `f` yields at the k-th kept position. Together with
      the contract of `KeptIndices` this says the result is the in-order
      subsequence of the values `f` yields, nothing dropped and nothing added. */
  lemma {:induction false} FilterMapByIndices<A, B>(xs: seq<A>, f: A -> Option<B>)
    ensures |FilterMap(xs, f)| == |KeptIndices(xs, f)|
    ensures forall k :: 0 <= k < |KeptIndices(xs, f)| ==>
      f(xs[KeptIndices(xs, f)[k]]) == Some(FilterMap(xs, f)[k])
  {
    if xs != [] {
      var n := |xs| - 1;
      var init := xs[..n];
      FilterMapByIndices(init, f);
      var fm, ks := FilterMap(init, f), KeptIndices(init, f);
      forall k | 0 <= k < |ks|
        ensures f(xs[ks[k]]) == Some(fm[k])
      {
        assert xs[ks[k]] == init[ks[k]];
      }
      if f(xs[n]).Some? {
        assert FilterMap(xs, f) == fm + [f(xs[n]).value];
        assert KeptIndices(xs, f) == ks + [n];
      } else {
        assert FilterMap(xs, f) == fm;
        assert KeptIndices(xs, f) == ks;
      }
    }
  }

  /** Python's `zip`: pairs elements by position and stops at the end of the
      shorter sequence. */
  function Zip<A, B>(a: seq<A>, b: seq<B>): (r: seq<(A, B)>)
    ensures |r| == if |a| <= |b| then |a| else |b|
    ensures forall i :: 0 <= i < |r| ==> r[i] == (a[i], b[i])
  {
    if a == [] || b == [] then []
    else [(a[0], b[0])] + Zip(a[1..], b[1..])
  }

  /** What `f` yields at `x` when it does not fail. */
  function Settle<A, B>(f: A -> Result<Option<B>>): A -> Option<B> {
    x => if f(x).Success? then f(x).value else None
  }

  /** A loop over `xs` that appends every value `f` yields, skips the
      elements on which `f` yields nothing, and stops with the first
      failure, which escapes. */
  function CollectSome<A, B>(xs: seq<A>, f: A -> Result<Option<B>>): (r: Result<seq<B>>)
    ensures r.Success? ==> |r.value| <= |xs|
  {
    if xs == [] then Success([])
    else
      var n := |xs| - 1;
      match CollectSome(xs[..n], f)
      case Failure(e) => Failure(e)
      case Success(init) =>
        match f(xs[n])
        case Failure(e) => Failure(e)
        case Success(None) => Success(init)
        case Success(Some(y)) => Success(init + [y])
  }

  /** The loop fails exactly when `f` fails on some element. */
  lemma {:induction false} CollectSomeFails<A, B>(xs: seq<A>, f: A -> Result<Option<B>>)
    ensures CollectSome(xs, f).Failure? <==> exists i :: 0 <= i < |xs| && f(xs[i]).Failure?
  {
    if xs != [] {
      var n := |xs| - 1;
      var init := xs[..n];
      CollectSomeFails(init, f);
      if CollectSome(init, f).Failure? {
        var i :| 0 <= i < n && f(init[i]).Failure?;
        assert init[i] == xs[i];
      } else if exists i :: 0 <= i < |xs| && f(xs[i]).Failure? {
        var i :| 0 <= i < |xs| && f(xs[i]).Failure?;
        if i < n {
          assert init[i] == xs[i];
        }
      }
    }
  }

  /** When it does not fail, the loop keeps, in order, the values `f`
      yields, and nothing else. */
  lemma {:induction false} CollectSomeKeeps<A, B>(xs: seq<A>, f: A -> Result<Option<B>>)
    requires CollectSome(xs, f).Success?
    ensures CollectSome(xs, f).value == FilterMap(xs, Settle(f))
  {
    if xs != [] {
      var n := |xs| - 1;
      CollectSomeKeeps(xs[..n], f);
    }
  }
}
