/** The argmin loop of `calc_emi`: the first strict minimum among truthy
    scores, in enumeration order. */
module Search {
  import opened Results

  /** Python truthiness of a score: `None` and `0.0` are false. */
  predicate Truthy(s: Option<real>) {
    s.Some? && s.value != 0.0
  }

  /** The position the loop leaves in `r, t` after scanning `scores`.
      `min_diff` starts at infinity (no winner yet); a truthy score replaces
      the winner only when strictly smaller than the winner's score. */
  function Winner(scores: seq<Option<real>>): (w: Option<nat>)
    ensures w.Some? ==> w.value < |scores| && Truthy(scores[w.value])
  {
    if scores == [] then None
    else
      var n := |scores| - 1;
      var w := Winner(scores[..n]);
      assert w.Some? ==> scores[..n][w.value] == scores[w.value];
      if Truthy(scores[n]) && (w.None? || scores[n].value < scores[w.value].value) then Some(n)
      else w
  }

  /** Position `i` holds the earliest of the smallest truthy scores. */
  ghost predicate IsEarliestMinimum(scores: seq<Option<real>>, i: nat) {
    && i < |scores|
    && Truthy(scores[i])
    && (forall j :: 0 <= j < |scores| && Truthy(scores[j]) ==> scores[i].value <= scores[j].value)
    && (forall j :: 0 <= j < i && Truthy(scores[j]) ==> scores[i].value < scores[j].value)
  }

  ghost predicate NoneTruthy(scores: seq<Option<real>>) {
    forall j :: 0 <= j < |scores| ==> !Truthy(scores[j])
  }

  /** The loop finds a winner exactly when some score is truthy, and the
      winner is the earliest smallest truthy score. */
  lemma {:induction false} WinnerIsEarliestMinimum(scores: seq<Option<real>>)
    ensures Winner(scores).None? <==> NoneTruthy(scores)
    ensures Winner(scores).Some? ==> IsEarliestMinimum(scores, Winner(scores).value)
  {
    if scores != [] {
      var n := |scores| - 1;
      var prefix := scores[..n];
      WinnerIsEarliestMinimum(prefix);
      assert forall j :: 0 <= j < n ==> prefix[j] == scores[j];
    }
  }

  /** At most one position is the earliest minimum, so the characterisation
      fixes the winner. */
  lemma EarliestMinimumUnique(scores: seq<Option<real>>, i: nat, k: nat)
    requires IsEarliestMinimum(scores, i)
    requires IsEarliestMinimum(scores, k)
    ensures i == k
  {
  }

  lemma WinnerCharacterised(scores: seq<Option<real>>, i: nat)
    ensures Winner(scores) == Some(i) <==> IsEarliestMinimum(scores, i)
  {
    WinnerIsEarliestMinimum(scores);
    if IsEarliestMinimum(scores, i) {
      assert !NoneTruthy(scores);
      EarliestMinimumUnique(scores, i, Winner(scores).value);
    }
  }

  /** Applies `f` to every present score. */
  function MapScores(scores: seq<Option<real>>, f: real -> real): (m: seq<Option<real>>)
    ensures |m| == |scores|
    ensures forall j :: 0 <= j < |scores| ==> m[j].Some? == scores[j].Some?
  {
    seq(|scores|, j requires 0 <= j < |scores| =>
      if scores[j].Some? then Some(f(scores[j].value)) else None)
  }

  ghost predicate NonNegative(scores: seq<Option<real>>) {
    forall j :: 0 <= j < |scores| && scores[j].Some? ==> scores[j].value >= 0.0
  }

  /** `f` is strictly increasing on the non-negative reals and zero exactly
      at zero, as the square root is. */
  ghost predicate OrderAndZeroPreserving(f: real -> real) {
    && (forall x, y :: 0.0 <= x && 0.0 <= y ==> (x < y <==> f(x) < f(y)))
    && (forall x :: 0.0 <= x ==> (f(x) == 0.0 <==> x == 0.0))
  }

  /** Transforming non-negative scores by an order- and zero-preserving map
      (the square root turning a mean square error into its root) picks the
      same winner, zero-score skips included. */
  lemma {:induction false} WinnerInvariant(scores: seq<Option<real>>, f: real -> real)
    requires NonNegative(scores)
    requires OrderAndZeroPreserving(f)
    ensures Winner(MapScores(scores, f)) == Winner(scores)
  {
    if scores != [] {
      var n := |scores| - 1;
      var prefix := scores[..n];
      assert MapScores(scores, f)[..n] == MapScores(prefix, f);
      WinnerInvariant(prefix, f);
    }
  }
}
