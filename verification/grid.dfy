/** The fixed (rate, tenure) grid of the search. */
module Grid {

  /** A candidate contract: the annual rate in half-percent units
      (`halfPercent / 2` is the rate in percent) and the tenure in periods. */
  datatype Candidate = Candidate(halfPercent: int, tenure: int)

  /** The rate in percent, as `float(rate)` reports it. */
  function RatePercent(c: Candidate): real {
    c.halfPercent as real / 2.0
  }

  /** `np.arange(10, 40, 0.5)` in half-percent units: 20, 21, ..., 79. */
  function Rates(): seq<int> {
    seq(60, i => 20 + i)
  }

  /** `np.arange(1, 60, 1)`: 1, 2, ..., 59. */
  function Tenures(): seq<int> {
    seq(59, j => 1 + j)
  }

  /** `[(r, t) for r in rates for t in tenures]`: rates in the outer loop. */
  function Pairs(rates: seq<int>, tenures: seq<int>): (g: seq<Candidate>)
    ensures |g| == |rates| * |tenures|
  {
    if rates == [] then []
    else
      var row := seq(|tenures|, j requires 0 <= j < |tenures| => Candidate(rates[0], tenures[j]));
      var rest := Pairs(rates[1..], tenures);
      assert |row + rest| == |tenures| + (|rates| - 1) * |tenures|;
      assert forall k :: |row| <= k < |row + rest| ==> (row + rest)[k] == rest[k - |row|];
      row + rest
  }

  /** The candidate built from the i-th rate and the j-th tenure sits at
      position `i * |tenures| + j`. */
  lemma {:induction false} PairsAt(rates: seq<int>, tenures: seq<int>, i: nat, j: nat)
    requires i < |rates|
    requires j < |tenures|
    ensures i * |tenures| + j < |Pairs(rates, tenures)|
    ensures Pairs(rates, tenures)[i * |tenures| + j] == Candidate(rates[i], tenures[j])
    decreases i
  {
    var m := |tenures|;
    assert i * m + j < (i + 1) * m <= |rates| * m;
    if i > 0 {
      PairsAt(rates[1..], tenures, i - 1, j);
      assert (i - 1) * m + j + m == i * m + j;
    }
  }

  /** The search grid in enumeration order, in closed form: position k holds
      rate `20 + k / 59` and tenure `1 + k % 59`. */
  function CandidateGrid(): (g: seq<Candidate>)
    ensures |g| == 3540
    ensures forall k :: 0 <= k < |g| ==> 20 <= g[k].halfPercent < 80 && 1 <= g[k].tenure < 60
  {
    seq(3540, k requires 0 <= k < 3540 => Candidate(20 + k / 59, 1 + k % 59))
  }

  /** The closed form is the nested comprehension over the two ranges. */
  lemma GridIsComprehension()
    ensures CandidateGrid() == Pairs(Rates(), Tenures())
  {
    var g, p := CandidateGrid(), Pairs(Rates(), Tenures());
    forall k | 0 <= k < 3540
      ensures g[k] == p[k]
    {
      PairsAt(Rates(), Tenures(), k / 59, k % 59);
    }
  }

  predicate InRange(c: Candidate) {
    20 <= c.halfPercent < 80 && 1 <= c.tenure < 60
  }

  /** Where a candidate of the grid range sits in the enumeration. */
  function GridIndex(c: Candidate): (k: nat)
    requires InRange(c)
    ensures k < 3540
    ensures CandidateGrid()[k] == c
  {
    var k := (c.halfPercent - 20) * 59 + (c.tenure - 1);
    k
  }

  /** The grid holds exactly the 60 x 59 candidates of the range. */
  lemma GridIsRange(c: Candidate)
    ensures c in CandidateGrid() <==> InRange(c)
  {
    if InRange(c) {
      var k := GridIndex(c);
    }
  }

  /** Rate first, then tenure: the order of the nested comprehension. */
  predicate Before(a: Candidate, b: Candidate) {
    a.halfPercent < b.halfPercent || (a.halfPercent == b.halfPercent && a.tenure < b.tenure)
  }

  /** The enumeration is strictly increasing, rate ascending in the outer
      loop and tenure ascending in the inner one. */
  lemma GridOrder(i: nat, j: nat)
    requires i < j < 3540
    ensures Before(CandidateGrid()[i], CandidateGrid()[j])
  {
    assert i / 59 <= j / 59;
    if i / 59 == j / 59 {
      assert i % 59 < j % 59;
    }
  }
}
