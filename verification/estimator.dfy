/** `calc_emi`: score every candidate of the grid against the observed
    balances, keep the earliest smallest truthy score, and report the
    candidate with its installment. */
module Estimator {
  import opened Results
  import opened Grid
  import opened Amortization
  import opened Search

  /** An observed outstanding balance and the number of installments paid
      when it was reported (`[bal, per]` in `bal_array`). */
  datatype Observation = Observation(balance: real, period: int)

  /** The chosen candidate and its installment `-np.pmt(r / 1200, t, amount)`. */
  datatype Fit = Fit(candidate: Candidate, emi: real)

  /** The per-period rate `r / 1200` of a candidate whose rate is `r` percent. */
  function PeriodRate(c: Candidate): (rate: real)
    requires InRange(c)
    ensures rate > 0.0
  {
    RatePercent(c) / 1200.0
  }

  /** Some observation lies beyond the candidate's tenure. */
  predicate Beyond(obs: seq<Observation>, tenure: int) {
    exists k :: 0 <= k < |obs| && obs[k].period > tenure
  }

  /** The balance the candidate predicts for an observation. */
  function Predicted(amount: int, c: Candidate, o: Observation): real
    requires InRange(c)
  {
    Remaining(PeriodRate(c), c.tenure, amount as real, o.period)
  }

  /** `x * y`, kept as a named term so that sign facts about a square stay
      attached to it. */
  function Times(x: real, y: real): real {
    x * y
  }

  function Square(d: real): real {
    Times(d, d)
  }

  /** A square is never negative, and is positive off zero. */
  lemma SquareSign(d: real)
    ensures Square(d) >= 0.0
    ensures d != 0.0 ==> Square(d) > 0.0
  {
    if d != 0.0 {
      SameSignPositive(d, d);
    } else {
      assert Square(d) == 0.0 * 0.0;
    }
  }

  lemma SameSignPositive(x: real, y: real)
    requires (x > 0.0 && y > 0.0) || (x < 0.0 && y < 0.0)
    ensures Times(x, y) > 0.0
  {
    if x > 0.0 {
      assert x * y > 0.0 * y;
    } else {
      assert (-x) * (-y) > 0.0 * (-y);
      assert x * y == (-x) * (-y);
    }
  }

  /** The squared difference `(bal - calc_balance) ** 2`. */
  function SquaredError(amount: int, c: Candidate, o: Observation): real
    requires InRange(c)
  {
    Square(o.balance - Predicted(amount, c, o))
  }

  /** `diff` after the inner loop of `multiproc`. */
  function SumSquaredErrors(amount: int, c: Candidate, obs: seq<Observation>): (s: real)
    requires InRange(c)
    ensures s >= 0.0
  {
    if obs == [] then 0.0
    else
      var last := obs[|obs| - 1];
      SquareSign(last.balance - Predicted(amount, c, last));
      SumSquaredErrors(amount, c, obs[..|obs| - 1]) + SquaredError(amount, c, last)
  }

  /** The candidate reproduces every observed balance exactly. */
  ghost predicate ExactFit(amount: int, c: Candidate, obs: seq<Observation>)
    requires InRange(c)
  {
    forall k :: 0 <= k < |obs| ==> Predicted(amount, c, obs[k]) == obs[k].balance
  }

  /** The squared errors add up to zero exactly when every observed balance
      lies on the candidate's amortisation curve. */
  lemma {:induction false} ZeroSumIffExactFit(amount: int, c: Candidate, obs: seq<Observation>)
    requires InRange(c)
    ensures ExactFit(amount, c, obs) ==> SumSquaredErrors(amount, c, obs) == 0.0
    ensures !ExactFit(amount, c, obs) ==> SumSquaredErrors(amount, c, obs) > 0.0
  {
    if obs != [] {
      var n := |obs| - 1;
      var prefix := obs[..n];
      ZeroSumIffExactFit(amount, c, prefix);
      assert forall k :: 0 <= k < n ==> prefix[k] == obs[k];
      SquareSign(obs[n].balance - Predicted(amount, c, obs[n]));
      if !ExactFit(amount, c, obs) {
        var k :| 0 <= k < |obs| && Predicted(amount, c, obs[k]) != obs[k].balance;
        if k < n {
          assert !ExactFit(amount, c, prefix);
        }
      }
    }
  }

  /** The score of one candidate: `None` when an observation lies beyond its
      tenure, otherwise the mean square error of the predicted balances. */
  function MultiProc(amount: int, obs: seq<Observation>, c: Candidate): (s: Option<real>)
    requires InRange(c)
    requires |obs| > 0
    ensures s.None? <==> Beyond(obs, c.tenure)
    ensures s.Some? ==> s.value >= 0.0
  {
    if Beyond(obs, c.tenure) then None
    else Some(SumSquaredErrors(amount, c, obs) / |obs| as real)
  }

  /** A candidate within reach scores zero, and is skipped by the search,
      exactly when it fits every observation exactly. */
  lemma ZeroScoreIffExactFit(amount: int, obs: seq<Observation>, c: Candidate)
    requires InRange(c)
    requires |obs| > 0
    requires !Beyond(obs, c.tenure)
    ensures !Truthy(MultiProc(amount, obs, c)) <==> ExactFit(amount, c, obs)
  {
    ZeroSumIffExactFit(amount, c, obs);
  }

  /** Every candidate asks a positive installment of a positive amount. */
  lemma InstallmentPositive(amount: int, c: Candidate)
    requires InRange(c)
    requires amount > 0
    ensures Emi(PeriodRate(c), c.tenure, amount as real) > 0.0
  {
    EmiPositive(PeriodRate(c), c.tenure, amount as real);
    SameSignPositive(amount as real, PeriodRate(c));
  }

  /** The scores of the whole grid, in enumeration order (`map(multiproc, rt_pairs)`):
      one per candidate of the range, each at that candidate's position. */
  function Scores(amount: int, obs: seq<Observation>): (s: seq<Option<real>>)
    requires |obs| > 0
    ensures |s| == 3540
    ensures forall c :: InRange(c) ==> s[GridIndex(c)] == MultiProc(amount, obs, c)
  {
    var g := CandidateGrid();
    seq(|g|, k requires 0 <= k < |g| => MultiProc(amount, obs, g[k]))
  }

  /** `calc_emi`. When no candidate has a truthy score the loop never binds
      `r, t` and the call fails. */
  function CalcEmi(amount: int, obs: seq<Observation>): (r: Result<Fit>)
    requires |obs| > 0
    ensures r.Success? ==> InRange(r.value.candidate) && !Beyond(obs, r.value.candidate.tenure)
  {
    var w := Winner(Scores(amount, obs));
    if w.None? then Failure(UnboundWinner)
    else
      var c := CandidateGrid()[w.value];
      Success(Fit(c, Emi(PeriodRate(c), c.tenure, amount as real)))
  }

  /** The candidate is the earliest in enumeration order among those with the
      smallest truthy score. */
  ghost predicate BestFit(amount: int, obs: seq<Observation>, c: Candidate)
    requires |obs| > 0
  {
    InRange(c) && IsEarliestMinimum(Scores(amount, obs), GridIndex(c))
  }

  /** `calc_emi` succeeds exactly when some candidate has a truthy score; it
      then returns the best-fitting candidate and that candidate's
      installment, and no other result. */
  lemma CalcEmiSelectsBestFit(amount: int, obs: seq<Observation>, f: Fit)
    requires |obs| > 0
    ensures CalcEmi(amount, obs).Failure? <==> NoneTruthy(Scores(amount, obs))
    ensures CalcEmi(amount, obs) == Success(f) <==>
      BestFit(amount, obs, f.candidate) &&
      f.emi == Emi(PeriodRate(f.candidate), f.candidate.tenure, amount as real)
  {
    var s := Scores(amount, obs);
    WinnerIsEarliestMinimum(s);
    if BestFit(amount, obs, f.candidate) {
      WinnerCharacterised(s, GridIndex(f.candidate));
    }
    if CalcEmi(amount, obs).Success? {
      var k := Winner(s).value;
      var c := CandidateGrid()[k];
      GridIsRange(c);
      var i := GridIndex(c);
      assert i == k;
    }
  }

  /** Taking square roots of the scores, as `np.sqrt` does, changes no
      decision of the search. */
  lemma RootScoresSameWinner(amount: int, obs: seq<Observation>, root: real -> real)
    requires |obs| > 0
    requires OrderAndZeroPreserving(root)
    ensures Winner(MapScores(Scores(amount, obs), root)) == Winner(Scores(amount, obs))
  {
    WinnerInvariant(Scores(amount, obs), root);
  }

  /** The largest reported period. */
  function MaxPeriod(obs: seq<Observation>): (m: int)
    requires |obs| > 0
    ensures forall k :: 0 <= k < |obs| ==> obs[k].period <= m
    ensures exists k :: 0 <= k < |obs| && obs[k].period == m
  {
    if |obs| == 1 then obs[0].period
    else
      var m := MaxPeriod(obs[1..]);
      assert forall k :: 1 <= k < |obs| ==> obs[k] == obs[1..][k - 1];
      if obs[0].period >= m then obs[0].period else m
  }

  /** Every balance lies strictly between zero and the amount, as the filter
      of `parse_account` guarantees. */
  ghost predicate BalancesBelowAmount(amount: int, obs: seq<Observation>) {
    forall k :: 0 <= k < |obs| ==> 0.0 < obs[k].balance < amount as real
  }

  /** For the observations `parse_account` hands over, `calc_emi` fails
      exactly when some period exceeds the longest tenure of the grid, 59. */
  lemma CrashIffPeriodBeyondGrid(amount: int, obs: seq<Observation>)
    requires |obs| > 0
    requires BalancesBelowAmount(amount, obs)
    ensures CalcEmi(amount, obs).Failure? <==> Beyond(obs, 59)
  {
    var s := Scores(amount, obs);
    WinnerIsEarliestMinimum(s);
    if Beyond(obs, 59) {
      forall k | 0 <= k < |s|
        ensures !Truthy(s[k])
      {
        assert CandidateGrid()[k].tenure <= 59;
      }
    } else {
      var m := MaxPeriod(obs);
      var j :| 0 <= j < |obs| && obs[j].period == m;
      var c := Candidate(20, if m >= 1 then m else 1);
      var k := GridIndex(c);
      AwayFromCurve(amount, obs[j], c);
      ZeroScoreIffExactFit(amount, obs, c);
      assert Truthy(s[k]);
    }
  }

  /** A balance strictly inside (0, amount) is off the curve at the end of the
      tenure and before the first installment. */
  lemma AwayFromCurve(amount: int, o: Observation, c: Candidate)
    requires InRange(c)
    requires 0.0 < o.balance < amount as real
    requires o.period == c.tenure || (o.period <= 0 && c.tenure == 1)
    ensures Predicted(amount, c, o) != o.balance
  {
    if o.period == c.tenure {
      RetiredAtTerm(PeriodRate(c), c.tenure, amount as real);
    } else {
      RemainingBounds(PeriodRate(c), c.tenure, amount as real, o.period);
    }
  }
}
