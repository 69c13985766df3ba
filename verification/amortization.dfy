/** The annuity formulas behind `np.pmt` and `np.fv` (payments at period
    end), over exact reals. */
module Amortization {

  function NatPow(b: real, n: nat): real
    decreases n
  {
    if n == 0 then 1.0 else b * NatPow(b, n - 1)
  }

  /** `b` to an integer power; a negative exponent divides. Elapsed periods
      can be negative when a balance index lies past the statement month. */
  function Pow(b: real, n: int): (r: real)
    requires b > 0.0
    ensures r > 0.0
  {
    NatPowPositive(b, if n >= 0 then n else -n);
    if n >= 0 then NatPow(b, n) else 1.0 / NatPow(b, -n)
  }

  lemma {:induction false} NatPowPositive(b: real, n: nat)
    requires b > 0.0
    ensures NatPow(b, n) > 0.0
    decreases n
  {
    if n > 0 {
      NatPowPositive(b, n - 1);
    }
  }

  lemma {:induction false} NatPowMonotone(b: real, n: nat, m: nat)
    requires b >= 1.0
    requires n <= m
    ensures 1.0 <= NatPow(b, n) <= NatPow(b, m)
    decreases m
  {
    if m > 0 {
      if n < m {
        NatPowMonotone(b, n, m - 1);
      } else {
        NatPowMonotone(b, 0, m - 1);
      }
      MulAtLeast(b, NatPow(b, m - 1));
    }
  }

  lemma NatPowAboveOne(b: real, n: nat)
    requires b > 1.0
    requires n >= 1
    ensures NatPow(b, n) > 1.0
  {
    NatPowMonotone(b, 0, n - 1);
    var p := NatPow(b, n - 1);
    assert b * p - p == (b - 1.0) * p;
  }


  /** Integer powers of a base of at least one grow with the exponent and
      stay at or below one for non-positive exponents. */
  lemma PowMonotone(b: real, n: int, m: int)
    requires b >= 1.0
    requires n <= m
    ensures Pow(b, n) <= Pow(b, m)
    ensures n <= 0 ==> Pow(b, n) <= 1.0
    ensures m >= 0 ==> Pow(b, m) >= 1.0
  {
    if n >= 0 {
      NatPowMonotone(b, n, m);
    } else if m < 0 {
      NatPowMonotone(b, -m, -n);
      ReciprocalAntitone(NatPow(b, -m), NatPow(b, -n));
      ReciprocalAntitone(1.0, NatPow(b, -n));
    } else {
      NatPowMonotone(b, 0, -n);
      NatPowMonotone(b, 0, m);
      ReciprocalAntitone(1.0, NatPow(b, -n));
    }
  }



  /** `np.pmt(rate, nper, pv)` with no future value and payments at period
      end: the level payment, as a signed cash flow, that retires `pv`. */
  function Pmt(rate: real, nper: int, pv: real): real
    requires rate > 0.0
    requires nper >= 1
  {
    NatPowAboveOne(1.0 + rate, nper);
    -(pv * Pow(1.0 + rate, nper) * rate) / (Pow(1.0 + rate, nper) - 1.0)
  }

  /** `np.fv(rate, nper, pmt, pv)` with payments at period end: the balance
      left after `nper` payments of `pmt`, sign convention of cash flows. */
  function Fv(rate: real, nper: int, pmt: real, pv: real): real
    requires rate > 0.0
  {
    -(pv * Pow(1.0 + rate, nper) + pmt * (Pow(1.0 + rate, nper) - 1.0) / rate)
  }

  /** The installment `-Pmt(rate, tenure, principal)` of a loan. */
  function Emi(rate: real, tenure: int, principal: real): real
    requires rate > 0.0
    requires tenure >= 1
  {
    -Pmt(rate, tenure, principal)
  }

  /** The remaining balance of a loan of `principal` after `n` installments
      of the EMI for `tenure` periods, as `np.fv` computes it. */
  function Remaining(rate: real, tenure: int, principal: real, n: int): real
    requires rate > 0.0
    requires tenure >= 1
  {
    Fv(rate, n, Emi(rate, tenure, principal), -principal)
  }

  /** A loan of positive principal has a positive installment, and the
      installment is at least the per-period interest on the principal. */
  lemma EmiPositive(rate: real, tenure: int, principal: real)
    requires rate > 0.0
    requires tenure >= 1
    requires principal > 0.0
    ensures Emi(rate, tenure, principal) > principal * rate
  {
    EmiFormula(rate, tenure, principal);
    InstallmentAboveInterest(principal * rate, Pow(1.0 + rate, tenure), Emi(rate, tenure, principal));
  }

  lemma InstallmentAboveInterest(i: real, g: real, e: real)
    requires i > 0.0
    requires g > 1.0
    requires e * (g - 1.0) == i * g
    ensures e > i
  {
    assert (e - i) * (g - 1.0) == i;
    SignOfFactor(e - i, g - 1.0);
    assert e != i;
  }

  /** The remaining balance in closed form, without division:
      balance * (g^tenure - 1) == principal * (g^tenure - g^n), g = 1 + rate. */
  lemma RemainingClosedForm(rate: real, tenure: int, principal: real, n: int)
    requires rate > 0.0
    requires tenure >= 1
    ensures Pow(1.0 + rate, tenure) > 1.0
    ensures Remaining(rate, tenure, principal, n) * (Pow(1.0 + rate, tenure) - 1.0) ==
      principal * (Pow(1.0 + rate, tenure) - Pow(1.0 + rate, n))
  {
    EmiFormula(rate, tenure, principal);
    FvOfLoan(rate, n, Emi(rate, tenure, principal), principal);
    ClosedFormOfRemaining(rate, tenure, principal, n);
  }

  /** Paying the EMI for the whole tenure retires the loan exactly. */
  lemma RetiredAtTerm(rate: real, tenure: int, principal: real)
    requires rate > 0.0
    requires tenure >= 1
    ensures Remaining(rate, tenure, principal, tenure) == 0.0
  {
    RemainingClosedForm(rate, tenure, principal, tenure);
    ZeroProduct(Remaining(rate, tenure, principal, tenure), Pow(1.0 + rate, tenure) - 1.0);
  }

  /** For a positive principal the remaining balance never grows with the
      number of installments. */
  lemma RemainingAntitone(rate: real, tenure: int, principal: real, n: int, m: int)
    requires rate > 0.0
    requires tenure >= 1
    requires principal > 0.0
    requires n <= m
    ensures Remaining(rate, tenure, principal, n) >= Remaining(rate, tenure, principal, m)
  {
    RemainingClosedForm(rate, tenure, principal, n);
    RemainingClosedForm(rate, tenure, principal, m);
    PowMonotone(1.0 + rate, n, m);
    AntitoneFromClosedForm(rate, tenure, principal, n, m);
  }

  /** Over the tenure the remaining balance lies between zero and the
      principal; before the first installment it is at least the principal. */
  lemma RemainingBounds(rate: real, tenure: int, principal: real, n: int)
    requires rate > 0.0
    requires tenure >= 1
    requires principal > 0.0
    ensures 0 <= n <= tenure ==> 0.0 <= Remaining(rate, tenure, principal, n) <= principal
    ensures n <= 0 ==> Remaining(rate, tenure, principal, n) >= principal
  {
    assert Remaining(rate, tenure, principal, n) * (Pow(1.0 + rate, tenure) - 1.0) ==
      principal * (Pow(1.0 + rate, tenure) - Pow(1.0 + rate, n)) && Pow(1.0 + rate, tenure) > 1.0 by {
      RemainingClosedForm(rate, tenure, principal, n);
    }
    assert 0 <= n <= tenure ==> 1.0 <= Pow(1.0 + rate, n) <= Pow(1.0 + rate, tenure) by {
      if 0 <= n <= tenure {
        PowMonotone(1.0 + rate, n, tenure);
        PowMonotone(1.0 + rate, 0, n);
      }
    }
    assert n <= 0 ==> Pow(1.0 + rate, n) <= 1.0 by {
      if n <= 0 {
        PowMonotone(1.0 + rate, n, 0);
      }
    }
    ClosedFormBounds(principal, Pow(1.0 + rate, tenure), Pow(1.0 + rate, n), Pow(1.0 + rate, n),
      Remaining(rate, tenure, principal, n), Remaining(rate, tenure, principal, n));
  }

  /** The balance computed installment by installment: each period adds
      interest at `rate` and subtracts the payment. */
  function Schedule(rate: real, n: nat, emi: real, principal: real): real
    decreases n
  {
    if n == 0 then principal else Schedule(rate, n - 1, emi, principal) * (1.0 + rate) - emi
  }

  /** The schedule in closed form, without division. */
  lemma {:induction false} ScheduleClosedForm(rate: real, n: nat, emi: real, principal: real)
    requires rate > 0.0
    ensures Schedule(rate, n, emi, principal) * rate ==
      principal * NatPow(1.0 + rate, n) * rate - emi * (NatPow(1.0 + rate, n) - 1.0)
    decreases n
  {
    if n > 0 {
      ScheduleClosedForm(rate, n - 1, emi, principal);
      ScheduleStep(rate, n, emi, principal);
    }
  }

  /** One installment keeps the closed form of the schedule. */
  lemma ScheduleStep(rate: real, n: nat, emi: real, principal: real)
    requires rate > 0.0
    requires n > 0
    requires Schedule(rate, n - 1, emi, principal) * rate ==
      principal * NatPow(1.0 + rate, n - 1) * rate - emi * (NatPow(1.0 + rate, n - 1) - 1.0)
    ensures Schedule(rate, n, emi, principal) * rate ==
      principal * NatPow(1.0 + rate, n) * rate - emi * (NatPow(1.0 + rate, n) - 1.0)
  {
    var h, bh := NatPow(1.0 + rate, n - 1), NatPow(1.0 + rate, n);
    var s, s' := Schedule(rate, n - 1, emi, principal), Schedule(rate, n, emi, principal);
    assert bh == (1.0 + rate) * h;
    assert s' == s * (1.0 + rate) - emi;
    StepAlgebra(principal, emi, rate, h, bh, s, s');
  }

  /** `np.fv`'s closed form agrees with the step-by-step schedule for every
      payment amount and every non-negative number of installments. */
  lemma ScheduleMatchesFv(rate: real, n: nat, emi: real, principal: real)
    requires rate > 0.0
    ensures Schedule(rate, n, emi, principal) == Fv(rate, n, emi, -principal)
  {
    ScheduleClosedForm(rate, n, emi, principal);
    FvOfLoan(rate, n, emi, principal);
    CancelFactor(Schedule(rate, n, emi, principal), Fv(rate, n, emi, -principal), rate);
  }

  /** The installment-by-installment schedule reaches zero at the tenure. */
  lemma ScheduleRetiresLoan(rate: real, tenure: nat, principal: real)
    requires rate > 0.0
    requires tenure >= 1
    ensures Schedule(rate, tenure, Emi(rate, tenure, principal), principal) == 0.0
  {
    ScheduleMatchesFv(rate, tenure, Emi(rate, tenure, principal), principal);
    RetiredAtTerm(rate, tenure, principal);
  }

  // Real-arithmetic steps, stated without division so that instantiating
  // them with function values stays cheap for the solver.

  lemma PmtFormula(rate: real, nper: int, pv: real)
    requires rate > 0.0
    requires nper >= 1
    ensures Pow(1.0 + rate, nper) > 1.0
    ensures Pmt(rate, nper, pv) * (Pow(1.0 + rate, nper) - 1.0) == -(pv * Pow(1.0 + rate, nper) * rate)
  {
    NatPowAboveOne(1.0 + rate, nper);
  }

  lemma EmiFormula(rate: real, tenure: int, principal: real)
    requires rate > 0.0
    requires tenure >= 1
    ensures Pow(1.0 + rate, tenure) > 1.0
    ensures Emi(rate, tenure, principal) * (Pow(1.0 + rate, tenure) - 1.0) ==
      principal * Pow(1.0 + rate, tenure) * rate
  {
    PmtFormula(rate, tenure, principal);
  }

  lemma FvOfLoan(rate: real, n: int, pmt: real, principal: real)
    requires rate > 0.0
    ensures Fv(rate, n, pmt, -principal) * rate ==
      principal * Pow(1.0 + rate, n) * rate - pmt * (Pow(1.0 + rate, n) - 1.0)
  {
  }

  lemma ClosedFormOfRemaining(rate: real, tenure: int, principal: real, n: int)
    requires rate > 0.0
    requires tenure >= 1
    requires Pow(1.0 + rate, tenure) > 1.0
    requires Emi(rate, tenure, principal) * (Pow(1.0 + rate, tenure) - 1.0) ==
      principal * Pow(1.0 + rate, tenure) * rate
    requires Remaining(rate, tenure, principal, n) * rate ==
      principal * Pow(1.0 + rate, n) * rate - Emi(rate, tenure, principal) * (Pow(1.0 + rate, n) - 1.0)
    ensures Remaining(rate, tenure, principal, n) * (Pow(1.0 + rate, tenure) - 1.0) ==
      principal * (Pow(1.0 + rate, tenure) - Pow(1.0 + rate, n))
  {
    ClosedFormAlgebra(principal, Pow(1.0 + rate, tenure), Pow(1.0 + rate, n), rate,
      Emi(rate, tenure, principal), Remaining(rate, tenure, principal, n));
  }

  lemma AntitoneFromClosedForm(rate: real, tenure: int, principal: real, n: int, m: int)
    requires rate > 0.0
    requires tenure >= 1
    requires principal > 0.0
    requires Pow(1.0 + rate, tenure) > 1.0
    requires Pow(1.0 + rate, n) <= Pow(1.0 + rate, m)
    requires Remaining(rate, tenure, principal, n) * (Pow(1.0 + rate, tenure) - 1.0) ==
      principal * (Pow(1.0 + rate, tenure) - Pow(1.0 + rate, n))
    requires Remaining(rate, tenure, principal, m) * (Pow(1.0 + rate, tenure) - 1.0) ==
      principal * (Pow(1.0 + rate, tenure) - Pow(1.0 + rate, m))
    ensures Remaining(rate, tenure, principal, n) >= Remaining(rate, tenure, principal, m)
  {
    ClosedFormAntitone(principal, Pow(1.0 + rate, tenure), Pow(1.0 + rate, n), Pow(1.0 + rate, m),
      Remaining(rate, tenure, principal, n), Remaining(rate, tenure, principal, m));
  }

  lemma ClosedFormAntitone(p: real, g: real, x: real, y: real, fx: real, fy: real)
    requires p > 0.0
    requires g > 1.0
    requires x <= y
    requires fx * (g - 1.0) == p * (g - x)
    requires fy * (g - 1.0) == p * (g - y)
    ensures fx >= fy
  {
    ClosedFormBounds(p, g, x, y, fx, fy);
  }

  lemma MulAtLeast(b: real, p: real)
    requires b >= 1.0
    requires p >= 0.0
    ensures b * p >= p
  {
    assert b * p - p == (b - 1.0) * p;
  }

  lemma ReciprocalAntitone(x: real, y: real)
    requires 0.0 < x <= y
    ensures 1.0 / y <= 1.0 / x
  {
    assert 1.0 / x - 1.0 / y == (y - x) / (x * y);
  }


  lemma ZeroProduct(x: real, d: real)
    requires d != 0.0
    requires x * d == 0.0
    ensures x == 0.0
  {
  }

  lemma CancelFactor(x: real, y: real, d: real)
    requires d > 0.0
    requires x * d == y * d
    ensures x == y
  {
    assert (x - y) * d == 0.0;
  }

  /** From e * (g - 1) == p * g * r and f * r == p * h * r - e * (h - 1):
      f * (g - 1) == p * (g - h). */
  lemma ClosedFormAlgebra(p: real, g: real, h: real, r: real, e: real, f: real)
    requires g > 1.0
    requires r > 0.0
    requires e * (g - 1.0) == p * g * r
    requires f * r == p * h * r - e * (h - 1.0)
    ensures f * (g - 1.0) == p * (g - h)
  {
    assert f * r * (g - 1.0) == p * h * r * (g - 1.0) - e * (g - 1.0) * (h - 1.0);
    assert e * (g - 1.0) * (h - 1.0) == p * g * r * (h - 1.0);
    assert p * h * r * (g - 1.0) - p * g * r * (h - 1.0) == p * (g - h) * r;
    CancelFactor(f * (g - 1.0), p * (g - h), r);
  }

  lemma SignOfFactor(a: real, d: real)
    requires d > 0.0
    ensures a * d >= 0.0 ==> a >= 0.0
    ensures a * d <= 0.0 ==> a <= 0.0
  {
  }

  /** Bounds of a value f with f * (g - 1) == p * (g - x), as x varies. */
  lemma ClosedFormBounds(p: real, g: real, x: real, y: real, fx: real, fy: real)
    requires p > 0.0
    requires g > 1.0
    requires x <= y
    requires fx * (g - 1.0) == p * (g - x)
    requires fy * (g - 1.0) == p * (g - y)
    ensures fx >= fy
    ensures x <= g ==> fx >= 0.0
    ensures x >= 1.0 ==> fx <= p
    ensures x <= 1.0 ==> fx >= p
  {
    assert (fx - fy) * (g - 1.0) == p * (y - x);
    ProductSign(p, y - x);
    SignOfFactor(fx - fy, g - 1.0);
    ProductSign(p, g - x);
    SignOfFactor(fx, g - 1.0);
    assert (fx - p) * (g - 1.0) == p * (1.0 - x);
    ProductSign(p, 1.0 - x);
    SignOfFactor(fx - p, g - 1.0);
  }

  /** A product with a non-negative factor has the sign of the other. */
  lemma ProductSign(p: real, q: real)
    requires p >= 0.0
    ensures q <= 0.0 ==> p * q <= 0.0
    ensures q >= 0.0 ==> p * q >= 0.0
  {
  }

  /** One installment of the schedule keeps the closed form: from
      s * r == p * h * r - e * (h - 1), the next balance s' = s * (1 + r) - e
      satisfies it at bh = (1 + r) * h. */
  lemma StepAlgebra(p: real, e: real, r: real, h: real, bh: real, s: real, s': real)
    requires bh == (1.0 + r) * h
    requires s * r == p * h * r - e * (h - 1.0)
    requires s' == s * (1.0 + r) - e
    ensures s' * r == p * bh * r - e * (bh - 1.0)
  {
    assert s' * r == (1.0 + r) * (s * r) - e * r;
    assert s' * r == (1.0 + r) * (p * h * r - e * (h - 1.0)) - e * r;
  }
}
