/** `parse_account`: read the fields of one raw account, select the
    trustworthy balance observations and fit them with `calc_emi`. */
module Accounts {
  import opened Results
  import opened Seqs
  import opened Periods
  import opened Grid
  import opened Amortization
  import opened Estimator

  /** The two-digit suffix of a `BALANCE_AM_NN` or `DAYS_PAST_DUE_NN` key. */
  type PeriodIndex = i: int | 0 <= i < 100

  /** A field value: `None` stands for a value `pd.isna` reports missing. */
  type Reading = Option<real>

  /** One key of a period-indexed family and its value. */
  type Field = (PeriodIndex, Reading)

  /** A balance field zipped with a delinquency field. */
  type FieldPair = (Field, Field)

  /** An account record. A scalar field is `None` when its key is absent or
      its value cannot be read (`strptime` or `int()` raising); the account
      number is held as the text `str()` gives it, so a null number is
      `Some("None")`; dates hold
      the year, month and day written in the "%Y/%m/%d" text, which
      `strptime` rejects unless they form a calendar date. The two
      period-indexed families are keyed by their two-digit suffix. */
  datatype RawAccount = RawAccount(
    accountNb: Option<string>,
    acctTypeCd: Option<string>,
    openDt: Option<Date>,
    balanceDt: Option<Date>,
    origLoanAm: Option<real>,
    balanceAm: map<PeriodIndex, Reading>,
    daysPastDue: map<PeriodIndex, Reading>)

  /** The output record: rate in percent, tenure in periods, installment
      truncated to an integer. */
  datatype ParsedAccount = ParsedAccount(accountId: string, rate: real, tenure: int, emi: int)

  /** The keys of `VALID_ACCOUNT_TYPES`: personal loan and auto loan. */
  const ValidAccountTypes: set<string> := {"1", "2"}

  /** Python's `int()` on a number: truncation toward zero. */
  function Trunc(x: real): (r: int)
    ensures x >= 0.0 ==> r >= 0 && r as real <= x < r as real + 1.0
    ensures x < 0.0 ==> r <= 0 && r as real - 1.0 < x <= r as real
  {
    if x >= 0.0 then x.Floor else -((-x).Floor)
  }

  /** The fields of `m` with suffix at least `i`, in ascending suffix order:
      `sorted()` of the matching keys, since the suffixes are zero-padded to
      two digits. */
  function FieldsFrom(m: map<PeriodIndex, Reading>, i: int): seq<Field>
    requires 0 <= i <= 100
    decreases 100 - i
  {
    if i == 100 then []
    else
      var p: PeriodIndex := i;
      if p in m then [(p, m[p])] + FieldsFrom(m, i + 1) else FieldsFrom(m, i + 1)
  }

  /** `FieldsFrom` lists the fields of suffix at least `i`, each with its
      value, strictly ascending, and misses none. */
  lemma {:induction false} FieldsFromSpec(m: map<PeriodIndex, Reading>, i: int)
    requires 0 <= i <= 100
    ensures forall k :: 0 <= k < |FieldsFrom(m, i)| ==>
      i <= FieldsFrom(m, i)[k].0 && FieldsFrom(m, i)[k].0 in m && m[FieldsFrom(m, i)[k].0] == FieldsFrom(m, i)[k].1
    ensures forall k, l :: 0 <= k < l < |FieldsFrom(m, i)| ==> FieldsFrom(m, i)[k].0 < FieldsFrom(m, i)[l].0
    ensures forall p: PeriodIndex :: i <= p && p in m ==> (p, m[p]) in FieldsFrom(m, i)
    decreases 100 - i
  {
    if i < 100 {
      FieldsFromSpec(m, i + 1);
      var p: PeriodIndex := i;
      var rest := FieldsFrom(m, i + 1);
      if p in m {
        assert FieldsFrom(m, i) == [(p, m[p])] + rest;
      } else {
        assert FieldsFrom(m, i) == rest;
      }
    }
  }

  /** All fields of a family, sorted by key. */
  function SortedFields(m: map<PeriodIndex, Reading>): seq<Field> {
    FieldsFrom(m, 0)
  }

  /** The sorted listing holds each field of the family once, with its value,
      in ascending suffix order. */
  lemma SortedFieldsSpec(m: map<PeriodIndex, Reading>)
    ensures forall k :: 0 <= k < |SortedFields(m)| ==>
      SortedFields(m)[k].0 in m && m[SortedFields(m)[k].0] == SortedFields(m)[k].1
    ensures forall k, l :: 0 <= k < l < |SortedFields(m)| ==> SortedFields(m)[k].0 < SortedFields(m)[l].0
    ensures forall p :: p in m ==> (p, m[p]) in SortedFields(m)
  {
    FieldsFromSpec(m, 0);
  }

  /** The key order of a sorted listing depends on the key set alone. */
  lemma {:induction false} FieldsFromSameKeys(m1: map<PeriodIndex, Reading>, m2: map<PeriodIndex, Reading>, i: int)
    requires 0 <= i <= 100
    requires m1.Keys == m2.Keys
    ensures |FieldsFrom(m1, i)| == |FieldsFrom(m2, i)|
    ensures forall k :: 0 <= k < |FieldsFrom(m1, i)| ==> FieldsFrom(m1, i)[k].0 == FieldsFrom(m2, i)[k].0
    decreases 100 - i
  {
    if i < 100 {
      FieldsFromSameKeys(m1, m2, i + 1);
      var p: PeriodIndex := i;
      var r1, r2 := FieldsFrom(m1, i + 1), FieldsFrom(m2, i + 1);
      if p in m1 {
        assert FieldsFrom(m1, i) == [(p, m1[p])] + r1;
        assert FieldsFrom(m2, i) == [(p, m2[p])] + r2;
      } else {
        assert FieldsFrom(m1, i) == r1;
        assert FieldsFrom(m2, i) == r2;
      }
    }
  }

  /** The selection rule of the `zip` loop for one zipped pair: the
      delinquency reading is present and zero, the balance is present and
      strictly between zero and the amount. */
  predicate Qualifies(amount: int, pair: FieldPair) {
    pair.1.1 == Some(0.0) && pair.0.1.Some? && 0.0 < pair.0.1.value < amount as real
  }

  /** One step of the `zip` loop: a qualifying pair becomes an observation
      whose period counts back from `total` by the balance key's suffix. */
  function Observe(amount: int, total: int, pair: FieldPair): (o: Option<Observation>)
    ensures o.Some? <==> Qualifies(amount, pair)
    ensures o.Some? ==> o.value == Observation(pair.0.1.value, total - pair.0.0 + 1)
  {
    var (b, d) := pair;
    if d.1.Some? && d.1.value == 0.0 then
      (if b.1.Some? && b.1.value > 0.0 && b.1.value < amount as real
       then Some(Observation(b.1.value, total - b.0 + 1))
       else None)
    else None
  }

  /** The balance and delinquency fields paired as `zip(bal_keys, dpd_keys)`
      pairs them: by position in their separate sorted orders. */
  function ZippedFields(a: RawAccount): seq<FieldPair> {
    Zip(SortedFields(a.balanceAm), SortedFields(a.daysPastDue))
  }

  function Selector(amount: int, total: int): FieldPair -> Option<Observation> {
    pair => Observe(amount, total, pair)
  }

  /** `bal_array`: the observations selected from the zipped fields, in order. */
  function Observations(a: RawAccount, amount: int, total: int): seq<Observation> {
    FilterMap(ZippedFields(a), Selector(amount, total))
  }

  /** Every selected balance lies strictly between zero and the amount, and
      every period is at least `total - 98`, the two-digit suffix being at
      most 99. */
  lemma ObservationsBounded(a: RawAccount, amount: int, total: int)
    ensures BalancesBelowAmount(amount, Observations(a, amount, total))
    ensures forall k :: 0 <= k < |Observations(a, amount, total)| ==>
      total - 98 <= Observations(a, amount, total)[k].period <= total + 1
  {
    var zipped := ZippedFields(a);
    var f := Selector(amount, total);
    var obs := Observations(a, amount, total);
    FilterMapByIndices(zipped, f);
    var ks := KeptIndices(zipped, f);
    forall k | 0 <= k < |obs|
      ensures 0.0 < obs[k].balance < amount as real
      ensures total - 98 <= obs[k].period <= total + 1
    {
      assert f(zipped[ks[k]]) == Some(obs[k]);
    }
  }

  /** When both families carry the same suffixes, positional pairing matches
      each balance with the delinquency reading of the same period. */
  lemma AlignedPairing(a: RawAccount)
    requires a.balanceAm.Keys == a.daysPastDue.Keys
    ensures |ZippedFields(a)| == |a.balanceAm.Keys|
    ensures forall i :: 0 <= i < |ZippedFields(a)| ==> ZippedFields(a)[i].0.0 == ZippedFields(a)[i].1.0
  {
    var bs, ds := SortedFields(a.balanceAm), SortedFields(a.daysPastDue);
    FieldsFromSameKeys(a.balanceAm, a.daysPastDue, 0);
    FieldCount(a.balanceAm);
    var z := ZippedFields(a);
    assert |z| == |bs|;
    forall i | 0 <= i < |z|
      ensures z[i].0.0 == z[i].1.0
    {
      assert z[i] == (bs[i], ds[i]);
    }
  }

  /** A sorted listing holds each key once: `|m|` fields. */
  lemma FieldCount(m: map<PeriodIndex, Reading>)
    ensures |SortedFields(m)| == |m.Keys|
  {
    var r := SortedFields(m);
    SortedFieldsSpec(m);
    var keys := set k | 0 <= k < |r| :: r[k].0;
    assert keys == m.Keys by {
      forall p | p in m ensures p in keys {
        var k :| 0 <= k < |r| && r[k] == (p, m[p]);
      }
    }
    DistinctImageSize(r);
  }

  lemma {:induction false} DistinctImageSize(r: seq<Field>)
    requires forall k, l :: 0 <= k < l < |r| ==> r[k].0 < r[l].0
    ensures |set k | 0 <= k < |r| :: r[k].0| == |r|
  {
    if r != [] {
      var n := |r| - 1;
      DistinctImageSize(r[..n]);
      var init := set k | 0 <= k < n :: r[..n][k].0;
      assert (set k | 0 <= k < |r| :: r[k].0) == init + {r[n].0};
      assert r[n].0 !in init;
    }
  }

  /** The observations are, in zip order, one per qualifying pair and no
      other: the k-th comes from the k-th qualifying pair, with that pair's
      balance and the period its balance key gives. */
  lemma ObservationsSelect(a: RawAccount, amount: int, total: int)
    ensures var z, ks := ZippedFields(a), KeptIndices(ZippedFields(a), Selector(amount, total));
      && |Observations(a, amount, total)| == |ks|
      && (forall k :: 0 <= k < |ks| ==>
            Qualifies(amount, z[ks[k]]) &&
            Observations(a, amount, total)[k] == Observation(z[ks[k]].0.1.value, total - z[ks[k]].0.0 + 1))
      && (forall i :: 0 <= i < |z| && Qualifies(amount, z[i]) ==> i in ks)
  {
    SelectFromPairs(ZippedFields(a), amount, total);
  }

  lemma SelectFromPairs(z: seq<FieldPair>, amount: int, total: int)
    ensures var obs, ks := FilterMap(z, Selector(amount, total)), KeptIndices(z, Selector(amount, total));
      && |obs| == |ks|
      && (forall k :: 0 <= k < |ks| ==>
            Qualifies(amount, z[ks[k]]) && obs[k] == Observation(z[ks[k]].0.1.value, total - z[ks[k]].0.0 + 1))
      && (forall i :: 0 <= i < |z| && Qualifies(amount, z[i]) ==> i in ks)
  {
    var f := Selector(amount, total);
    var obs := FilterMap(z, f);
    FilterMapByIndices(z, f);
    var ks := KeptIndices(z, f);
    forall k | 0 <= k < |ks|
      ensures Qualifies(amount, z[ks[k]])
      ensures obs[k] == Observation(z[ks[k]].0.1.value, total - z[ks[k]].0.0 + 1)
    {
      assert Observe(amount, total, z[ks[k]]) == Some(obs[k]);
    }
    forall i | 0 <= i < |z| && Qualifies(amount, z[i])
      ensures i in ks
    {
      assert f(z[i]).Some?;
    }
  }

  /** The fields read inside the `try` block, `int()` applied to the amount. */
  datatype Header = Header(accountId: string, accountType: string, openDate: Date, balanceDate: Date, amount: int)

  /** The `try` block: any missing key, unparsable date or unconvertible
      amount yields no header; otherwise the header holds the record's own
      fields, the amount truncated by `int()`. */
  function ReadHeader(a: RawAccount): (h: Option<Header>)
    ensures h.None? <==>
      a.accountNb.None? || a.acctTypeCd.None? || a.openDt.None? || a.balanceDt.None? || a.origLoanAm.None? ||
      !ValidDate(a.openDt.value) || !ValidDate(a.balanceDt.value)
    ensures h.Some? ==> ValidDate(h.value.openDate) && ValidDate(h.value.balanceDate)
    ensures h.Some? ==> a.accountNb == Some(h.value.accountId) && a.acctTypeCd == Some(h.value.accountType)
    ensures h.Some? ==> a.openDt == Some(h.value.openDate) && a.balanceDt == Some(h.value.balanceDate)
    ensures h.Some? ==> a.origLoanAm.Some? && h.value.amount == Trunc(a.origLoanAm.value)
  {
    match (a.accountNb, a.acctTypeCd, a.openDt, a.balanceDt, a.origLoanAm)
    case (Some(id), Some(ty), Some(od), Some(bd), Some(am)) =>
      if ValidDate(od) && ValidDate(bd) then Some(Header(id, ty, od, bd, Trunc(am))) else None
    case _ => None
  }

  /** The observations `parse_account` hands to `calc_emi`; empty when the
      account stops earlier. */
  function Selected(a: RawAccount): seq<Observation> {
    match ReadHeader(a)
    case None => []
    case Some(h) =>
      if h.accountType !in ValidAccountTypes then []
      else Observations(a, h.amount, GetNper(h.openDate, h.balanceDate))
  }

  /** `parse_account`. An unreadable header, an unsupported type and an
      empty selection all leave `Selected` empty, which is the `return None`
      (`Success(None)`); a failure of `calc_emi` escapes, since it is raised
      outside the `try`. */
  function ParseAccount(a: RawAccount): (r: Result<Option<ParsedAccount>>)
    ensures r.Success? && r.value.Some? ==> a.accountNb == Some(r.value.value.accountId)
    ensures r.Success? && r.value.Some? ==> a.acctTypeCd.Some? && a.acctTypeCd.value in ValidAccountTypes
    ensures r.Success? && r.value.Some? ==> 10.0 <= r.value.value.rate < 40.0 && 1 <= r.value.value.tenure <= 59
    ensures r.Success? && r.value.Some? ==> r.value.value.emi >= 0
  {
    var obs := Selected(a);
    if |obs| == 0 then Success(None)
    else
      var h := ReadHeader(a).value;
      match CalcEmi(h.amount, obs)
      case Failure(e) => Failure(e)
      case Success(fit) =>
        assert h.amount > 0 by {
          ObservationsBounded(a, h.amount, GetNper(h.openDate, h.balanceDate));
          assert 0.0 < obs[0].balance < h.amount as real;
        }
        InstallmentPositive(h.amount, fit.candidate);
        Success(Some(ParsedAccount(h.accountId, RatePercent(fit.candidate), fit.candidate.tenure,
          Trunc(fit.emi))))
  }

  /** The three outcomes of `parse_account`: no result when nothing is
      selected, a failure exactly when some selected period exceeds the
      longest tenure of the grid, a parsed account otherwise. */
  lemma ParseAccountOutcome(a: RawAccount)
    ensures |Selected(a)| == 0 ==> ParseAccount(a) == Success(None)
    ensures ParseAccount(a).Failure? <==> |Selected(a)| > 0 && Beyond(Selected(a), 59)
    ensures ParseAccount(a).Success? && ParseAccount(a).value.Some? <==>
      |Selected(a)| > 0 && !Beyond(Selected(a), 59)
  {
    if ReadHeader(a).Some? {
      var h := ReadHeader(a).value;
      var total := GetNper(h.openDate, h.balanceDate);
      ObservationsBounded(a, h.amount, total);
      if h.accountType in ValidAccountTypes && |Selected(a)| > 0 {
        CrashIffPeriodBeyondGrid(h.amount, Selected(a));
      }
    }
  }

  /** A parsed account's tenure covers every selected observation. */
  lemma ParsedTenureCovers(a: RawAccount, p: ParsedAccount)
    requires ParseAccount(a) == Success(Some(p))
    ensures |Selected(a)| > 0
    ensures !Beyond(Selected(a), p.tenure)
  {
  }

  /** A parsed account reports the best-fitting candidate of the selected
      observations: its rate in percent, its tenure and its installment
      truncated toward zero. */
  lemma ParseAccountFit(a: RawAccount, p: ParsedAccount)
    requires ParseAccount(a) == Success(Some(p))
    ensures |Selected(a)| > 0
    ensures var c := Candidate((2.0 * p.rate).Floor, p.tenure);
      && BestFit(ReadHeader(a).value.amount, Selected(a), c)
      && p.rate == RatePercent(c)
      && p.emi == Trunc(Emi(PeriodRate(c), c.tenure, ReadHeader(a).value.amount as real))
  {
    var h := ReadHeader(a).value;
    var obs := Selected(a);
    var fit := CalcEmi(h.amount, obs).value;
    CalcEmiSelectsBestFit(h.amount, obs, fit);
    assert (2.0 * p.rate).Floor == fit.candidate.halfPercent;
  }

  /** The installment of a parsed account is at least one period's
      interest on the amount, `amount * rate / 1200`, truncated. */
  lemma ParsedEmiCoversInterest(a: RawAccount, p: ParsedAccount)
    requires ParseAccount(a) == Success(Some(p))
    ensures ReadHeader(a).Some?
    ensures p.emi >= Trunc(Interest(ReadHeader(a).value.amount, p.rate))
  {
    var h := ReadHeader(a).value;
    ParseAccountFit(a, p);
    ParsedAmountPositive(a, p);
    FitCoversInterest(h.amount, Candidate((2.0 * p.rate).Floor, p.tenure), p.rate, p.emi);
  }

  /** A loan of at least 120 reports a positive installment: the interest
      alone is at least 1 at the lowest rate of the grid. */
  lemma ParsedEmiPositive(a: RawAccount, p: ParsedAccount)
    requires ParseAccount(a) == Success(Some(p))
    requires ReadHeader(a).Some? && ReadHeader(a).value.amount >= 120
    ensures p.emi > 0
  {
    var amount := ReadHeader(a).value.amount;
    assert 10.0 <= p.rate;
    ParsedEmiCoversInterest(a, p);
    InterestAtLeastOne(amount, p.rate);
  }

  lemma InterestAtLeastOne(amount: int, ratePercent: real)
    requires amount >= 120
    requires ratePercent >= 10.0
    ensures Trunc(Interest(amount, ratePercent)) >= 1
  {
    assert amount as real * ratePercent >= 120.0 * ratePercent;
  }

  /** Only an account of positive amount selects a balance. */
  lemma ParsedAmountPositive(a: RawAccount, p: ParsedAccount)
    requires ParseAccount(a) == Success(Some(p))
    ensures ReadHeader(a).Some? && ReadHeader(a).value.amount > 0
  {
    var h := ReadHeader(a).value;
    var obs := Selected(a);
    ObservationsBounded(a, h.amount, GetNper(h.openDate, h.balanceDate));
    assert 0.0 < obs[0].balance < h.amount as real;
  }

  /** One period's interest on `amount` at `ratePercent` percent a year. */
  function Interest(amount: int, ratePercent: real): real {
    amount as real * ratePercent / 1200.0
  }

  lemma FitCoversInterest(amount: int, c: Candidate, rate: real, emi: int)
    requires InRange(c)
    requires amount > 0
    requires rate == RatePercent(c)
    requires emi == Trunc(Emi(PeriodRate(c), c.tenure, amount as real))
    ensures emi >= Trunc(Interest(amount, rate))
  {
    var e := Emi(PeriodRate(c), c.tenure, amount as real);
    EmiPositive(PeriodRate(c), c.tenure, amount as real);
    InterestAtRate(amount, c, rate);
    assert Interest(amount, rate) < e;
    TruncMonotone(Interest(amount, rate), e);
  }

  /** The interest of a grid candidate's rate, `amount * r / 1200`, is the
      principal times the per-period rate, and is not negative. */
  lemma InterestAtRate(amount: int, c: Candidate, rate: real)
    requires InRange(c)
    requires amount > 0
    requires rate == RatePercent(c)
    ensures amount as real * PeriodRate(c) == Interest(amount, rate)
    ensures Interest(amount, rate) >= 0.0
  {
    assert PeriodRate(c) == rate / 1200.0;
    ProductSign(amount as real, rate);
  }

  lemma TruncMonotone(x: real, y: real)
    requires 0.0 <= x <= y
    ensures Trunc(x) <= Trunc(y)
  {
  }

  /** A family with a single field lists that field alone. */
  lemma SingleField(p: PeriodIndex, v: Reading)
    ensures SortedFields(map[p := v]) == [(p, v)]
  {
    var m := map[p := v];
    var r := SortedFields(m);
    SortedFieldsSpec(m);
    FieldCount(m);
    assert m.Keys == {p};
    assert p in m && m[p] == v;
    assert (p, v) in r;
  }

  /** The account of the examples: opened 2019/01/01 with a loan of 10000,
      reporting on 2021/01/01 with the given balance and delinquency
      families. */
  predicate ExampleOf(a: RawAccount, ty: string, bal: map<PeriodIndex, Reading>, dpd: map<PeriodIndex, Reading>) {
    a == RawAccount(Some("A1"), Some(ty), Some(Date(2019, 1, 1)), Some(Date(2021, 1, 1)), Some(10000.0), bal, dpd)
  }

  lemma ExampleHeader(a: RawAccount, ty: string, bal: map<PeriodIndex, Reading>, dpd: map<PeriodIndex, Reading>)
    requires ExampleOf(a, ty, bal, dpd)
    ensures ReadHeader(a) == Some(Header("A1", ty, Date(2019, 1, 1), Date(2021, 1, 1), 10000))
    ensures GetNper(Date(2019, 1, 1), Date(2021, 1, 1)) == 23
  {
    assert Trunc(10000.0) == 10000;
  }

  /** A balance `b` strictly below the amount, reported one period back
      with no days past due: 23 periods are paid and the single observation
      is (b, 23). */
  lemma ExampleSelection(a: RawAccount, b: real)
    requires 0.0 < b < 10000.0
    requires ExampleOf(a, "1", map[1 := Some(b)], map[1 := Some(0.0)])
    ensures Selected(a) == [Observation(b, 23)]
  {
    ExampleHeader(a, "1", map[1 := Some(b)], map[1 := Some(0.0)]);
    SingleField(1, Some(b));
    SingleField(1, Some(0.0));
    var z := ZippedFields(a);
    assert z == [((1, Some(b)), (1, Some(0.0)))];
    assert Observe(10000, 23, z[0]) == Some(Observation(b, 23));
    FilterMapSingle(z, Selector(10000, 23));
  }

  lemma FilterMapSingle<A, B>(xs: seq<A>, f: A -> Option<B>)
    requires |xs| == 1 && f(xs[0]).Some?
    ensures FilterMap(xs, f) == [f(xs[0]).value]
  {
    assert xs[..0] == [];
  }

  /** That account parses, whatever the balance, to a contract of at least
      23 periods with a positive installment. */
  lemma ExampleAccount(a: RawAccount, b: real)
    requires 0.0 < b < 10000.0
    requires ExampleOf(a, "1", map[1 := Some(b)], map[1 := Some(0.0)])
    ensures ParseAccount(a).Success? && ParseAccount(a).value.Some?
    ensures ParseAccount(a).value.value.tenure >= 23
    ensures ParseAccount(a).value.value.emi > 0
  {
    ExampleSelection(a, b);
    ParseAccountOutcome(a);
    assert !Beyond(Selected(a), 59);
    var p := ParseAccount(a).value.value;
    ParsedTenureCovers(a, p);
    assert Selected(a)[0].period == 23;
    assert p.emi > 0 by {
      ExampleHeader(a, "1", map[1 := Some(b)], map[1 := Some(0.0)]);
      ParsedEmiPositive(a, p);
    }
  }

  /** A family with two fields lists them in suffix order. */
  lemma TwoFields(p: PeriodIndex, v: Reading, q: PeriodIndex, w: Reading)
    requires p < q
    ensures SortedFields(map[p := v, q := w]) == [(p, v), (q, w)]
  {
    var m := map[p := v, q := w];
    SortedFieldsSpec(m);
    FieldCount(m);
    assert m.Keys == {p, q};
    TwoKeyListing(SortedFields(m), m, p, q);
  }

  /** A strictly ascending listing of the two fields of a two-key family. */
  lemma TwoKeyListing(r: seq<Field>, m: map<PeriodIndex, Reading>, p: PeriodIndex, q: PeriodIndex)
    requires p < q
    requires m.Keys == {p, q}
    requires |r| == 2
    requires forall k :: 0 <= k < |r| ==> r[k].0 in m && m[r[k].0] == r[k].1
    requires r[0].0 < r[1].0
    ensures r == [(p, m[p]), (q, m[q])]
  {
    assert r[0].0 in m.Keys && r[1].0 in m.Keys;
  }

  /** Pairing is by position, not by period: with balances for periods 01
      and 02 but a delinquency reading for 02 only, the balance of period
      01 is judged by the reading of period 02 and the balance of 02 is
      never looked at. */
  lemma MisalignedPairingExample(a: RawAccount)
    requires ExampleOf(a, "2", map[1 := Some(9500.0), 2 := Some(9000.0)], map[2 := Some(0.0)])
    ensures Selected(a) == [Observation(9500.0, 23)]
  {
    ExampleHeader(a, "2", map[1 := Some(9500.0), 2 := Some(9000.0)], map[2 := Some(0.0)]);
    TwoFields(1, Some(9500.0), 2, Some(9000.0));
    SingleField(2, Some(0.0));
    var z := ZippedFields(a);
    assert z == [((1, Some(9500.0)), (2, Some(0.0)))];
    assert Observe(10000, 23, z[0]) == Some(Observation(9500.0, 23));
    FilterMapSingle(z, Selector(10000, 23));
  }

  /** A record with a missing or unreadable field, a date that is not a
      calendar date, or a type other than personal or auto loan yields no
      result. */
  lemma RejectedRecords(a: RawAccount)
    ensures (a.accountNb.None? || a.acctTypeCd.None? || a.openDt.None? || a.balanceDt.None? ||
             a.origLoanAm.None?) ==> ParseAccount(a) == Success(None)
    ensures a.openDt.Some? && !ValidDate(a.openDt.value) ==> ParseAccount(a) == Success(None)
    ensures a.balanceDt.Some? && !ValidDate(a.balanceDt.value) ==> ParseAccount(a) == Success(None)
    ensures a.acctTypeCd.Some? && a.acctTypeCd.value !in ValidAccountTypes ==> ParseAccount(a) == Success(None)
  {
  }
}
