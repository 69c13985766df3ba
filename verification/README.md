# Installment estimator for bureau accounts

A model of the loan-contract estimator in `prodcode_api2.py`. A request body
maps customer ids to lists of credit-bureau account records. For each record
`parse_account` does four things:

- it reads the account number, the account type, the opening and statement
  dates and the original loan amount;
- it keeps only personal loans (type "1") and auto loans (type "2");
- it pairs the `BALANCE_AM_NN` and `DAYS_PAST_DUE_NN` fields. Every balance
  reported with zero days past due and lying strictly between 0 and the loan
  amount becomes an observation: the balance, plus the number of installments
  paid by that month;
- it hands the observations to `calc_emi`.

`calc_emi` scores every (annual rate, tenure) candidate of a fixed grid. The
rates run from 10% to 39.5% in half-percent steps and the tenures from 1 to 59
periods. A candidate's score is the distance between the observed balances and
the balances its amortisation schedule predicts. The earliest candidate with
the smallest truthy score wins, and its rate, tenure and installment are
reported.

The Dafny modules follow that structure:

- `Periods`: dates and `get_nper`.
- `Amortization`: `np.pmt` and `np.fv` over exact reals, with a step-by-step
  schedule as an independent reference.
- `Grid`: the candidate enumeration.
- `Search`: the selection loop.
- `Estimator`: `multiproc` and `calc_emi`.
- `Accounts`: `parse_account`.
- `Batch`: `parse`.
- `Seqs` and `Results`: generic helpers for filtering, zipping and errors.

Two behaviours of the code shape the model:

- When no candidate is selected, `calc_emi` reads the unbound `r, t` (line
  123). That happens outside the `try` of `parse_account`, so the error
  propagates and `parse` fails. The model returns a `Failure` result, and
  `parse` passes it on instead of returning a response.
- `zip` pairs the separately sorted balance and delinquency fields by
  position, not by period. `Accounts.MisalignedPairingExample` shows the
  effect.

## Model

| member | source | states |
|---|---|---|
| `Periods.GetNper` | prodcode_api2.py:29-31 | The periods paid are the distance between the two dates on a month line (12 per year), less one. |
| `Periods.NperAdvancesByOne` | prodcode_api2.py:29-31 | Moving the statement date one month later adds exactly one paid period, including from December to January. |
| `Periods.NperCountsMonthSteps` | prodcode_api2.py:29-31 | The period count is the number of single-month steps from the opening date to the statement date, less one. |
| `Periods.NperExample` | prodcode_api2.py:29-31 | An account opened 2019/01/01 with a statement dated 2021/01/01 has paid 23 periods. |
| `Amortization.EmiPositive` | prodcode_api2.py:102-103 | For a positive amount, the installment `-np.pmt(rate, t, amount)` exceeds one period's interest on the amount. |
| `Amortization.RetiredAtTerm` | prodcode_api2.py:103-108 | After `t` installments of the EMI for tenure `t`, `np.fv` gives a remaining balance of exactly zero. |
| `Amortization.RemainingAntitone` | prodcode_api2.py:103-108 | For a positive amount, the predicted balance never grows with the number of installments paid. |
| `Amortization.RemainingBounds` | prodcode_api2.py:103-108 | Within the tenure the predicted balance lies between zero and the amount. Before the first installment it is at least the amount. |
| `Amortization.ScheduleMatchesFv` | prodcode_api2.py:108 | The closed form of `np.fv` equals the balance rolled forward one period at a time (add interest, subtract the payment), for every payment and every count of installments. |
| `Amortization.ScheduleRetiresLoan` | prodcode_api2.py:103-108 | The period-by-period schedule paying the EMI reaches zero at the tenure. |
| `Grid.GridIsComprehension` | prodcode_api2.py:82-85 | The candidate list is the nested comprehension over 60 rates and 59 tenures, with rates in the outer loop. |
| `Grid.GridIsRange` | prodcode_api2.py:82-85 | A candidate is in the grid exactly when its rate is one of 10, 10.5, ..., 39.5 and its tenure one of 1..59. |
| `Grid.GridIndex` | prodcode_api2.py:85 | Every candidate of that range sits at a computable position of the enumeration. |
| `Grid.GridOrder` | prodcode_api2.py:85 | The enumeration is strictly increasing by rate, then by tenure. |
| `Search.Winner` | prodcode_api2.py:116-121 | A selected position is in range and holds a truthy score. |
| `Search.WinnerIsEarliestMinimum` | prodcode_api2.py:116-121 | The loop binds a candidate exactly when some score is truthy (not None, not 0). The one it binds has the smallest truthy score and precedes every other with that score. |
| `Search.WinnerCharacterised` | prodcode_api2.py:116-121 | The loop selects position `i` if and only if `i` is the earliest smallest truthy score. |
| `Search.WinnerInvariant` | prodcode_api2.py:111-119 | Mapping non-negative scores through a strictly increasing function that is zero only at zero (the square root) changes no selection, including which zero scores are skipped. |
| `Estimator.MultiProc` | prodcode_api2.py:95-112 | A candidate scores None exactly when some observation's period exceeds its tenure. Otherwise its score is non-negative. |
| `Estimator.ZeroSumIffExactFit` | prodcode_api2.py:104-109 | The summed squared differences are zero when the candidate's schedule passes through every observed balance, and positive otherwise. |
| `Estimator.ZeroScoreIffExactFit` | prodcode_api2.py:109-119 | A candidate within reach has a falsy score, and is skipped by the selection, exactly when it reproduces every observed balance. |
| `Estimator.Scores` | prodcode_api2.py:114 | There are 3540 scores. The score of every candidate in the grid range sits at that candidate's position in the enumeration. |
| `Estimator.CalcEmi` | prodcode_api2.py:81-125 | A returned candidate lies in the grid and its tenure covers every observed period. |
| `Estimator.CalcEmiSelectsBestFit` | prodcode_api2.py:114-125 | `calc_emi` fails (UnboundLocalError on `r, t`) exactly when no score is truthy. Otherwise it returns a given fit if and only if that fit is the earliest best-scoring candidate with installment `-np.pmt(r/1200, t, amount)`. |
| `Estimator.RootScoresSameWinner` | prodcode_api2.py:111-121 | Scoring by root mean square error instead of mean square error selects the same candidate. |
| `Estimator.CrashIffPeriodBeyondGrid` | prodcode_api2.py:97-123 | For balances strictly between zero and the amount, `calc_emi` fails exactly when some observed period exceeds 59, the longest tenure of the grid. |
| `Estimator.InstallmentPositive` | prodcode_api2.py:123 | For a positive amount, every grid candidate's installment `-np.pmt(r/1200, t, amount)` is positive. This is the real value of line 123, before `int()`. |
| `Accounts.Trunc` | prodcode_api2.py:40 | `int()` on a number truncates toward zero. The result is the integer nearest to the argument on the zero side. |
| `Accounts.FieldsFromSpec` | prodcode_api2.py:49-53 | The sorted listing of a field family holds every field of the family, with its value, once each, in ascending order of the two-digit suffix. |
| `Accounts.SortedFieldsSpec` | prodcode_api2.py:49-53 | `sorted()` over the matching keys lists every field once, with its value, in suffix order. |
| `Accounts.FieldCount` | prodcode_api2.py:49-53 | The listing of a family has exactly as many entries as the family has keys. |
| `Accounts.AlignedPairing` | prodcode_api2.py:57 | When the balance and delinquency families have the same suffixes, `zip` pairs every balance with the reading of the same period. |
| `Accounts.ObservationsSelect` | prodcode_api2.py:57-63 | The observations are exactly one per zipped pair that passes the filter, in zip order. A pair passes when its delinquency reading is present and zero and its balance is present and strictly between 0 and the amount. Each observation holds that balance and the period `total - suffix + 1`. |
| `Accounts.ObservationsBounded` | prodcode_api2.py:59-63 | Every selected balance is strictly between zero and the amount, and every period lies within `total - 98 .. total + 1`. |
| `Accounts.ReadHeader` | prodcode_api2.py:34-42 | The `try` block fails exactly when the id, type, either date or the amount is missing or unreadable, or when a date is not a calendar date. Otherwise the header holds the record's own id, type and dates, and the amount truncated toward zero. |
| `Accounts.ParseAccount` | prodcode_api2.py:33-78 | A parsed account carries the record's account number and a valid type. Its rate is in [10, 40), its tenure in 1..59, and its installment is non-negative. |
| `Accounts.ParseAccountOutcome` | prodcode_api2.py:41-78 | With no selected observation `parse_account` returns None. It fails exactly when a selected period exceeds 59, and otherwise returns an account. |
| `Accounts.ParsedTenureCovers` | prodcode_api2.py:65-73 | A parsed account has observations, and its tenure covers each of them. |
| `Accounts.ParseAccountFit` | prodcode_api2.py:65-76 | A parsed account reports the best-fitting candidate for the selected observations. That is its rate in percent, its tenure, and its installment truncated toward zero. |
| `Accounts.ParsedEmiCoversInterest` | prodcode_api2.py:70-74 | The reported installment is at least one period's interest on the amount, `amount * rate / 1200`, truncated. |
| `Accounts.ParsedEmiPositive` | prodcode_api2.py:70-74 | A parsed loan of at least 120 reports an installment of at least 1. |
| `Accounts.ExampleAccount` | prodcode_api2.py:33-78 | Take a personal loan of 10000 opened 2019/01/01 and reported 2021/01/01, with one clean balance at suffix 01. It parses to an account with a tenure of at least 23 and a positive installment, for any balance strictly between 0 and 10000. |
| `Accounts.ExampleSelection` | prodcode_api2.py:55-63 | That account yields the single observation (balance, 23). |
| `Accounts.MisalignedPairingExample` | prodcode_api2.py:49-63 | Take balances at suffixes 01 and 02 and a delinquency reading at 02 only. The 01 balance is judged by the 02 reading, and the 02 balance is never looked at. |
| `Accounts.RejectedRecords` | prodcode_api2.py:34-45 | A record gives None in four cases. Any of the id, type, dates or amount is missing or unreadable. The opening date is not a calendar date. The statement date is not a calendar date. The type is anything other than "1" or "2". |
| `Batch.KeepParsedSpec` | prodcode_api2.py:21-24 | The account loop fails exactly when some account's parse fails. Otherwise it keeps, in order, exactly the accounts that parse to a result. |
| `Batch.ParseCustomer` | prodcode_api2.py:18-20 | A null or empty account list gives an empty list. |
| `Batch.Parse` | prodcode_api2.py:14-27 | Every customer id of the request appears in the response, in order. |
| `Batch.ParseSpec` | prodcode_api2.py:14-27 | `parse` fails exactly when some customer's accounts make it fail. Otherwise every customer's entry is exactly the result of its own account list. |
| `Batch.CustomerKeepsSettled` | prodcode_api2.py:18-26 | When no account fails, a customer keeps exactly the accounts that parse to a result, in their original order. |
| `Seqs.FilterMapByIndices` | prodcode_api2.py:21-24 | Keeping the present results of a list gives one entry per kept position, in order, and keeps every position that has a result. |
| `Seqs.CollectSomeFails` | prodcode_api2.py:21-24 | Appending results until the first raised error fails exactly when some element raises. |
| `Seqs.CollectSomeKeeps` | prodcode_api2.py:21-24 | When no element raises, the appended list is the filtered list of present results. |

## Left out

- The Flask application and its route (lines 128-139) are not modelled. They are HTTP plumbing around `parse`. `api_code.py` is not part of this model.
- JSON decoding is not modelled. The request arrives as a sequence of (customer id, account list) entries in the object's order, and a null list is `None`. Customer ids are taken to be distinct, as they are in a decoded object.
- Text parsing of dates by `strptime` is not modelled. A date is held as year, month and day, checked only for being a calendar date, and an unreadable date is an absent one. Years above 9999, which `strptime` rejects, are not excluded.
- `int()` applied to a string amount is not modelled. An amount is either a number, truncated toward zero, or unreadable.
- Field values of non-numeric types are not modelled. For example, a string balance would make the comparison `bal > 0` raise TypeError.
- Account-type codes that are not strings are not modelled. A number is simply rejected. A list or an object raises TypeError at the membership test of line 44, which is outside the `try`, so it makes `parse` fail.
- The account number is held as the text `str()` makes of it. A null `ACCOUNT_NB`, which the code accepts, is therefore held as `Some("None")`.
- An account value that is not a list is not modelled.
- Keys such as `BALANCE_AM_123` or `BALANCE_AM_01a` are not modelled. `re.match` anchors only at the start, so they would also match; the model holds exactly the two-digit suffixes 00-99. A suffix whose last two characters are not digits would make `int(b[-2:])` (line 62) raise outside the `try`, so `parse` would fail.
- Floating point is replaced by exact reals throughout, with no rounding and no NaN or infinity. `pd.isna` is modelled as an absent reading.
- The order in which the `try` block reads its fields is not modelled. Any missing or unreadable field gives None, whichever field it is.
- `open_date` is accepted by `calc_emi` but never used, so the model omits it.
- Estimator.MultiProc: the score is the mean square error, without the final `np.sqrt`. `Estimator.RootScoresSameWinner` proves that taking the root changes no selection.
