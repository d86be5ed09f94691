# Autoenrollment of insurees into health-insurance policies

A Dafny model of the enrollment core of the openIMIS `autoenroll` module
(`autoenroll/services.py`). When an insuree or family record changes, that
core does four things:

- It decides which configured products the insuree is eligible for. The
  categories are minors, elderly, indigents and pregnant women.
- It resolves each eligible code to the one live product with that code.
- It finds or creates one ACTIVE, not-superseded policy for the pair
  (family, product). A new policy's expiry date follows a three-case
  calendar rule.
- It triggers the household policy-aggregate refresh.

A separate activator turns a free (value 0) IDLE policy into an ACTIVE one.

The model has five modules:

- `Calendar` (`calendar.dfy`): proleptic Gregorian dates. It defines
  adding years and adding months, both with the day clamped to the end of
  the month, and stepping back or forward one day. These are the parts of
  `relativedelta` the rules use.
- `Domain` (`domain.dfy`): insurees, families, products, policies, the four
  configured codes (`Config`), errors, and the refresh-log entry.
- `Eligibility` (`eligibility.dfy`): the pure evaluator.
- `Expiry` (`expiry.dfy`): the pure three-case expiry rule.
- `Enrollment` (`enrollment.dfy`): the product lookup, find-or-create as a
  specification function, and activation. It also has `PolicyStore`, a
  class holding the policy table (`policies`), the next row identifier, and
  a ghost log `refreshes` of the refresh calls. Its methods
  (`GetOrCreatePolicy`, `ActivateIfFreeAndIdle`, `AutoenrollFamily`, its
  per-code loop `EnrollInCodes` and the loop's body `EnrollInProduct`)
  change the table in place. Each method's postcondition ties the new
  table to the specification functions. The loop is specified by
  `EnrollStep` (one code) and `RunCodes` (the codes in a given order,
  stopping at the first failure). `EnrollInCodes` returns, as a ghost
  value, the order in which it took the codes, and its postcondition says
  that its result, table, next identifier and log are exactly `RunCodes`
  over that order.

The following are passed to the model as inputs:

- The product codes, which the source reads from process-wide
  configuration, are an explicit `Config` parameter.
- The clock (`now()`) is a date parameter.
- The product table is a `catalog` sequence.
- The insuree's age, which the source gets from the insuree's own `age()`
  method, is an input field. That method is not part of this model.

Behaviour of the code worth knowing:

- The evaluator reads four per-category code attributes of
  `AutoenrollConfig` (`autoenroll/services.py:35`, `:37`, `:40`, `:43`).
  The `AutoenrollConfig` of this repository (`autoenroll/apps.py:10-18`)
  defines only `autoenroll_product_code`, so as the files stand, a rule
  that fires raises `AttributeError` inside the evaluator, before any
  product lookup. The model takes the four codes as given in `Config`.
- A product that cannot be found does not halt only its own enrollment. The
  re-raise leaves the per-code loop, so the remaining codes are not
  processed (`autoenroll/services.py:21-23`). `AutoenrollFamily` returns the
  error at the first failing code. Rows written before it stay.
- Find-or-create is keyed on the family, not on the insuree. In a household
  with two eligible minors, the second one gets the first one's policy and
  its expiry date (`GetOrCreateIsIdempotent` holds whatever expiry the
  second call computes).
- The key query can match more than one row, for example after the
  activator has turned a second IDLE policy ACTIVE. In that case the store's
  `get_or_create` raises and nothing is written or refreshed
  (`MultiplePolicies`). The same applies to a product code with two live
  products (`MultipleProducts`).

## Model

| member | source | states |
|---|---|---|
| `Eligibility.AgeRuleCodes` | autoenroll/services.py:34-37 | at most one code from the age rule; minors exactly when under 5, elderly exactly when 65 or over (the if/elif) |
| `Eligibility.DetermineEligibility` | autoenroll/services.py:30-45 | a code is in the result iff a rule gives it: under 5 → minors, 65+ → elderly, poor household → indigents, `IsPregnant` (the attribute present and true) → pregnant women; the result is drawn from the four configured codes |
| `Eligibility.AgeBracketsExclusive` | autoenroll/services.py:34-37 | with distinct minors and elderly codes, the age rule never yields both |
| `Eligibility.EligibilityHasAtMostThreeCodes` | autoenroll/services.py:32-45 | the result never has more than three codes (one per rule group), so it is within the four configured ones |
| `Eligibility.WorkingAgeNotPoorNotPregnantGetsNothing` | autoenroll/services.py:32-45 | 5 ≤ age < 65, not poor and not pregnant gives the empty set |
| `Eligibility.PovertyAndPregnancyIgnoreAge` | autoenroll/services.py:39-43 | poverty gives the indigents code and pregnancy the pregnant-women code at every age |
| `Eligibility.AbsentPregnancyIsNotPregnant` | autoenroll/services.py:41-43 | an insuree without the pregnancy attribute is evaluated exactly as one whose flag is false |
| `Eligibility.PoorFourYearOld` | autoenroll/services.py:34-40 | a poor four-year-old gets exactly {minors, indigents}, two codes |
| `Calendar.AddYears` | autoenroll/services.py:66 | `relativedelta(years=n)`: same month, year + n, day clamped to the month's length; result is a valid date |
| `Calendar.AddMonths` | autoenroll/services.py:71 | `relativedelta(months=n)`: month index moves by exactly n, day clamped to the target month's length; result is a valid date |
| `Calendar.PrevDay` | autoenroll/services.py:66 | `- relativedelta(days=1)`: a valid, strictly earlier date |
| `Calendar.NextDay` | autoenroll/services.py:66 | one day on: a valid, strictly later date |
| `Calendar.NextDayUndoesPrevDay` | autoenroll/services.py:66 | stepping back then forward (and forward then back) returns the same date |
| `Calendar.PrevDayIsImmediatePredecessor` | autoenroll/services.py:66 | no valid date lies strictly between a date's previous day and the date itself |
| `Calendar.AddYearsIsTwelveMonths` | autoenroll/services.py:66-71 | adding n years equals adding 12·n months, clamp included |
| `Calendar.AddMonthsMovesForward` | autoenroll/services.py:71 | adding a positive number of months gives a strictly later date |
| `Calendar.AddYearsClampsLeapDay` | autoenroll/services.py:66-68 | 29 February lands on 28 February in a common year; any day up to the 28th is kept unchanged |
| `Expiry.ExpiryDate` | autoenroll/services.py:64-71 | minors case (`IsMinorsCase`: under 5 and the minors product): the last day before the clamped fifth birthday; elderly case (`IsElderlyCase`: otherwise 65+ and the elderly product): the clamped 125th birthday; otherwise the day before the same clamped day `insurancePeriod` months after `now` |
| `Expiry.MinorsExpiryNotBeforeBirth` | autoenroll/services.py:65-66 | a minor's policy never expires before the date of birth |
| `Expiry.MinorsLeapDayExpiry` | autoenroll/services.py:65-66 | a minor born on 29 February gets expiry 27 February of birth year + 5 |
| `Expiry.MinorsExpiryIsDayBeforeFifthBirthday` | autoenroll/services.py:65-66 | for any other birth date the day after expiry is the fifth birthday itself |
| `Expiry.ElderlyLeapDayExpiry` | autoenroll/services.py:67-68 | an elderly insuree born on 29 February gets expiry 28 February of birth year + 125 |
| `Expiry.PeriodExpiryNotBeforeStart` | autoenroll/services.py:69-71 | with a period of at least one month, the product-period expiry is not before `now` |
| `Expiry.PeriodExpiryClampsMonthEnd` | autoenroll/services.py:71 | a one-month policy from 31 January of a common year expires 27 February |
| `Enrollment.Filter` | autoenroll/services.py:53 | the query result holds exactly the rows that satisfy the condition, each as many times as it is stored, and no more rows than the table |
| `Enrollment.GetAutoenrollProduct` | autoenroll/services.py:48-56 | success iff exactly one live product (`LiveWithCode`: the code and no `validityTo`) has the code, and it is that product; `ProductNotFound` iff no live product has it; otherwise `MultipleProducts` |
| `Enrollment.ActiveMatches` | autoenroll/services.py:73-77 | exactly the stored rows matching the key (`IsLiveActive`: no `validityTo`, the given product and family, status ACTIVE), each as many times as it is stored |
| `Enrollment.NewPolicy` | autoenroll/services.py:73-86 | the created row matches the key it was searched with |
| `Enrollment.GetOrCreate` | autoenroll/services.py:73-87 | >1 match: error, rows unchanged; no match: the row with the fixed defaults (stage NEW, ACTIVE, value 0, enroll/start/effective = now, the computed expiry, audit user −1) is appended and reported created; one match: it is returned, not created, rows unchanged; on success the key matches exactly the returned row |
| `Enrollment.GetOrCreateIsIdempotent` | autoenroll/services.py:73-91 | after a successful call, a second call returns the same row as not created and changes nothing, whatever its clock and expiry |
| `Enrollment.CreateThenFind` | autoenroll/services.py:73-91 | from a store with no match two calls return (created, p) then (not created, p), with exactly one row added |
| `Enrollment.Activated` | autoenroll/services.py:94-98 | free and idle (`FreeAndIdle`: value 0 and status IDLE): status ACTIVE and enroll and effective dates set to the start date; otherwise unchanged; no other field ever changes |
| `Enrollment.ActivationIsIdempotent` | autoenroll/services.py:94-98 | activation of an activated policy changes nothing, and the result is never free-and-idle |
| `Enrollment.ActivationNeverDowngrades` | autoenroll/services.py:95 | an ACTIVE policy or one with non-zero value is left as it is |
| `Enrollment.Saved` | autoenroll/services.py:99 | after save the policy is stored, and it is the only row with its identifier; every row with another identifier is kept and nothing else appears; an update keeps the row count and an insert adds one row; the identifiers are the old ones plus the policy's |
| `Enrollment.HouseholdOf` | autoenroll/services.py:18-19 | the given family if any, else exactly the insuree's own (`family.None? ==> r == ins.family`); none only when both are missing |
| `Enrollment.PolicyStore.Save` | autoenroll/services.py:99 | the table becomes `Saved` of the old table; identifiers stay distinct; no refresh |
| `Enrollment.PolicyStore.GetOrCreatePolicy` | autoenroll/services.py:59-91 | result and new table are `GetOrCreate` of the old table with the expiry from `ExpiryDate`; on success exactly one refresh with the returned policy and user −1; on error no refresh |
| `Enrollment.PolicyStore.ActivateIfFreeAndIdle` | autoenroll/services.py:94-100 | returns `Activated(p)`; when free and idle the activated policy is saved and one refresh is logged, otherwise table, identifiers and log are unchanged |
| `Enrollment.PolicyStore.EnrollInProduct` | autoenroll/services.py:21-23 | the result and the new table, next identifier and log are exactly `EnrollStep` of the old ones: a failed product lookup returns its error and writes nothing; otherwise the find-or-create for the looked-up product with the expiry from `ExpiryDate`, whose error is returned with nothing written, and whose success logs one refresh of the returned policy by user −1 |
| `Enrollment.PolicyStore.EnrollInCodes` | autoenroll/services.py:21-27 | returns the order it took the codes in: each code at most once (`Distinct`), only codes of the set, all of them on success; the result, table, next identifier and log are exactly `RunCodes` over that order from the old ones. Also stated directly: rows and refreshes are only appended; each new row is a fresh policy of the household (`NewPolicy` with `now` and `ExpiryDate`) for the live product of one of the codes; each new refresh is by user −1 and names a stored live ACTIVE row of the household for one of the codes' products; no more new rows than new refreshes, nor more new refreshes than codes (`EnrollmentWrites`); on success every code is enrolled and exactly one refresh is logged per code; an error is `MultiplePolicies` or a lookup error for one of the codes |
| `Enrollment.PolicyStore.AutoenrollFamily` | autoenroll/services.py:15-27 | no insuree: nothing changes; no family anywhere: `MissingFamily` and nothing changes; otherwise the run is exactly `RunCodes` over the eligible codes in the order returned (each eligible code at most once, all of them on success), its writes are within `EnrollmentWrites`, on success every eligible code has an ACTIVE policy for the family with exactly one refresh per code, and a lookup error names an eligible code |
| `Enrollment.EnrollStep` | autoenroll/services.py:21-23 | one pass of the loop: a failure leaves the tables as they were (when it fails, and with which error, is `EnrollStepFailsExactly`); at most one row is appended, exactly when the code resolves and its key matched nothing, and it is `NewPolicy` under the next identifier, which then moves on by one; on success the code's key matches exactly one row (`HeldOnce`) and exactly one refresh, of that row (`HeldRow`) by user −1, is appended |
| `Enrollment.EnrollStepFailsExactly` | autoenroll/services.py:21-23 | a step fails exactly when the product lookup fails or the family's key for the product matches more than one row; a failed lookup's own error is returned (`ProductNotFound` or `MultipleProducts`, as services.py:54-56 re-raises it); otherwise the error is `MultiplePolicies` for that family and product (the store's `get_or_create`, services.py:73-87) |
| `Enrollment.RunCodes` | autoenroll/services.py:21-27 | the loop over the codes in a given order, ending at the first failure: rows and log are only appended, no more new rows than new refreshes nor new refreshes than codes, and exactly one refresh per code on success |
| `Enrollment.RunCodesSnoc` | autoenroll/services.py:21-23 | running one more code is one more step after the run so far, unless the run so far failed |
| `Enrollment.EnrollStepKeepsMatches` | autoenroll/services.py:73-87 | a step never changes the rows a key already matching some row matches |
| `Enrollment.EnrollStepKeepsHeld` | autoenroll/services.py:73-87 | a code whose key matches exactly one row still does after any step, and it is the same row |
| `Enrollment.HeldLog` | autoenroll/services.py:21-23 | the reference log, defined as one refresh per code, in the order given, each naming the row that code's key matches; its contract gives only its length, one entry per code |
| `Enrollment.HeldLogKept` | autoenroll/services.py:21-23 | that log depends only on the rows the codes' keys match |
| `Enrollment.EnrollStepExtendsHeldLog` | autoenroll/services.py:21-23 | a successful step for the next code keeps every earlier code held by the same row and extends the log by that code's row |
| `Enrollment.RunCodesEnrollsEach` | autoenroll/services.py:21-27 | after a run that succeeds each processed code's key matches exactly one row, and the new refreshes are exactly `HeldLog`: one per code, in order, naming that code's row (no other refresh, no wrong row) |
| `Enrollment.RunCodesEnrollsAll` | autoenroll/services.py:21-27 | a run that succeeds over every code of a set leaves the household enrolled in all of them |
| `Enrollment.RerunFindsEverything` | autoenroll/services.py:73-87 | when every code's key already matches exactly one row, a run succeeds, finds every row and creates none, whatever the insuree and the clock |
| `Enrollment.AutoenrollTwiceCreatesNothing` | autoenroll/services.py:15-27 | after a successful run, a second run for the same household over the same codes or some of them (another member, a later clock) succeeds and adds no policy |
| `Enrollment.RunCodesWrites` | autoenroll/services.py:21-27 | whatever its outcome, a run over codes drawn from a set keeps its writes within `EnrollmentWrites` for that set |
| `Enrollment.GetOrCreateAppendsFor` | autoenroll/services.py:73-87 | a find-or-create for a code's live product appends at most one row, and that row is the fresh policy of the household for the code |
| `Enrollment.GetOrCreateRefreshFor` | autoenroll/services.py:73-88 | after a successful find-or-create the refreshed policy is a stored live ACTIVE row of the family for the code's product, and the family is enrolled for the code |
| `Enrollment.EnrollStepWrites` | autoenroll/services.py:21-23 | one successful pass of the loop keeps the run's writes within `EnrollmentWrites` and adds the code to the enrolled ones without undoing any earlier enrollment |

## Left out

- The mutation-event hooks in `autoenroll/schema.py` are not modelled. They
  are event plumbing around the ORM: dispatch on the mutation class,
  `MutationLog` lookups, and catch-log-suppress. Their inline activation
  sets the enroll date but not the effective date. It is not conflated with
  `ActivateIfFreeAndIdle`, which models the activator in `services.py`.
- The batch command in `autoenroll/management/commands/autoenroll.py` is
  not modelled. It is a database query, argument parsing and console
  output, and it calls the product lookup without the code argument that
  the lookup requires.
- Configuration loading in `autoenroll/apps.py` and `setup.py` are not
  modelled. The codes are explicit parameters. The `AttributeError` that
  reading an undefined category code raises is not modelled either: the
  model assumes all four codes are configured.
- Logging is not modelled.
- The internals of `update_insuree_policies` are not modelled. It appears
  only as the ghost log `refreshes`.
- The atomicity and concurrency of the store's `get_or_create` are not
  modelled. Each call is one atomic step.
- The model reads the clock once per run: every find-or-create of a run
  gets the same `now`. The source calls `now()` again for each product
  (`autoenroll/services.py:64`), so a run that crosses midnight dates its
  later policies a day later there.
- The clock is a calendar date. The time of day and the timezone of the
  aware `now()` are dropped, because the policy date fields hold dates.
- Python's date range (years 1 to 9999) is not modelled. Dates are
  unbounded, so the overflow error that `dob + 125 years` raises near year
  9999 does not occur in the model.
- A missing date of birth (an age of `None`) is not modelled. Ages are
  integers.
- A null poverty flag is modelled as `false`.
- The insuree's `age()` computation is not part of this model. The age is
  an input that is independent of `dob`.
- Policy date fields are always set, and the value is an exact `real` for
  the source's decimal amount.
- Python does not fix the iteration order over the set of eligible codes,
  so the loop picks the next code nondeterministically. The model records
  the order taken and proves the run exact for that order; which code
  fails first, and so which rows are written before a failure, depends on
  it.
