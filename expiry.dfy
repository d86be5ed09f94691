/**
 * The expiry date given to a policy the materializer creates: the day
 * before the fifth birthday for a minor on the minors product, the 125th
 * birthday for an elderly insuree on the elderly product, and otherwise the
 * day before the product's insurance period (in calendar months) runs out.
 */
module Expiry {
  import opened Calendar
  import opened Domain

  predicate IsMinorsCase(ins: Insuree, product: Product, cfg: Config) {
    ins.age < 5 && product.code == cfg.minors
  }

  predicate IsElderlyCase(ins: Insuree, product: Product, cfg: Config) {
    !IsMinorsCase(ins, product, cfg) && ins.age >= 65 && product.code == cfg.elderly
  }

  function ExpiryDate(ins: Insuree, product: Product, cfg: Config, now: Date): (r: Date)
    requires ValidDate(ins.dob) && ValidDate(now)
    ensures ValidDate(r)
    // the last day before the (clamped) fifth birthday
    ensures IsMinorsCase(ins, product, cfg) ==>
      Before(r, AddYears(ins.dob, 5)) && NextDay(r) == AddYears(ins.dob, 5)
    // the (clamped) 125th birthday itself
    ensures IsElderlyCase(ins, product, cfg) ==>
      r.year == ins.dob.year + 125 && r.month == ins.dob.month &&
      r.day == Min(ins.dob.day, DaysInMonth(r.year, r.month))
    // the last day before the same (clamped) day, insurancePeriod months on
    ensures !IsMinorsCase(ins, product, cfg) && !IsElderlyCase(ins, product, cfg) ==>
      MonthIndex(NextDay(r)) == MonthIndex(now) + product.insurancePeriod &&
      NextDay(r).day == Min(now.day, DaysInMonth(NextDay(r).year, NextDay(r).month))
  {
    if IsMinorsCase(ins, product, cfg) then
      NextDayUndoesPrevDay(AddYears(ins.dob, 5));
      PrevDay(AddYears(ins.dob, 5))
    else if ins.age >= 65 && product.code == cfg.elderly then
      AddYears(ins.dob, 125)
    else
      NextDayUndoesPrevDay(AddMonths(now, product.insurancePeriod));
      PrevDay(AddMonths(now, product.insurancePeriod))
  }

  /** A minor's policy runs from birth: it never expires before the date of
      birth. */
  lemma {:induction false} MinorsExpiryNotBeforeBirth(ins: Insuree, product: Product, cfg: Config, now: Date)
    requires ValidDate(ins.dob) && ValidDate(now)
    requires IsMinorsCase(ins, product, cfg)
    ensures NotAfter(ins.dob, ExpiryDate(ins, product, cfg, now))
  {
    var birthday := AddYears(ins.dob, 5);
    assert Before(ins.dob, birthday);
    PrevDayIsImmediatePredecessor(ins.dob, birthday);
  }

  /** A minor born on 29 February: the fifth birthday falls in a common year,
      is clamped to 28 February, and the policy expires on 27 February. */
  lemma {:induction false} MinorsLeapDayExpiry(ins: Insuree, product: Product, cfg: Config, now: Date)
    requires ValidDate(ins.dob) && ValidDate(now)
    requires IsMinorsCase(ins, product, cfg)
    requires ins.dob.month == 2 && ins.dob.day == 29
    ensures ExpiryDate(ins, product, cfg, now) == Date(ins.dob.year + 5, 2, 27)
  {
    assert IsLeapYear(ins.dob.year);
    LeapYearPlusOneModFourIsCommon(ins.dob.year, 5);
  }

  /** A minor born on any other day: the policy expires the day before the
      fifth birthday. */
  lemma {:induction false} MinorsExpiryIsDayBeforeFifthBirthday(ins: Insuree, product: Product, cfg: Config, now: Date)
    requires ValidDate(ins.dob) && ValidDate(now)
    requires IsMinorsCase(ins, product, cfg)
    requires !(ins.dob.month == 2 && ins.dob.day == 29)
    ensures NextDay(ExpiryDate(ins, product, cfg, now)) == Date(ins.dob.year + 5, ins.dob.month, ins.dob.day)
  {
    assert ins.dob.day <= DaysInMonth(ins.dob.year + 5, ins.dob.month);
  }

  /** An elderly insuree born on 29 February: the 125th birthday falls in a
      common year, and the policy expires on 28 February. */
  lemma {:induction false} ElderlyLeapDayExpiry(ins: Insuree, product: Product, cfg: Config, now: Date)
    requires ValidDate(ins.dob) && ValidDate(now)
    requires IsElderlyCase(ins, product, cfg)
    requires ins.dob.month == 2 && ins.dob.day == 29
    ensures ExpiryDate(ins, product, cfg, now) == Date(ins.dob.year + 125, 2, 28)
  {
    assert IsLeapYear(ins.dob.year);
    LeapYearPlusOneModFourIsCommon(ins.dob.year, 125);
  }

  /** A product-period policy with a period of at least one month does not
      expire before the day it starts. */
  lemma {:induction false} PeriodExpiryNotBeforeStart(ins: Insuree, product: Product, cfg: Config, now: Date)
    requires ValidDate(ins.dob) && ValidDate(now)
    requires !IsMinorsCase(ins, product, cfg) && !IsElderlyCase(ins, product, cfg)
    requires product.insurancePeriod >= 1
    ensures NotAfter(now, ExpiryDate(ins, product, cfg, now))
  {
    AddMonthsMovesForward(now, product.insurancePeriod);
    PrevDayIsImmediatePredecessor(now, AddMonths(now, product.insurancePeriod));
  }

  /** Month-end clamping of the product period: a one-month policy starting
      on 31 January of a common year ends on 27 February. */
  lemma {:induction false} PeriodExpiryClampsMonthEnd(ins: Insuree, product: Product, cfg: Config, now: Date)
    requires ValidDate(ins.dob) && ValidDate(now)
    requires !IsMinorsCase(ins, product, cfg) && !IsElderlyCase(ins, product, cfg)
    requires product.insurancePeriod == 1
    requires now.month == 1 && now.day == 31 && !IsLeapYear(now.year)
    ensures ExpiryDate(ins, product, cfg, now) == Date(now.year, 2, 27)
  {
    DivModUnique(MonthIndex(now) + 1, now.year, 1);
  }
}
