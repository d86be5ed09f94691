/**
 * The eligibility evaluator: which configured product codes an insuree of a
 * given family is eligible for. It reads no stored policy and changes
 * nothing.
 */
module Eligibility {
  import opened Domain

  /** A pregnancy attribute that is absent counts as "not pregnant". */
  predicate IsPregnant(ins: Insuree) {
    ins.isPregnant == Some(true)
  }

  /** The age rule: under five gives the minors code, otherwise sixty-five and
      over gives the elderly code. */
  function AgeRuleCodes(age: int, cfg: Config): (r: set<Code>)
    ensures |r| <= 1
    ensures cfg.minors in r <==> age < 5 || (age >= 65 && cfg.elderly == cfg.minors)
    ensures cfg.elderly in r <==> age >= 65 || (age < 5 && cfg.elderly == cfg.minors)
    ensures r <= {cfg.minors, cfg.elderly}
  {
    if age < 5 then {cfg.minors}
    else if age >= 65 then {cfg.elderly}
    else {}
  }

  /** The codes the insuree is eligible for. */
  function DetermineEligibility(ins: Insuree, family: Family, cfg: Config): (r: set<Code>)
    ensures forall c :: c in r <==>
      (ins.age < 5 && c == cfg.minors) ||
      (ins.age >= 65 && c == cfg.elderly) ||
      (family.poverty && c == cfg.indigents) ||
      (IsPregnant(ins) && c == cfg.pregnantWomen)
    ensures r <= cfg.Codes()
  {
    var byAge := AgeRuleCodes(ins.age, cfg);
    assert forall c :: c in byAge <==> (ins.age < 5 && c == cfg.minors) || (ins.age >= 65 && c == cfg.elderly);
    var byPoverty := if family.poverty then {cfg.indigents} else {};
    var byPregnancy := if IsPregnant(ins) then {cfg.pregnantWomen} else {};
    byAge + byPoverty + byPregnancy
  }

  /** Minors and elderly never both come from the age rule when their codes
      differ. */
  lemma {:induction false} AgeBracketsExclusive(age: int, cfg: Config)
    requires cfg.minors != cfg.elderly
    ensures !(cfg.minors in AgeRuleCodes(age, cfg) && cfg.elderly in AgeRuleCodes(age, cfg))
  {
  }

  /** At most three codes: one from the age rule, one from poverty, one from
      pregnancy. */
  lemma {:induction false} EligibilityHasAtMostThreeCodes(ins: Insuree, family: Family, cfg: Config)
    ensures |DetermineEligibility(ins, family, cfg)| <= 3
  {
    var byAge := AgeRuleCodes(ins.age, cfg);
    assert forall c :: c in byAge <==> (ins.age < 5 && c == cfg.minors) || (ins.age >= 65 && c == cfg.elderly);
    var byPoverty: set<Code> := if family.poverty then {cfg.indigents} else {};
    var byPregnancy: set<Code> := if IsPregnant(ins) then {cfg.pregnantWomen} else {};
    UnionBound(byAge, byPoverty);
    UnionBound(byAge + byPoverty, byPregnancy);
  }

  lemma {:induction false} UnionBound<T>(a: set<T>, b: set<T>)
    ensures |a + b| <= |a| + |b|
  {
    assert |a + b| + |a * b| == |a| + |b|;
  }

  /** A working-age insuree of a household that is not poor, with no
      pregnancy, is eligible for nothing. */
  lemma {:induction false} WorkingAgeNotPoorNotPregnantGetsNothing(ins: Insuree, family: Family, cfg: Config)
    requires 5 <= ins.age < 65 && !family.poverty && !IsPregnant(ins)
    ensures DetermineEligibility(ins, family, cfg) == {}
  {
    var r := DetermineEligibility(ins, family, cfg);
    assert forall c :: c !in r;
  }

  /** Poverty gives the indigents code whatever the age; pregnancy gives the
      pregnant-women code whatever the age. */
  lemma {:induction false} PovertyAndPregnancyIgnoreAge(ins: Insuree, family: Family, cfg: Config, age: int)
    ensures family.poverty ==> cfg.indigents in DetermineEligibility(ins.(age := age), family, cfg)
    ensures IsPregnant(ins) ==> cfg.pregnantWomen in DetermineEligibility(ins.(age := age), family, cfg)
  {
  }

  /** An insuree record without the pregnancy attribute is evaluated exactly
      like one whose attribute is false. */
  lemma {:induction false} AbsentPregnancyIsNotPregnant(ins: Insuree, family: Family, cfg: Config)
    requires ins.isPregnant == None
    ensures DetermineEligibility(ins, family, cfg)
         == DetermineEligibility(ins.(isPregnant := Some(false)), family, cfg)
  {
  }

  /** A four-year-old of a poor household gets the minors and the indigents
      codes, and nothing else. */
  lemma {:induction false} PoorFourYearOld(ins: Insuree, family: Family, cfg: Config)
    requires ins.age == 4 && family.poverty && !IsPregnant(ins)
    requires cfg.minors != cfg.indigents
    ensures DetermineEligibility(ins, family, cfg) == {cfg.minors, cfg.indigents}
    ensures |DetermineEligibility(ins, family, cfg)| == 2
  {
    var r := DetermineEligibility(ins, family, cfg);
    assert r == {cfg.minors, cfg.indigents};
  }
}
