/**
 * Enrollment against the policy store: the product lookup, the idempotent
 * find-or-create of a policy, the activation of a free idle policy, and the
 * per-code enrollment of an insuree's household.
 */
module Enrollment {
  import opened Calendar
  import opened Domain
  import opened Eligibility
  import opened Expiry

  // ---------------------------------------------------------------------
  // Queries over stored rows
  // ---------------------------------------------------------------------

  /** The rows of `s` that satisfy `f`, in store order. */
  function Filter<T(!new)>(s: seq<T>, f: T -> bool): (r: seq<T>)
    ensures |r| <= |s|
    ensures forall x {:trigger x in r} {:trigger x in s} :: x in r <==> x in s && f(x)
    // every kept row is kept as often as it occurs, the others not at all
    ensures forall x {:trigger multiset(r)[x]} :: multiset(r)[x] == if f(x) then multiset(s)[x] else 0
    decreases |s|
  {
    if s == [] then []
    else
      var init, last := s[..|s| - 1], s[|s| - 1];
      assert s == init + [last];
      assert multiset(s) == multiset(init) + multiset{last};
      if f(last) then Filter(init, f) + [last] else Filter(init, f)
  }

  lemma {:induction false} FilterAppend<T(!new)>(s: seq<T>, x: T, f: T -> bool)
    ensures Filter(s + [x], f) == if f(x) then Filter(s, f) + [x] else Filter(s, f)
  {
    assert (s + [x])[..|s + [x]| - 1] == s;
  }

  /** A row that satisfies `f` stays found when rows are appended. */
  lemma {:induction false} FilterKeepsFoundRows<T(!new)>(s: seq<T>, t: seq<T>, f: T -> bool)
    requires Filter(s, f) != []
    ensures Filter(s + t, f) != []
  {
    var x := Filter(s, f)[0];
    assert x in Filter(s, f);
    assert x in s + t;
    assert x in Filter(s + t, f);
  }

  // ---------------------------------------------------------------------
  // Product lookup
  // ---------------------------------------------------------------------

  function LiveWithCode(code: Code): Product -> bool {
    (p: Product) => p.code == code && p.validityTo == None
  }

  /** The one live product with the given code; `ProductNotFound` when there
      is none and `MultipleProducts` when the code is ambiguous. */
  function GetAutoenrollProduct(catalog: seq<Product>, code: Code): (r: Result<Product>)
    ensures r.Success? <==> |Filter(catalog, LiveWithCode(code))| == 1
    ensures r.Success? ==> r.value in catalog && r.value.code == code && r.value.validityTo == None
    ensures r == Failure(ProductNotFound(code)) <==>
      forall p {:trigger p in catalog} :: p in catalog ==> !(p.code == code && p.validityTo == None)
    ensures r.Failure? ==> r.error == ProductNotFound(code) || r.error == MultipleProducts(code)
  {
    var live := Filter(catalog, LiveWithCode(code));
    if |live| == 0 then Failure(ProductNotFound(code))
    else
      assert live[0] in live;
      if |live| > 1 then Failure(MultipleProducts(code))
      else Success(live[0])
  }

  // ---------------------------------------------------------------------
  // Find-or-create
  // ---------------------------------------------------------------------

  /** The find-or-create key: not superseded, for this product and family,
      and ACTIVE. */
  predicate IsLiveActive(p: Policy, familyId: nat, productId: nat) {
    p.validityTo == None && p.productId == productId && p.familyId == familyId && p.status == Active
  }

  function LiveActiveFor(familyId: nat, productId: nat): Policy -> bool {
    (p: Policy) => IsLiveActive(p, familyId, productId)
  }

  /** The rows the find-or-create key selects, each as often as it is stored. */
  function ActiveMatches(s: seq<Policy>, familyId: nat, productId: nat): (r: seq<Policy>)
    ensures forall p {:trigger p in r} {:trigger p in s} :: p in r <==> p in s && IsLiveActive(p, familyId, productId)
    ensures forall p {:trigger multiset(r)[p]} :: multiset(r)[p] == if IsLiveActive(p, familyId, productId) then multiset(s)[p] else 0
  {
    Filter(s, LiveActiveFor(familyId, productId))
  }

  /** The row the find-or-create inserts when nothing matches its key. */
  function NewPolicy(id: nat, familyId: nat, product: Product, now: Date, expiry: Date): (p: Policy)
    ensures IsLiveActive(p, familyId, product.id)
  {
    Policy(
      id := id,
      familyId := familyId,
      productId := product.id,
      stage := New,
      status := Active,
      value := 0.0,
      enrollDate := now,
      startDate := now,
      effectiveDate := now,
      expiryDate := expiry,
      validityTo := None,
      auditUserId := SystemUser)
  }

  datatype Materialized = Materialized(policy: Policy, created: bool)

  /** Find-or-create over the rows `s`: the result and the rows afterwards.
      `freshId` is the identifier a new row receives. */
  function GetOrCreate(s: seq<Policy>, freshId: nat, familyId: nat, product: Product,
                       now: Date, expiry: Date): (o: (Result<Materialized>, seq<Policy>))
    // an ambiguous key is an error and changes nothing
    ensures o.0.Failure? <==> |ActiveMatches(s, familyId, product.id)| > 1
    ensures o.0.Failure? ==> o.0.error == MultiplePolicies(familyId, product.id) && o.1 == s
    // a new row is made exactly when nothing matched, and it is appended
    ensures o.0.Success? && o.0.value.created <==> ActiveMatches(s, familyId, product.id) == []
    ensures o.0.Success? && o.0.value.created ==>
      o.0.value.policy == NewPolicy(freshId, familyId, product, now, expiry) &&
      o.1 == s + [o.0.value.policy]
    // otherwise the existing row is returned and nothing changes
    ensures o.0.Success? && !o.0.value.created ==> o.0.value.policy in s && o.1 == s
    // on success the key matches exactly one row afterwards: the one returned
    ensures o.0.Success? ==> ActiveMatches(o.1, familyId, product.id) == [o.0.value.policy]
  {
    var found := ActiveMatches(s, familyId, product.id);
    if |found| > 1 then
      (Failure(MultiplePolicies(familyId, product.id)), s)
    else if |found| == 1 then
      assert found[0] in found;
      (Success(Materialized(found[0], false)), s)
    else
      var p := NewPolicy(freshId, familyId, product, now, expiry);
      FilterAppend(s, p, LiveActiveFor(familyId, product.id));
      (Success(Materialized(p, true)), s + [p])
  }

  /** A second find-or-create right after a successful one returns the same
      row, reports it as not created, and changes nothing, whatever the
      second call's clock and expiry. */
  lemma {:induction false} GetOrCreateIsIdempotent(
    s: seq<Policy>, id1: nat, id2: nat, familyId: nat, product: Product,
    now1: Date, expiry1: Date, now2: Date, expiry2: Date)
    requires GetOrCreate(s, id1, familyId, product, now1, expiry1).0.Success?
    ensures var (r1, s1) := GetOrCreate(s, id1, familyId, product, now1, expiry1);
      GetOrCreate(s1, id2, familyId, product, now2, expiry2)
        == (Success(Materialized(r1.value.policy, false)), s1)
  {
    var (r1, s1) := GetOrCreate(s, id1, familyId, product, now1, expiry1);
    var found := ActiveMatches(s1, familyId, product.id);
    assert found == [r1.value.policy];
  }

  /** From a store with no matching row, two calls return (created, p) and
      then (not created, p) for the same row p. */
  lemma {:induction false} CreateThenFind(
    s: seq<Policy>, id1: nat, id2: nat, familyId: nat, product: Product,
    now1: Date, expiry1: Date, now2: Date, expiry2: Date)
    requires ActiveMatches(s, familyId, product.id) == []
    ensures var (r1, s1) := GetOrCreate(s, id1, familyId, product, now1, expiry1);
      var (r2, s2) := GetOrCreate(s1, id2, familyId, product, now2, expiry2);
      r1.Success? && r1.value.created && r2.Success? && !r2.value.created &&
      r2.value.policy == r1.value.policy && s2 == s1 == s + [r1.value.policy]
  {
    GetOrCreateIsIdempotent(s, id1, id2, familyId, product, now1, expiry1, now2, expiry2);
  }

  // ---------------------------------------------------------------------
  // Activation
  // ---------------------------------------------------------------------

  /** The activation guard: nothing paid and still IDLE. */
  predicate FreeAndIdle(p: Policy) {
    p.value == 0.0 && p.status == Idle
  }

  /** The policy as activation leaves it. */
  function Activated(p: Policy): (r: Policy)
    ensures FreeAndIdle(p) ==>
      r.status == Active && r.enrollDate == p.startDate && r.effectiveDate == p.startDate
    ensures !FreeAndIdle(p) ==> r == p
    // only the status and the enroll and effective dates ever change
    ensures r == p.(status := r.status, enrollDate := r.enrollDate, effectiveDate := r.effectiveDate)
  {
    if FreeAndIdle(p) then
      p.(enrollDate := p.startDate, effectiveDate := p.startDate, status := Active)
    else
      p
  }

  /** Activating an activated policy changes nothing more. */
  lemma {:induction false} ActivationIsIdempotent(p: Policy)
    ensures Activated(Activated(p)) == Activated(p)
    ensures !FreeAndIdle(Activated(p))
  {
  }

  /** Activation never touches an ACTIVE policy or one with a non-zero value. */
  lemma {:induction false} ActivationNeverDowngrades(p: Policy)
    requires p.status == Active || p.value != 0.0
    ensures Activated(p) == p
  {
  }

  function Ids(s: seq<Policy>): set<nat> {
    set i | 0 <= i < |s| :: s[i].id
  }

  /** The rows after `p` is saved: the row with `p`'s identifier is replaced
      by `p`, or `p` is appended when there is none. */
  function Saved(s: seq<Policy>, p: Policy): (r: seq<Policy>)
    ensures p in r
    ensures forall q :: q in r ==> q == p || q in s
    ensures forall q :: q in s && q.id != p.id ==> q in r
    // no stale row with p's identifier survives beside p
    ensures forall q :: q in r && q.id == p.id ==> q == p
    // an update keeps the row count, an insert adds one row
    ensures p.id in Ids(s) ==> |r| == |s|
    ensures p.id !in Ids(s) ==> |r| == |s| + 1
    ensures Ids(r) == Ids(s) + {p.id}
  {
    if p.id in Ids(s) then
      var r := seq(|s|, i requires 0 <= i < |s| => if s[i].id == p.id then p else s[i]);
      assert forall q :: q in s && q.id != p.id ==> q in r by {
        forall q | q in s && q.id != p.id ensures q in r {
          var i :| 0 <= i < |s| && s[i] == q;
          assert r[i] == q;
        }
      }
      var k :| 0 <= k < |s| && s[k].id == p.id;
      assert r[k] == p;
      assert Ids(r) == Ids(s) by {
        forall j | 0 <= j < |s| ensures r[j].id == s[j].id { }
      }
      r
    else
      var r := s + [p];
      assert r[|s|] == p;
      assert forall q :: q in s ==> q.id in Ids(s) by {
        forall q | q in s ensures q.id in Ids(s) {
          var i :| 0 <= i < |s| && s[i] == q;
        }
      }
      assert Ids(r) == Ids(s) + {p.id} by {
        forall j | 0 <= j < |s| ensures r[j] == s[j] { }
      }
      r
  }

  // ---------------------------------------------------------------------
  // The policy store
  // ---------------------------------------------------------------------

  /** The policy table, with the log of household policy-aggregate
      refreshes the enrollment code has triggered. */
  class PolicyStore {
    var policies: seq<Policy>
    var nextId: nat
    ghost var refreshes: seq<Refresh>

    /** Row identifiers are distinct and below the next identifier. */
    ghost predicate Valid()
      reads this
    {
      (forall i :: 0 <= i < |policies| ==> policies[i].id < nextId) &&
      (forall i, j :: 0 <= i < j < |policies| ==> policies[i].id != policies[j].id)
    }

    /** The table, the next identifier and the log, as one value. */
    ghost function Snapshot(): Tables
      reads this
    {
      Tables(policies, nextId, refreshes)
    }

    constructor ()
      ensures Valid() && policies == [] && refreshes == []
    {
      policies := [];
      nextId := 1;
      refreshes := [];
    }

    /** The policy's `save()`: update the row with its identifier, or insert it. */
    method Save(p: Policy)
      requires Valid()
      modifies this
      ensures Valid()
      ensures policies == Saved(old(policies), p)
      ensures refreshes == old(refreshes)
    {
      var s := policies;
      policies := Saved(policies, p);
      if p.id !in Ids(s) {
        assert policies == s + [p];
        if nextId <= p.id {
          nextId := p.id + 1;
        }
      } else {
        assert |policies| == |s|;
        assert forall i :: 0 <= i < |s| ==> policies[i].id == s[i].id;
      }
    }

    /** Find-or-create a policy for the family and product, with the expiry
        date the rules give; the aggregate refresh runs once whenever a
        policy comes back. */
    method GetOrCreatePolicy(ins: Insuree, family: Family, product: Product, cfg: Config, now: Date)
      returns (r: Result<Materialized>)
      requires Valid() && ValidDate(ins.dob) && ValidDate(now)
      modifies this
      ensures Valid()
      ensures (r, policies) == GetOrCreate(old(policies), old(nextId), family.id, product, now,
                                           ExpiryDate(ins, product, cfg, now))
      ensures r.Success? ==> refreshes == old(refreshes) + [Refresh(r.value.policy.id, SystemUser)]
      ensures r.Failure? ==> refreshes == old(refreshes)
      ensures nextId == old(nextId) + |policies| - |old(policies)|
    {
      var expiry := ExpiryDate(ins, product, cfg, now);
      var found := ActiveMatches(policies, family.id, product.id);
      if |found| > 1 {
        return Failure(MultiplePolicies(family.id, product.id));
      }
      if |found| == 1 {
        r := Success(Materialized(found[0], false));
      } else {
        var p := NewPolicy(nextId, family.id, product, now, expiry);
        assert forall i :: 0 <= i < |policies| ==> policies[i].id != p.id;
        policies := policies + [p];
        nextId := nextId + 1;
        r := Success(Materialized(p, true));
      }
      refreshes := refreshes + [Refresh(r.value.policy.id, SystemUser)];
    }

    /** Activate the policy when it is free and idle, save it, and refresh the
        household aggregate; otherwise change nothing. The caller's copy of
        the policy comes back as `r`. */
    method ActivateIfFreeAndIdle(p: Policy) returns (r: Policy)
      requires Valid()
      modifies this
      ensures Valid()
      ensures r == Activated(p)
      ensures FreeAndIdle(p) ==>
        policies == Saved(old(policies), r) &&
        refreshes == old(refreshes) + [Refresh(r.id, SystemUser)]
      ensures !FreeAndIdle(p) ==>
        policies == old(policies) && nextId == old(nextId) && refreshes == old(refreshes)
    {
      r := p;
      if p.value == 0.0 && p.status == Idle {
        r := r.(enrollDate := r.startDate, effectiveDate := r.startDate, status := Active);
        Save(r);
        refreshes := refreshes + [Refresh(r.id, SystemUser)];
      }
    }

    /** One pass of the per-code loop: resolve the code to its live product
        and find-or-create the household's policy for it. */
    method EnrollInProduct(ins: Insuree, fam: Family, code: Code, cfg: Config,
                           catalog: seq<Product>, now: Date) returns (r: Outcome)
      requires Valid() && ValidDate(ins.dob) && ValidDate(now)
      modifies this
      ensures Valid()
      // the result and the new table, identifier and log are one step of the
      // loop's specification: the product lookup, then the find-or-create
      // with one refresh of the policy it returns; any failure writes nothing
      ensures (r, Snapshot()) == EnrollStep(old(Snapshot()), ins, fam, code, cfg, catalog, now)
    {
      var product := GetAutoenrollProduct(catalog, code);
      if product.Failure? {
        return Fail(product.error);
      }
      var got := GetOrCreatePolicy(ins, fam, product.value, cfg, now);
      if got.Failure? {
        return Fail(got.error);
      }
      r := Pass;
    }

    /** Enroll the insuree's household in every product the insuree is
        eligible for. With no insuree nothing happens; with no household the
        run fails before anything is written. */
    method AutoenrollFamily(insuree: Option<Insuree>, family: Option<Family>, cfg: Config,
                            catalog: seq<Product>, now: Date) returns (r: Outcome, ghost order: seq<Code>)
      requires Valid() && ValidDate(now)
      requires insuree.Some? ==> ValidDate(insuree.value.dob)
      modifies this
      ensures Valid()
      ensures old(policies) <= policies && old(refreshes) <= refreshes
      ensures insuree.None? ==>
        r == Pass && policies == old(policies) && nextId == old(nextId) && refreshes == old(refreshes)
      ensures r == Fail(MissingFamily) <==> insuree.Some? && HouseholdOf(insuree.value, family).None?
      ensures r == Fail(MissingFamily) ==>
        policies == old(policies) && nextId == old(nextId) && refreshes == old(refreshes)
      // otherwise the run is the per-code loop over the insuree's eligible codes
      ensures insuree.Some? && HouseholdOf(insuree.value, family).Some? ==>
        var ins := insuree.value;
        var fam := HouseholdOf(ins, family).value;
        var codes := DetermineEligibility(ins, fam, cfg);
        EnrollmentWrites(old(policies), policies, old(refreshes), refreshes, ins, fam, cfg, catalog, now, codes) &&
        (r == Pass ==>
          AllEnrolledIn(policies, catalog, fam.id, codes) && |refreshes| == |old(refreshes)| + |codes|) &&
        (r.Fail? ==> r.error != MissingFamily) &&
        (r.Fail? && (r.error.ProductNotFound? || r.error.MultipleProducts?) ==> r.error.code in codes)
      // and, exactly, the loop's specification run over the codes in the
      // order the set happened to yield them
      ensures insuree.Some? && HouseholdOf(insuree.value, family).Some? ==>
        var ins := insuree.value;
        var fam := HouseholdOf(ins, family).value;
        var codes := DetermineEligibility(ins, fam, cfg);
        RunCodes(old(Snapshot()), order, ins, fam, cfg, catalog, now) == (r, Snapshot()) &&
        (forall c :: c in order ==> c in codes) &&
        Distinct(order) &&
        (r == Pass ==> forall c :: c in codes ==> c in order)
    {
      order := [];
      if insuree.None? {
        return Pass, order;
      }
      var ins := insuree.value;
      var household := HouseholdOf(ins, family);
      if household.None? {
        return Fail(MissingFamily), order;
      }
      r, order := EnrollInCodes(ins, household.value, DetermineEligibility(ins, household.value, cfg), cfg, catalog, now);
    }

    /** The per-code loop: one lookup and find-or-create per code, in no
        fixed order. The first failure ends the run; rows written before it
        stay. */
    method EnrollInCodes(ins: Insuree, fam: Family, codes: set<Code>, cfg: Config,
                         catalog: seq<Product>, now: Date) returns (r: Outcome, ghost order: seq<Code>)
      requires Valid() && ValidDate(ins.dob) && ValidDate(now)
      modifies this
      ensures Valid()
      // the run is the loop's specification over the codes in the order
      // taken, each code at most once, and all of them when it passes
      ensures RunCodes(old(Snapshot()), order, ins, fam, cfg, catalog, now) == (r, Snapshot())
      ensures forall c :: c in order ==> c in codes
      ensures Distinct(order)
      ensures r == Pass ==> forall c :: c in codes ==> c in order
      ensures EnrollmentWrites(old(policies), policies, old(refreshes), refreshes, ins, fam, cfg, catalog, now, codes)
      ensures r == Pass ==>
        AllEnrolledIn(policies, catalog, fam.id, codes) && |refreshes| == |old(refreshes)| + |codes|
      ensures r.Fail? ==>
        r.error.MultiplePolicies? ||
        ((r.error.ProductNotFound? || r.error.MultipleProducts?) && r.error.code in codes)
    {
      var todo := codes;
      order := [];
      while todo != {}
        invariant Valid()
        invariant todo <= codes
        invariant forall c :: c in codes ==> c in order || c in todo
        invariant forall c :: c in order ==> c in codes && c !in todo
        invariant Distinct(order)
        invariant |order| + |todo| == |codes|
        invariant RunCodes(old(Snapshot()), order, ins, fam, cfg, catalog, now) == (Pass, Snapshot())
        decreases todo
      {
        var code :| code in todo;
        var rest := todo - {code};
        ghost var before := Snapshot();
        RunCodesSnoc(old(Snapshot()), order, code, ins, fam, cfg, catalog, now);
        var step := EnrollInProduct(ins, fam, code, cfg, catalog, now);
        assert (step, Snapshot()) == EnrollStep(before, ins, fam, code, cfg, catalog, now);
        DistinctAppend(order, code);
        order := order + [code];
        if step.Fail? {
          RunCodesWrites(old(Snapshot()), order, ins, fam, cfg, catalog, now, codes);
          return step, order;
        }
        todo := rest;
      }
      RunCodesWrites(old(Snapshot()), order, ins, fam, cfg, catalog, now, codes);
      RunCodesEnrollsAll(old(Snapshot()), order, ins, fam, cfg, catalog, now, codes);
      r := Pass;
    }
  }

  /** The household the enrollment works on: the one given, else the
      insuree's own. */
  function HouseholdOf(ins: Insuree, family: Option<Family>): (r: Option<Family>)
    ensures r.None? <==> family.None? && ins.family.None?
    ensures family.Some? ==> r == family
    ensures family.None? ==> r == ins.family
  {
    if family.Some? then family else ins.family
  }

  predicate AllEnrolledIn(policies: seq<Policy>, catalog: seq<Product>, familyId: nat, codes: set<Code>) {
    forall c :: c in codes ==> EnrolledIn(policies, catalog, familyId, c)
  }

  /** Appending rows never undoes an enrollment. */
  lemma {:induction false} AllEnrolledInKeptByAppend(
    s: seq<Policy>, t: seq<Policy>, catalog: seq<Product>, familyId: nat, codes: set<Code>)
    requires AllEnrolledIn(s, catalog, familyId, codes)
    ensures AllEnrolledIn(s + t, catalog, familyId, codes)
  {
    forall c | c in codes
      ensures EnrolledIn(s + t, catalog, familyId, c)
    {
      var product := GetAutoenrollProduct(catalog, c).value;
      FilterKeepsFoundRows(s, t, LiveActiveFor(familyId, product.id));
    }
  }

  /** The code resolves to one live product and the family holds a live
      ACTIVE policy for it. */
  predicate EnrolledIn(policies: seq<Policy>, catalog: seq<Product>, familyId: nat, code: Code) {
    var product := GetAutoenrollProduct(catalog, code);
    product.Success? && ActiveMatches(policies, familyId, product.value.id) != []
  }

  // ---------------------------------------------------------------------
  // What the per-code loop writes
  // ---------------------------------------------------------------------

  /** What a run of the per-code loop over `codes` may have written, going
      from rows `s0` and log `log0` to rows `s` and log `log`: rows are only
      appended, each a fresh policy of the household for one of the codes;
      refreshes are only appended, each naming a stored live ACTIVE row of
      the household for one of the codes; and there are no more new rows
      than new refreshes, nor more new refreshes than codes. */
  ghost predicate EnrollmentWrites(
    s0: seq<Policy>, s: seq<Policy>, log0: seq<Refresh>, log: seq<Refresh>,
    ins: Insuree, fam: Family, cfg: Config, catalog: seq<Product>, now: Date, codes: set<Code>)
    requires ValidDate(ins.dob) && ValidDate(now)
  {
    s0 <= s && log0 <= log &&
    (forall i :: |s0| <= i < |s| ==> AddedFor(s[i], ins, fam, cfg, catalog, now, codes)) &&
    (forall k :: |log0| <= k < |log| ==> LoggedFor(log[k], s, catalog, fam.id, codes)) &&
    |s| - |s0| <= |log| - |log0| <= |codes|
  }

  /** A successful pass of the loop for one of the codes keeps what the
      loop has written within `EnrollmentWrites` and enrolls the family for
      that code without undoing earlier enrollments. */
  lemma {:induction false} EnrollStepWrites(
    s0: seq<Policy>, s1: seq<Policy>, log0: seq<Refresh>, log1: seq<Refresh>, freshId: nat,
    ins: Insuree, fam: Family, cfg: Config, catalog: seq<Product>, now: Date,
    code: Code, codes: set<Code>, done: set<Code>)
    requires ValidDate(ins.dob) && ValidDate(now)
    requires EnrollmentWrites(s0, s1, log0, log1, ins, fam, cfg, catalog, now, codes)
    requires AllEnrolledIn(s1, catalog, fam.id, done)
    requires code in codes && |log1| - |log0| < |codes|
    requires GetAutoenrollProduct(catalog, code).Success?
    ensures var product := GetAutoenrollProduct(catalog, code).value;
      var o := GetOrCreate(s1, freshId, fam.id, product, now, ExpiryDate(ins, product, cfg, now));
      o.0.Success? ==>
        var log2 := log1 + [Refresh(o.0.value.policy.id, SystemUser)];
        EnrollmentWrites(s0, o.1, log0, log2, ins, fam, cfg, catalog, now, codes) &&
        AllEnrolledIn(o.1, catalog, fam.id, done + {code})
  {
    var product := GetAutoenrollProduct(catalog, code).value;
    var o := GetOrCreate(s1, freshId, fam.id, product, now, ExpiryDate(ins, product, cfg, now));
    if o.0.Success? {
      var log2 := log1 + [Refresh(o.0.value.policy.id, SystemUser)];
      GetOrCreateAppendsFor(s1, freshId, ins, fam, cfg, catalog, now, code);
      GetOrCreateRefreshFor(s1, freshId, ins, fam, cfg, catalog, now, code);
      EnrollmentWritesStep(s0, s1, o.1, log0, log1, log2, ins, fam, cfg, catalog, now, code, codes);
      AllEnrolledInKeptByAppend(s1, o.1[|s1|..], catalog, fam.id, done);
      assert s1 + o.1[|s1|..] == o.1;
    }
  }

  /** One successful step of the loop keeps what the loop has written so far
      within `EnrollmentWrites`. */
  lemma {:induction false} EnrollmentWritesStep(
    s0: seq<Policy>, s1: seq<Policy>, s2: seq<Policy>,
    log0: seq<Refresh>, log1: seq<Refresh>, log2: seq<Refresh>,
    ins: Insuree, fam: Family, cfg: Config, catalog: seq<Product>, now: Date, code: Code, codes: set<Code>)
    requires ValidDate(ins.dob) && ValidDate(now)
    requires EnrollmentWrites(s0, s1, log0, log1, ins, fam, cfg, catalog, now, codes)
    requires code in codes && |log1| - |log0| < |codes|
    requires s1 <= s2 && |s2| <= |s1| + 1
    requires forall i :: |s1| <= i < |s2| ==> IsNewPolicyFor(s2[i], ins, fam, cfg, catalog, now, code)
    requires |log2| == |log1| + 1 && log1 <= log2
    requires RefreshOf(log2[|log2| - 1], s2, catalog, fam.id, code)
    ensures EnrollmentWrites(s0, s2, log0, log2, ins, fam, cfg, catalog, now, codes)
  {
    AddedRowsKept(s1, s2, |s0|, ins, fam, cfg, catalog, now, code, codes);
    assert log2 == log1 + [log2[|log2| - 1]];
    LoggedStep(log1, |log0|, log2[|log2| - 1], s1, s2, catalog, fam.id, code, codes);
  }

  /** `q` is the fresh policy the find-or-create inserts for the household
      and the live product of `code`: dated `now`, with the expiry the rules
      give. */
  predicate IsNewPolicyFor(q: Policy, ins: Insuree, fam: Family, cfg: Config,
                           catalog: seq<Product>, now: Date, code: Code)
    requires ValidDate(ins.dob) && ValidDate(now)
  {
    var product := GetAutoenrollProduct(catalog, code);
    product.Success? &&
    q == NewPolicy(q.id, fam.id, product.value, now, ExpiryDate(ins, product.value, cfg, now))
  }

  /** `q` is a fresh policy of the household for one of the codes. */
  predicate AddedFor(q: Policy, ins: Insuree, fam: Family, cfg: Config,
                     catalog: seq<Product>, now: Date, codes: set<Code>)
    requires ValidDate(ins.dob) && ValidDate(now)
  {
    exists c :: c in codes && IsNewPolicyFor(q, ins, fam, cfg, catalog, now, c)
  }

  /** `e` is a refresh by the system user of a stored live ACTIVE row of the
      family for the live product of `code`. */
  predicate RefreshOf(e: Refresh, policies: seq<Policy>, catalog: seq<Product>, familyId: nat, code: Code) {
    var product := GetAutoenrollProduct(catalog, code);
    e.user == SystemUser && product.Success? &&
    exists q :: q in policies && q.id == e.policyId && IsLiveActive(q, familyId, product.value.id)
  }

  /** `e` is a refresh for one of the codes. */
  predicate LoggedFor(e: Refresh, policies: seq<Policy>, catalog: seq<Product>, familyId: nat, codes: set<Code>) {
    exists c :: c in codes && RefreshOf(e, policies, catalog, familyId, c)
  }

  /** One find-or-create for the live product of `code` only appends, at
      most one row, and that row is the fresh policy for the code. */
  lemma {:induction false} GetOrCreateAppendsFor(
    s: seq<Policy>, freshId: nat, ins: Insuree, fam: Family, cfg: Config,
    catalog: seq<Product>, now: Date, code: Code)
    requires ValidDate(ins.dob) && ValidDate(now)
    requires GetAutoenrollProduct(catalog, code).Success?
    ensures var product := GetAutoenrollProduct(catalog, code).value;
      var o := GetOrCreate(s, freshId, fam.id, product, now, ExpiryDate(ins, product, cfg, now));
      s <= o.1 && |o.1| <= |s| + 1 &&
      forall i :: |s| <= i < |o.1| ==> IsNewPolicyFor(o.1[i], ins, fam, cfg, catalog, now, code)
  {
    var product := GetAutoenrollProduct(catalog, code).value;
    var expiry := ExpiryDate(ins, product, cfg, now);
    var o := GetOrCreate(s, freshId, fam.id, product, now, expiry);
    if ActiveMatches(s, fam.id, product.id) == [] {
      var p := NewPolicy(freshId, fam.id, product, now, expiry);
      assert IsNewPolicyFor(p, ins, fam, cfg, catalog, now, code);
      assert o.1 == s + [p];
      forall i | |s| <= i < |o.1|
        ensures IsNewPolicyFor(o.1[i], ins, fam, cfg, catalog, now, code)
      {
        assert i == |s| && o.1[i] == p;
      }
    } else {
      assert o.1 == s;
    }
  }

  /** When a find-or-create for the live product of `code` succeeds, the
      refresh it triggers names a stored live ACTIVE row of the family for
      that product, and the family is enrolled for the code. */
  lemma {:induction false} GetOrCreateRefreshFor(
    s: seq<Policy>, freshId: nat, ins: Insuree, fam: Family, cfg: Config,
    catalog: seq<Product>, now: Date, code: Code)
    requires ValidDate(ins.dob) && ValidDate(now)
    requires GetAutoenrollProduct(catalog, code).Success?
    ensures var product := GetAutoenrollProduct(catalog, code).value;
      var o := GetOrCreate(s, freshId, fam.id, product, now, ExpiryDate(ins, product, cfg, now));
      o.0.Success? ==>
        RefreshOf(Refresh(o.0.value.policy.id, SystemUser), o.1, catalog, fam.id, code) &&
        EnrolledIn(o.1, catalog, fam.id, code)
  {
    var product := GetAutoenrollProduct(catalog, code).value;
    var o := GetOrCreate(s, freshId, fam.id, product, now, ExpiryDate(ins, product, cfg, now));
    if o.0.Success? {
      var q := o.0.value.policy;
      assert ActiveMatches(o.1, fam.id, product.id) == [q];
      assert q in ActiveMatches(o.1, fam.id, product.id);
    }
  }

  /** The rows a step adds for one of the codes extend the rows already
      added for them. */
  lemma {:induction false} AddedRowsKept(
    s: seq<Policy>, t: seq<Policy>, lo: nat, ins: Insuree, fam: Family, cfg: Config,
    catalog: seq<Product>, now: Date, code: Code, codes: set<Code>)
    requires ValidDate(ins.dob) && ValidDate(now)
    requires s <= t && lo <= |s| && code in codes
    requires forall i :: lo <= i < |s| ==> AddedFor(s[i], ins, fam, cfg, catalog, now, codes)
    requires forall i :: |s| <= i < |t| ==> IsNewPolicyFor(t[i], ins, fam, cfg, catalog, now, code)
    ensures forall i :: lo <= i < |t| ==> AddedFor(t[i], ins, fam, cfg, catalog, now, codes)
  {
    forall i | lo <= i < |t|
      ensures AddedFor(t[i], ins, fam, cfg, catalog, now, codes)
    {
      if i < |s| {
        assert t[i] == s[i];
      } else {
        assert IsNewPolicyFor(t[i], ins, fam, cfg, catalog, now, code);
      }
    }
  }

  /** Appending rows keeps every logged refresh naming a stored row. */
  lemma {:induction false} LoggedKeptByAppend(
    log: seq<Refresh>, lo: nat, s: seq<Policy>, t: seq<Policy>,
    catalog: seq<Product>, familyId: nat, codes: set<Code>)
    requires s <= t
    requires forall k :: lo <= k < |log| ==> LoggedFor(log[k], s, catalog, familyId, codes)
    ensures forall k :: lo <= k < |log| ==> LoggedFor(log[k], t, catalog, familyId, codes)
  {
    forall k | lo <= k < |log|
      ensures LoggedFor(log[k], t, catalog, familyId, codes)
    {
      var c :| c in codes && RefreshOf(log[k], s, catalog, familyId, c);
      var product := GetAutoenrollProduct(catalog, c).value;
      var q :| q in s && q.id == log[k].policyId && IsLiveActive(q, familyId, product.id);
      var j :| 0 <= j < |s| && s[j] == q;
      assert t[j] == q;
      assert RefreshOf(log[k], t, catalog, familyId, c);
    }
  }

  /** A step's refresh for one of the codes extends the refreshes already
      logged for them. */
  lemma {:induction false} LoggedStep(
    log: seq<Refresh>, lo: nat, e: Refresh, s: seq<Policy>, t: seq<Policy>,
    catalog: seq<Product>, familyId: nat, code: Code, codes: set<Code>)
    requires s <= t && lo <= |log| && code in codes
    requires forall k :: lo <= k < |log| ==> LoggedFor(log[k], s, catalog, familyId, codes)
    requires RefreshOf(e, t, catalog, familyId, code)
    ensures forall k :: lo <= k < |log + [e]| ==> LoggedFor((log + [e])[k], t, catalog, familyId, codes)
  {
    LoggedKeptByAppend(log, lo, s, t, catalog, familyId, codes);
    forall k | lo <= k < |log + [e]|
      ensures LoggedFor((log + [e])[k], t, catalog, familyId, codes)
    {
      if k == |log| {
        assert RefreshOf((log + [e])[k], t, catalog, familyId, code);
      } else {
        assert (log + [e])[k] == log[k];
      }
    }
  }

  // ---------------------------------------------------------------------
  // The per-code loop as a specification
  // ---------------------------------------------------------------------

  /** The policy table, the next row identifier and the refresh log. */
  datatype Tables = Tables(policies: seq<Policy>, nextId: nat, refreshes: seq<Refresh>)

  /** One pass of the per-code loop over the tables `t`: the product lookup,
      then the find-or-create with the expiry the rules give, then one
      refresh of the policy it returns. A failure leaves the tables as they
      were. */
  function EnrollStep(t: Tables, ins: Insuree, fam: Family, code: Code, cfg: Config,
                      catalog: seq<Product>, now: Date): (o: (Outcome, Tables))
    requires ValidDate(ins.dob) && ValidDate(now)
    // rows are only appended, at most one
    ensures t.policies <= o.1.policies && |o.1.policies| <= |t.policies| + 1
    ensures o.0.Fail? ==> o.1 == t
    ensures o.0.Fail? ==>
      o.0.error == ProductNotFound(code) || o.0.error == MultipleProducts(code) || o.0.error.MultiplePolicies?
    // on success the code's key matches exactly one row, and that row is refreshed
    ensures o.0 == Pass ==>
      HeldOnce(o.1.policies, catalog, fam.id, code) &&
      o.1.refreshes == t.refreshes + [Refresh(HeldRow(o.1.policies, catalog, fam.id, code).id, SystemUser)]
    // a row is created exactly when the code resolves and its key matched
    // nothing; it is the fresh policy under the next identifier
    ensures |o.1.policies| > |t.policies| <==>
      GetAutoenrollProduct(catalog, code).Success? &&
      ActiveMatches(t.policies, fam.id, GetAutoenrollProduct(catalog, code).value.id) == []
    ensures |o.1.policies| > |t.policies| ==>
      var product := GetAutoenrollProduct(catalog, code).value;
      o.1.policies[|t.policies|] == NewPolicy(t.nextId, fam.id, product, now, ExpiryDate(ins, product, cfg, now)) &&
      o.1.nextId == t.nextId + 1
    ensures |o.1.policies| == |t.policies| ==> o.1.nextId == t.nextId
  {
    var product := GetAutoenrollProduct(catalog, code);
    if product.Failure? then (Fail(product.error), t)
    else
      var o := GetOrCreate(t.policies, t.nextId, fam.id, product.value, now,
                           ExpiryDate(ins, product.value, cfg, now));
      if o.0.Failure? then (Fail(o.0.error), t)
      else
        assert o.0.value.policy in ActiveMatches(o.1, fam.id, product.value.id);
        (Pass, Tables(o.1, t.nextId + |o.1| - |t.policies|,
                      t.refreshes + [Refresh(o.0.value.policy.id, SystemUser)]))
  }

  /** When a step fails, and with which error: exactly when the product
      lookup fails, with the lookup's own error, or when the family's key for
      the product matches more than one row, with `MultiplePolicies` for that
      key. */
  lemma EnrollStepFailsExactly(t: Tables, ins: Insuree, fam: Family, code: Code, cfg: Config,
                               catalog: seq<Product>, now: Date)
    requires ValidDate(ins.dob) && ValidDate(now)
    ensures var o := EnrollStep(t, ins, fam, code, cfg, catalog, now);
      var product := GetAutoenrollProduct(catalog, code);
      (o.0.Fail? <==> product.Failure? || |ActiveMatches(t.policies, fam.id, product.value.id)| > 1) &&
      (product.Failure? ==> o.0 == Fail(product.error)) &&
      (product.Success? && o.0.Fail? ==> o.0.error == MultiplePolicies(fam.id, product.value.id))
  {
  }

  /** The code resolves to one live product and the family's key for it
      matches exactly one stored row. */
  predicate HeldOnce(policies: seq<Policy>, catalog: seq<Product>, familyId: nat, code: Code) {
    var product := GetAutoenrollProduct(catalog, code);
    product.Success? && |ActiveMatches(policies, familyId, product.value.id)| == 1
  }

  /** The one row the family's key for the code matches. */
  function HeldRow(policies: seq<Policy>, catalog: seq<Product>, familyId: nat, code: Code): Policy
    requires HeldOnce(policies, catalog, familyId, code)
  {
    ActiveMatches(policies, familyId, GetAutoenrollProduct(catalog, code).value.id)[0]
  }

  /** The per-code loop over the codes in the order `order`, from the tables
      `t`: one step per code, ending at the first failure. */
  function RunCodes(t: Tables, order: seq<Code>, ins: Insuree, fam: Family, cfg: Config,
                    catalog: seq<Product>, now: Date): (o: (Outcome, Tables))
    requires ValidDate(ins.dob) && ValidDate(now)
    ensures t.policies <= o.1.policies && t.refreshes <= o.1.refreshes
    ensures |o.1.policies| - |t.policies| <= |o.1.refreshes| - |t.refreshes| <= |order|
    ensures o.0 == Pass ==> |o.1.refreshes| == |t.refreshes| + |order|
    decreases |order|
  {
    if order == [] then (Pass, t)
    else
      var prev := RunCodes(t, order[..|order| - 1], ins, fam, cfg, catalog, now);
      if prev.0.Fail? then prev
      else EnrollStep(prev.1, ins, fam, order[|order| - 1], cfg, catalog, now)
  }

  /** Running one more code is one more step after the run so far. */
  lemma RunCodesSnoc(t: Tables, order: seq<Code>, code: Code, ins: Insuree, fam: Family, cfg: Config,
                     catalog: seq<Product>, now: Date)
    requires ValidDate(ins.dob) && ValidDate(now)
    ensures var prev := RunCodes(t, order, ins, fam, cfg, catalog, now);
      RunCodes(t, order + [code], ins, fam, cfg, catalog, now) ==
        if prev.0.Fail? then prev else EnrollStep(prev.1, ins, fam, code, cfg, catalog, now)
  {
    assert (order + [code])[..|order|] == order;
  }

  /** A run that passes over every code of `codes` leaves the household
      enrolled in all of them. */
  lemma {:induction false} RunCodesEnrollsAll(
    t: Tables, order: seq<Code>, ins: Insuree, fam: Family, cfg: Config, catalog: seq<Product>, now: Date,
    codes: set<Code>)
    requires ValidDate(ins.dob) && ValidDate(now)
    requires RunCodes(t, order, ins, fam, cfg, catalog, now).0 == Pass
    requires forall c :: c in codes ==> c in order
    ensures AllEnrolledIn(RunCodes(t, order, ins, fam, cfg, catalog, now).1.policies, catalog, fam.id, codes)
  {
    var o := RunCodes(t, order, ins, fam, cfg, catalog, now);
    RunCodesEnrollsEach(t, order, ins, fam, cfg, catalog, now);
    forall c | c in codes
      ensures EnrolledIn(o.1.policies, catalog, fam.id, c)
    {
      assert HeldOnce(o.1.policies, catalog, fam.id, c);
    }
  }

  /** A step never disturbs a key that already matched: its rows stay
      exactly as they were. */
  lemma {:induction false} EnrollStepKeepsMatches(
    t: Tables, ins: Insuree, fam: Family, code: Code, cfg: Config,
    catalog: seq<Product>, now: Date, productId: nat)
    requires ValidDate(ins.dob) && ValidDate(now)
    requires ActiveMatches(t.policies, fam.id, productId) != []
    ensures ActiveMatches(EnrollStep(t, ins, fam, code, cfg, catalog, now).1.policies, fam.id, productId)
         == ActiveMatches(t.policies, fam.id, productId)
  {
    var o := EnrollStep(t, ins, fam, code, cfg, catalog, now);
    if |o.1.policies| == |t.policies| {
      assert o.1.policies == t.policies;
    } else {
      var product := GetAutoenrollProduct(catalog, code).value;
      var x := o.1.policies[|t.policies|];
      assert o.1.policies == t.policies + [x];
      assert product.id != productId;
      assert !LiveActiveFor(fam.id, productId)(x);
      FilterAppend(t.policies, x, LiveActiveFor(fam.id, productId));
    }
  }

  /** One refresh per code of `order`, in that order, each naming the row
      the family's key for the code matches. */
  function HeldLog(policies: seq<Policy>, catalog: seq<Product>, familyId: nat, order: seq<Code>): (r: seq<Refresh>)
    requires forall c :: c in order ==> HeldOnce(policies, catalog, familyId, c)
    ensures |r| == |order|
    decreases |order|
  {
    if order == [] then []
    else
      assert forall c :: c in order[..|order| - 1] ==> c in order;
      HeldLog(policies, catalog, familyId, order[..|order| - 1]) +
        [Refresh(HeldRow(policies, catalog, familyId, order[|order| - 1]).id, SystemUser)]
  }

  /** The log of held rows depends only on the rows the codes' keys match. */
  lemma {:induction false} HeldLogKept(
    s: seq<Policy>, s': seq<Policy>, catalog: seq<Product>, familyId: nat, order: seq<Code>)
    requires forall c :: c in order ==> HeldOnce(s, catalog, familyId, c)
    requires forall c :: c in order ==>
      HeldOnce(s', catalog, familyId, c) && HeldRow(s', catalog, familyId, c) == HeldRow(s, catalog, familyId, c)
    ensures HeldLog(s', catalog, familyId, order) == HeldLog(s, catalog, familyId, order)
    decreases |order|
  {
    if order != [] {
      var init := order[..|order| - 1];
      assert forall c :: c in init ==> c in order;
      assert order[|order| - 1] in order;
      HeldLogKept(s, s', catalog, familyId, init);
    }
  }

  /** After a run that succeeds, every processed code's key matches exactly
      one row, and the new refreshes are exactly one per code, in order,
      each naming that code's row. */
  lemma {:induction false} RunCodesEnrollsEach(
    t: Tables, order: seq<Code>, ins: Insuree, fam: Family, cfg: Config, catalog: seq<Product>, now: Date)
    requires ValidDate(ins.dob) && ValidDate(now)
    ensures var o := RunCodes(t, order, ins, fam, cfg, catalog, now);
      o.0 == Pass ==>
        (forall c :: c in order ==> HeldOnce(o.1.policies, catalog, fam.id, c)) &&
        o.1.refreshes == t.refreshes + HeldLog(o.1.policies, catalog, fam.id, order)
    decreases |order|
  {
    var o := RunCodes(t, order, ins, fam, cfg, catalog, now);
    if order != [] && o.0 == Pass {
      var n := |order| - 1;
      var init := order[..n];
      var prev := RunCodes(t, init, ins, fam, cfg, catalog, now);
      RunCodesEnrollsEach(t, init, ins, fam, cfg, catalog, now);
      assert prev.0 == Pass;
      EnrollStepExtendsHeldLog(prev.1, t.refreshes, order, ins, fam, cfg, catalog, now);
    }
  }

  /** A successful step for the last code of `order`, after the codes before
      it are all held with their refreshes logged in order, leaves all of
      `order` held with their refreshes logged in order. */
  lemma {:induction false} EnrollStepExtendsHeldLog(
    t: Tables, log0: seq<Refresh>, order: seq<Code>, ins: Insuree, fam: Family,
    cfg: Config, catalog: seq<Product>, now: Date)
    requires ValidDate(ins.dob) && ValidDate(now)
    requires order != []
    requires forall c :: c in order[..|order| - 1] ==> HeldOnce(t.policies, catalog, fam.id, c)
    requires t.refreshes == log0 + HeldLog(t.policies, catalog, fam.id, order[..|order| - 1])
    requires EnrollStep(t, ins, fam, order[|order| - 1], cfg, catalog, now).0 == Pass
    ensures var o := EnrollStep(t, ins, fam, order[|order| - 1], cfg, catalog, now);
      (forall c :: c in order ==> HeldOnce(o.1.policies, catalog, fam.id, c)) &&
      o.1.refreshes == log0 + HeldLog(o.1.policies, catalog, fam.id, order)
  {
    var n := |order| - 1;
    var init, code := order[..n], order[n];
    var o := EnrollStep(t, ins, fam, code, cfg, catalog, now);
    forall c | c in init
      ensures HeldOnce(o.1.policies, catalog, fam.id, c) &&
        HeldRow(o.1.policies, catalog, fam.id, c) == HeldRow(t.policies, catalog, fam.id, c)
    {
      EnrollStepKeepsHeld(t, ins, fam, code, cfg, catalog, now, c);
    }
    HeldLogSnoc(t.policies, o.1.policies, catalog, fam.id, order, log0);
  }

  /** Extending the codes by one whose key the new rows hold, when the
      earlier codes keep their rows, extends the log by that row. */
  lemma {:induction false} HeldLogSnoc(
    s: seq<Policy>, s': seq<Policy>, catalog: seq<Product>, familyId: nat, order: seq<Code>,
    log0: seq<Refresh>)
    requires order != []
    requires forall c :: c in order[..|order| - 1] ==> HeldOnce(s, catalog, familyId, c)
    requires forall c :: c in order[..|order| - 1] ==>
      HeldOnce(s', catalog, familyId, c) && HeldRow(s', catalog, familyId, c) == HeldRow(s, catalog, familyId, c)
    requires HeldOnce(s', catalog, familyId, order[|order| - 1])
    ensures forall c :: c in order ==> HeldOnce(s', catalog, familyId, c)
    ensures log0 + HeldLog(s, catalog, familyId, order[..|order| - 1]) +
              [Refresh(HeldRow(s', catalog, familyId, order[|order| - 1]).id, SystemUser)]
         == log0 + HeldLog(s', catalog, familyId, order)
  {
    var init := order[..|order| - 1];
    forall c | c in order
      ensures HeldOnce(s', catalog, familyId, c)
    {
      InitOrLast(order, c);
    }
    HeldLogKept(s, s', catalog, familyId, init);
  }

  /** No element occurs twice. */
  predicate Distinct<T(==)>(s: seq<T>) {
    forall i, j :: 0 <= i < j < |s| ==> s[i] != s[j]
  }

  /** Appending an element not yet present keeps a sequence free of repeats. */
  lemma DistinctAppend<T>(s: seq<T>, x: T)
    requires Distinct(s) && x !in s
    ensures Distinct(s + [x])
  {
    forall i, j | 0 <= i < j < |s + [x]|
      ensures (s + [x])[i] != (s + [x])[j]
    {
      if j == |s| {
        assert (s + [x])[i] == s[i];
      }
    }
  }

  /** An element of a non-empty sequence is in its prefix or is its last. */
  lemma InitOrLast<T>(s: seq<T>, x: T)
    requires x in s
    ensures x in s[..|s| - 1] || x == s[|s| - 1]
  {
    var i :| 0 <= i < |s| && s[i] == x;
    if i < |s| - 1 {
      assert s[..|s| - 1][i] == x;
    }
  }

  /** A code held once before a step is held once, by the same row, after
      it. */
  lemma {:induction false} EnrollStepKeepsHeld(
    t: Tables, ins: Insuree, fam: Family, code: Code, cfg: Config,
    catalog: seq<Product>, now: Date, held: Code)
    requires ValidDate(ins.dob) && ValidDate(now)
    requires HeldOnce(t.policies, catalog, fam.id, held)
    ensures var o := EnrollStep(t, ins, fam, code, cfg, catalog, now);
      HeldOnce(o.1.policies, catalog, fam.id, held) &&
      HeldRow(o.1.policies, catalog, fam.id, held) == HeldRow(t.policies, catalog, fam.id, held)
  {
    var productId := GetAutoenrollProduct(catalog, held).value.id;
    EnrollStepKeepsMatches(t, ins, fam, code, cfg, catalog, now, productId);
  }

  /** A run over codes whose keys all match exactly one row finds every row
      and creates none, whatever the insuree and the clock. */
  lemma {:induction false} RerunFindsEverything(
    t: Tables, order: seq<Code>, ins: Insuree, fam: Family, cfg: Config, catalog: seq<Product>, now: Date)
    requires ValidDate(ins.dob) && ValidDate(now)
    requires forall c :: c in order ==> HeldOnce(t.policies, catalog, fam.id, c)
    ensures var o := RunCodes(t, order, ins, fam, cfg, catalog, now);
      o.0 == Pass && o.1.policies == t.policies && o.1.nextId == t.nextId
    decreases |order|
  {
    if order != [] {
      var n := |order| - 1;
      var init := order[..n];
      assert forall c :: c in init ==> c in order;
      RerunFindsEverything(t, init, ins, fam, cfg, catalog, now);
      var prev := RunCodes(t, init, ins, fam, cfg, catalog, now);
      assert order[n] in order;
      assert HeldOnce(prev.1.policies, catalog, fam.id, order[n]);
      var o := EnrollStep(prev.1, ins, fam, order[n], cfg, catalog, now);
      assert |o.1.policies| == |prev.1.policies|;
      assert o.1.policies == prev.1.policies;
    }
  }

  /** Enrolling the household a second time, for the same codes or some of
      them (another member of the household, a later clock), succeeds and
      adds no policy: every code finds the policy the first run left. */
  lemma {:induction false} AutoenrollTwiceCreatesNothing(
    t: Tables, order: seq<Code>, order2: seq<Code>, ins: Insuree, ins2: Insuree, fam: Family,
    cfg: Config, catalog: seq<Product>, now: Date, now2: Date)
    requires ValidDate(ins.dob) && ValidDate(now) && ValidDate(ins2.dob) && ValidDate(now2)
    requires RunCodes(t, order, ins, fam, cfg, catalog, now).0 == Pass
    requires forall c :: c in order2 ==> c in order
    ensures var o := RunCodes(t, order, ins, fam, cfg, catalog, now);
      var o2 := RunCodes(o.1, order2, ins2, fam, cfg, catalog, now2);
      o2.0 == Pass && o2.1.policies == o.1.policies && o2.1.nextId == o.1.nextId
  {
    var o := RunCodes(t, order, ins, fam, cfg, catalog, now);
    RunCodesEnrollsEach(t, order, ins, fam, cfg, catalog, now);
    RerunFindsEverything(o.1, order2, ins2, fam, cfg, catalog, now2);
  }

  /** Whatever its outcome, a run over codes drawn from `codes` keeps its
      writes within `EnrollmentWrites`. */
  lemma {:induction false} RunCodesWrites(
    t: Tables, order: seq<Code>, ins: Insuree, fam: Family, cfg: Config, catalog: seq<Product>, now: Date,
    codes: set<Code>)
    requires ValidDate(ins.dob) && ValidDate(now)
    requires forall c :: c in order ==> c in codes
    requires |order| <= |codes|
    ensures var o := RunCodes(t, order, ins, fam, cfg, catalog, now);
      EnrollmentWrites(t.policies, o.1.policies, t.refreshes, o.1.refreshes, ins, fam, cfg, catalog, now, codes)
    decreases |order|
  {
    if order != [] {
      var n := |order| - 1;
      var init := order[..n];
      assert forall c :: c in init ==> c in order;
      RunCodesWrites(t, init, ins, fam, cfg, catalog, now, codes);
      var prev := RunCodes(t, init, ins, fam, cfg, catalog, now);
      if prev.0 == Pass && GetAutoenrollProduct(catalog, order[n]).Success? {
        assert order[n] in order;
        EnrollStepWrites(t.policies, prev.1.policies, t.refreshes, prev.1.refreshes, prev.1.nextId,
                         ins, fam, cfg, catalog, now, order[n], codes, {});
      }
    }
  }
}
