/** Seeding the benefit store with a fixed sample catalog of four programs,
    and what the matcher makes of that catalog. The store itself is a
    document database outside this model; here it is the sequence of benefit
    records it holds. */
module Seed {
  import opened Schemas
  import opened Matcher

  const SNAP := Benefit(
    "SNAP (Food Assistance)", Some("USDA"),
    "Monthly funds on an EBT card to help buy groceries.", "food",
    Some("https://www.fns.usda.gov/snap"),
    Some("Based on household size, income, and expenses."),
    None, None, Some(30000.0), None, None, None, None,
    Some(["low-income", "household"]))

  const MEDICAID := Benefit(
    "Medicaid", Some("State Medicaid Agency"),
    "Free or low-cost health coverage for eligible individuals.", "healthcare",
    Some("https://www.medicaid.gov/"),
    Some("Based on income, disability, pregnancy, and other factors."),
    None, None, Some(28000.0), None, None, None, None,
    Some(["health", "low-income"]))

  const PELL_GRANT := Benefit(
    "Pell Grant", Some("U.S. Department of Education"),
    "Grant to help pay for college, does not need to be repaid.", "education",
    Some("https://studentaid.gov/understand-aid/types/grants/pell"),
    Some("Undergraduate students with exceptional financial need."),
    Some(16), None, Some(60000.0), None, None, None, None,
    Some(["students", "education"]))

  const SECTION_8 := Benefit(
    "Section 8 Housing Choice Voucher", Some("HUD"),
    "Rental assistance vouchers for low-income families.", "housing",
    Some("https://www.hud.gov/"),
    Some("Waitlists common; based on income and family size."),
    None, None, Some(35000.0), None, None, None, Some(true),
    Some(["housing", "family"]))

  /** The sample catalog, in insertion order. */
  const SEED_DATA: seq<Benefit> := [SNAP, MEDICAID, PELL_GRANT, SECTION_8]

  /** The store after seeding, and the number of records inserted. */
  datatype SeedResult = SeedResult(store: seq<Benefit>, inserted: nat)

  /** Seeding: a store that already holds records is left alone; an empty
      store receives the sample catalog. */
  function Seeded(store: seq<Benefit>): (r: SeedResult)
    ensures |r.store| == |store| + r.inserted
    ensures r.store[..|store|] == store
    ensures r.inserted == if store == [] then 4 else 0
  {
    if |store| > 0 then SeedResult(store, 0) else SeedResult(store + SEED_DATA, |SEED_DATA|)
  }

  /** Every sample record satisfies the field constraints of a benefit. */
  lemma SeedDataValid()
    ensures |SEED_DATA| == 4
    ensures forall b :: b in SEED_DATA ==> ValidBenefit(b)
  {
  }

  /** Seeding keeps a store of valid records valid. */
  lemma SeededStaysValid(store: seq<Benefit>)
    requires forall b :: b in store ==> ValidBenefit(b)
    ensures forall b :: b in Seeded(store).store ==> ValidBenefit(b)
  {
  }

  /** Seeding twice in a row inserts the four sample records once in all:
      the second call inserts nothing and changes nothing. */
  lemma SeedTwice(store: seq<Benefit>)
    ensures Seeded(Seeded(store).store).inserted == 0
    ensures Seeded(Seeded(store).store).store == Seeded(store).store
    ensures Seeded(store).inserted + Seeded(Seeded(store).store).inserted == if store == [] then 4 else 0
  {
  }

  /** Seeds the store. The count of existing records decides whether to seed
      at all; if it is zero, each sample record is written in turn and
      counted. */
  method SeedBenefits(store: seq<Benefit>) returns (newStore: seq<Benefit>, inserted: nat)
    ensures SeedResult(newStore, inserted) == Seeded(store)
    ensures store != [] ==> newStore == store && inserted == 0
    ensures store == [] ==> newStore == SEED_DATA && inserted == 4
  {
    var existing := |store|;
    if existing > 0 {
      return store, 0;
    }
    newStore, inserted := store, 0;
    for j := 0 to |SEED_DATA|
      invariant newStore == store + SEED_DATA[..j]
      invariant inserted == j
    {
      newStore := newStore + [SEED_DATA[j]];
      inserted := inserted + 1;
    }
    assert SEED_DATA[..|SEED_DATA|] == SEED_DATA;
  }

  /** A profile stating only an age and an income. */
  function AgeAndIncome(age: int, income: real): (p: Inquiry)
    ensures p.age == Some(age) && p.income == Some(income)
    ensures p.location.None? && p.dependents.None? && p.disability.None? && p.veteran.None?
  {
    NewInquiry().(age := Some(age), income := Some(income))
  }

  /** With a stated income of 25000 at age 20, both SNAP and the Pell Grant
      are kept; at 45000 only the Pell Grant survives SNAP's income cap. */
  lemma SnapAndPellScenario()
    ensures Matches(AgeAndIncome(20, 25000.0), [SNAP, PELL_GRANT]) == [SNAP, PELL_GRANT]
    ensures Matches(AgeAndIncome(20, 45000.0), [SNAP, PELL_GRANT]) == [PELL_GRANT]
  {
    var low, high := AgeAndIncome(20, 25000.0), AgeAndIncome(20, 45000.0);
    assert Eligible(low, SNAP) && Eligible(low, PELL_GRANT);
    assert Excludes(IncomeCap, high, SNAP) && Eligible(high, PELL_GRANT);
    assert [SNAP, PELL_GRANT] == [SNAP] + [PELL_GRANT];
    MatchesAppendOne(low, [], SNAP);
    MatchesAppendOne(low, [SNAP], PELL_GRANT);
    MatchesAppendOne(high, [], SNAP);
    MatchesAppendOne(high, [SNAP], PELL_GRANT);
  }

  /** Against the whole sample catalog, a 20-year-old with an income of
      25000 and no dependents stated is offered everything except the
      housing voucher, which requires dependents. */
  lemma SeedCatalogScenario()
    ensures Matches(AgeAndIncome(20, 25000.0), SEED_DATA) == [SNAP, MEDICAID, PELL_GRANT]
  {
    var p := AgeAndIncome(20, 25000.0);
    assert Eligible(p, SNAP) && Eligible(p, MEDICAID) && Eligible(p, PELL_GRANT);
    assert Excludes(Dependents, p, SECTION_8);
    MatchesAppendOne(p, [], SNAP);
    assert [SNAP, MEDICAID] == [SNAP] + [MEDICAID];
    MatchesAppendOne(p, [SNAP], MEDICAID);
    assert [SNAP, MEDICAID, PELL_GRANT] == [SNAP, MEDICAID] + [PELL_GRANT];
    MatchesAppendOne(p, [SNAP, MEDICAID], PELL_GRANT);
    assert SEED_DATA == [SNAP, MEDICAID, PELL_GRANT] + [SECTION_8];
    MatchesAppendOne(p, [SNAP, MEDICAID, PELL_GRANT], SECTION_8);
  }
}
