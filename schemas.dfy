/** The two record types the matcher reads: a catalog entry (`Benefit`) and an
    anonymous user profile (`Inquiry`), with their field constraints and the
    truthiness of their optional fields. */
module Schemas {

  datatype Option<+T> = None | Some(value: T)

  /** One public-assistance program. `name`, `description` and `category` are
      required; every other field is optional, and an absent matching signal
      (`min_age` … `requires_dependents`) puts no constraint on its axis.
      `max_income` is a real number: the matcher only compares it with `<=`. */
  datatype Benefit = Benefit(
    name: string,
    agency: Option<string>,
    description: string,
    category: string,
    url: Option<string>,
    eligibility_notes: Option<string>,
    min_age: Option<int>,
    max_age: Option<int>,
    max_income: Option<real>,
    location: Option<string>,
    requires_disability: Option<bool>,
    requires_veteran: Option<bool>,
    requires_dependents: Option<bool>,
    tags: Option<seq<string>>
  )

  /** One anonymous user profile submitted for matching. `employment_status`
      and `housing_status` are carried but never read by the matcher. */
  datatype Inquiry = Inquiry(
    age: Option<int>,
    income: Option<real>,
    location: Option<string>,
    disability: Option<bool>,
    veteran: Option<bool>,
    dependents: Option<int>,
    employment_status: Option<string>,
    housing_status: Option<string>,
    tags: Option<seq<string>>
  )

  const MIN_AGE := 0
  const MAX_AGE := 120

  /** An optional age that, when present, lies in [0, 120]. */
  predicate AgeInRange(a: Option<int>) {
    a.Some? ==> MIN_AGE <= a.value <= MAX_AGE
  }

  /** The field constraints of a `Benefit` record. Nothing relates `min_age`
      to `max_age`: a record with `min_age > max_age` is accepted. */
  predicate ValidBenefit(b: Benefit) {
    && AgeInRange(b.min_age)
    && AgeInRange(b.max_age)
    && (b.max_income.Some? ==> b.max_income.value >= 0.0)
  }

  /** The field constraints of an `Inquiry` record. */
  predicate ValidInquiry(p: Inquiry) {
    && AgeInRange(p.age)
    && (p.income.Some? ==> p.income.value >= 0.0)
    && (p.dependents.Some? ==> p.dependents.value >= 0)
  }

  /** A benefit given only its required fields: every optional field absent
      and `tags` defaulting to the empty list. */
  function NewBenefit(name: string, description: string, category: string): (b: Benefit)
    ensures ValidBenefit(b)
    ensures b.name == name && b.description == description && b.category == category
    ensures b.tags == Some([])
    ensures b.min_age.None? && b.max_age.None? && b.max_income.None? && b.location.None?
    ensures b.requires_disability.None? && b.requires_veteran.None? && b.requires_dependents.None?
  {
    Benefit(name, None, description, category, None, None,
            None, None, None, None, None, None, None, Some([]))
  }

  /** A profile with no field given: every field absent, `tags` the empty list. */
  function NewInquiry(): (p: Inquiry)
    ensures ValidInquiry(p)
    ensures p.tags == Some([])
    ensures p.age.None? && p.income.None? && p.location.None? && p.dependents.None?
    ensures p.disability.None? && p.veteran.None?
    ensures p.employment_status.None? && p.housing_status.None?
  {
    Inquiry(None, None, None, None, None, None, None, None, Some([]))
  }

  // Truthiness of optional fields, as the matcher's conditions test them:
  // an absent value is false, and so are the empty string, `false` and the
  // empty list.

  predicate IsTrue(o: Option<bool>) {
    o == Some(true)
  }

  predicate NonEmptyText(o: Option<string>) {
    o.Some? && o.value != ""
  }

  predicate NonEmptyList<T>(o: Option<seq<T>>) {
    o.Some? && o.value != []
  }
}
