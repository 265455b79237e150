# Benefits matcher (Dafny model)

This project models the core of a small benefits-finder backend. A user
submits an anonymous profile (`Inquiry`: age, income, region, disability,
veteran and dependents flags, tags), and the backend returns the programs in
its catalog (`Benefit` records) that the profile is plausibly eligible for.

- `Text` holds ASCII case folding, which is the model of `.lower()`.
- `Schemas` holds the two record types and their field constraints. Every
  optional field is an `Option`. The truthiness of an optional field is
  written out explicitly:
  - an absent string and `""` are both false;
  - an absent flag and `false` are both false;
  - an absent list and `[]` are both false.
- `Matcher` has seven hard-exclusion rules (income cap, minimum age, maximum
  age, region, disability, veteran, dependents), each stated as a predicate.
  A benefit is `Eligible` when no rule excludes it. The specification
  `Matches` keeps the eligible benefits in catalog order. `Assess` is one
  pass of the loop body: it tries the rules in order, rejects the benefit at
  the first rule that fails, and builds the score. Each `continue` of the
  loop body becomes a `return` from `Assess`. `MatchBenefits` is the
  loop itself, and it appends every benefit that `Assess` keeps. The method
  is proved equal to `Matches`. Its ghost output records the score of every benefit it
  keeps; that score lies in [0, 3]. The proof only goes through because the
  final `score >= 0` test is always true, so the score never affects the
  result.
- `Seed` has the four sample records and the seeding rule. A store that
  already holds records gets nothing. An empty store gets the four records,
  and the count reported is 4. The document store is modelled as the
  sequence of records it holds, and seeding returns the new sequence.

The model follows the code on two points:
- The code's `tags` fields are `Optional[List[str]]`, so an explicit `None`
  is possible, and it is modelled that way.
- The field constraints do not include `min_age <= max_age`, because the
  code never checks it.

## Model

| member | source | states |
|---|---|---|
| `Text.LowerChar` | main.py:161 | Lower-cases an ASCII capital by shifting it 32 code points; any other character is returned unchanged, and the result is never a capital |
| `Text.Lower` | main.py:161 | The lower-cased string has the same length and is the per-character lower-casing of the input |
| `Text.LowerIdempotent` | main.py:173 | Lower-casing twice gives the same string as lower-casing once |
| `Text.LowerOfLowerCase` | main.py:161 | A string with no capitals is unchanged by lower-casing |
| `Schemas.ValidBenefit` | schemas.py:54-56 | Definition of the benefit field constraints: present ages in [0, 120] and a present income cap that is at least 0, with no relation required between `min_age` and `max_age`. It is used by `NewBenefit`, `SeedDataValid` and `SeededStaysValid` |
| `Schemas.ValidInquiry` | schemas.py:68-73 | Definition of the profile field constraints: a present age in [0, 120], and a present income and dependent count that are at least 0. It is used by `NewInquiry` and `DependentsRule` |
| `Schemas.IsTrue` | main.py:164-168 | Definition of the truthiness of an optional flag: only `Some(true)` is true, and both absent and `false` are false. Used by `Excludes`, with its consequences stated by `FlagRules` and `DependentsRule` |
| `Schemas.NonEmptyText` | main.py:161 | Definition of the truthiness of an optional string: absent and `""` are false. Used by the location rule, with its consequences stated by `LocationRule` |
| `Schemas.NonEmptyList` | main.py:172 | Definition of the truthiness of an optional list: absent and `[]` are false. Used by `TagsOverlap`, with its consequences stated by `TagsOverlapMeaning` |
| `Schemas.NewBenefit` | schemas.py:46-61 | A benefit with only its required name, description and category is valid, has every matching signal absent, and has tags equal to the empty list |
| `Schemas.NewInquiry` | schemas.py:68-76 | A profile with no fields given is valid, has every field absent, and has tags equal to the empty list |
| `Matcher.Excludes` | main.py:150-169 | Definition of the seven hard rules, one case per rule. Its properties are stated by `ExcludedByAnyRule`, `IncomeRule`, `AgeRule`, `LocationRule`, `FlagRules` and `DependentsRule` |
| `Matcher.Eligible` | main.py:150-169 | Definition: no rule excludes the benefit. Its properties are stated by `IncludedIffNoRuleExcludes`, `MatchesMembership`, `EligibleIgnoresTags`, `EmptyProfileMatches` and `UnconstrainedBenefitMatches`, and `Assess` is proved to compute it |
| `Matcher.TagsOverlap` | main.py:172-174 | Definition of the tag overlap: both lists non-empty and the lower-cased tag sets intersect. Its meaning is stated by `TagsOverlapMeaning`, and its part in the score by `Score` |
| `Matcher.LowerSet` | main.py:173 | The set holds the lower-cased form of every tag in the list and nothing else |
| `Matcher.TagsOverlapMeaning` | main.py:172-174 | The tags overlap exactly when both lists are non-empty and some profile tag equals some benefit tag ignoring case |
| `Matcher.Score` | main.py:148-177 | The score is in [0, 3]. It is at least 2 exactly when a stated income is within a stated cap. It is odd exactly when the tags overlap ignoring case |
| `Matcher.Matches` | main.py:145-180 | The result is never longer than the catalog |
| `Matcher.MatchesMembership` | main.py:145-180 | A benefit is in the result exactly when it is in the catalog and eligible |
| `Matcher.EligiblePositions` | main.py:147-178 | The positions are strictly increasing and in range, and a catalog position appears exactly when its benefit is eligible |
| `Matcher.MatchesIsOrderedSelection` | main.py:145-180 | The k-th match is the catalog entry at the k-th eligible position, so the result is an order-preserving subsequence of the catalog |
| `Matcher.MatchesAppendOne` | main.py:177-178 | Matching one more benefit appends it exactly when it is eligible and otherwise changes nothing |
| `Matcher.MatchesConcat` | main.py:147-180 | Each benefit is judged independently, so matching `xs + ys` gives the matches of `xs` followed by the matches of `ys` |
| `Matcher.MatchesIdempotent` | main.py:147-180 | Matching the result of a match again returns it unchanged |
| `Matcher.ExcludedByAnyRule` | main.py:150-169 | A benefit that any single rule excludes is absent from the result, whatever its other fields say |
| `Matcher.IncludedIffNoRuleExcludes` | main.py:150-178 | A benefit is in the result exactly when it is in the catalog and no rule excludes it |
| `Matcher.IncomeRule` | main.py:150-154 | With both a stated income and a stated cap, the income rule excludes exactly when the income is above the cap, so an income equal to the cap passes. An excluded benefit is absent from the result. When either the income or the cap is absent, the income rule excludes nothing, and the result is the same as for a profile with no income |
| `Matcher.AgeRule` | main.py:156-159 | A stated age passes both age rules exactly when it is at least `min_age` and at most `max_age` (both inclusive) where those are present; an absent age passes |
| `Matcher.MatchedAgeWithinBounds` | main.py:156-159 | Every kept benefit's present age bounds contain the profile's stated age |
| `Matcher.LocationRule` | main.py:161-162 | The region rule passes exactly when either region is absent or empty, or the two regions are equal ignoring case |
| `Matcher.LocationExamples` | main.py:161-162 | A benefit for "CA" is not excluded for a profile in "ca" and is excluded for a profile in "NY" |
| `Matcher.FlagRules` | main.py:164-169 | A benefit that requires disability or veteran status excludes every profile whose flag is not exactly true (an absent flag counts as false). A `requires_disability`, `requires_veteran` or `requires_dependents` that is absent or false excludes nothing |
| `Matcher.DependentsRule` | main.py:168-169 | For a valid profile, a benefit that requires dependents passes exactly when at least one dependent is stated; an absent count or 0 excludes. A `requires_dependents` that is absent or false imposes nothing, as stated by `FlagRules` |
| `Matcher.EligibleIgnoresTags` | main.py:150-169 | Eligibility is the same for profiles and benefits that differ only in their tags |
| `Matcher.TagsDoNotAffectInclusion` | main.py:171-178 | Changing the tags on the profile or on any benefit in the catalog leaves the matched catalog positions unchanged |
| `Matcher.EmptyProfileMatches` | main.py:150-169 | A profile that states nothing is matched by a catalog benefit exactly when that benefit requires none of disability, veteran status or dependents |
| `Matcher.UnconstrainedBenefitMatches` | main.py:150-169 | A catalog benefit with only its required fields is matched for every profile |
| `Matcher.Assess` | main.py:148-175 | Trying the rules in order, with an early exit at the first failing rule, keeps a benefit exactly when it is eligible. The score it builds for a kept benefit is `Score` |
| `Matcher.MatchBenefits` | main.py:137-180 | The loop returns exactly `Matches(profile, benefits)`. Each kept benefit's recorded score is `Score`, which is never negative, so the `score >= 0` test never drops anything |
| `Matcher.MatchRequest` | main.py:128-145 | A match request matches the first 50 records of the store, so it returns at most 50 benefits |
| `Seed.Seeded` | main.py:71-125 | Seeding only appends to the store. It inserts 4 records into an empty store and none into a store that already holds records |
| `Seed.SeedDataValid` | main.py:75-118 | There are four sample records, and every one satisfies the benefit field constraints |
| `Seed.SeededStaysValid` | main.py:71-125 | Seeding a store of valid records leaves only valid records |
| `Seed.SeedTwice` | main.py:71-73 | A second seeding inserts nothing and changes nothing, so two seedings in a row insert 4 records from an empty store and 0 otherwise |
| `Seed.SeedBenefits` | main.py:65-125 | A store that already holds records is returned unchanged with 0 inserted; an empty store becomes the four sample records, in order, with 4 inserted |
| `Seed.SnapAndPellScenario` | main.py:76-106 | For a 20-year-old, the catalog [SNAP, Pell Grant] yields both programs at an income of 25000 and only the Pell Grant at 45000 |
| `Seed.SeedCatalogScenario` | main.py:76-117 | Against the sample catalog, a 20-year-old earning 25000 with no dependents stated gets SNAP, Medicaid and the Pell Grant; the housing voucher is excluded because it requires dependents |

## Left out

- Configuration checks: the HTTP layer, CORS, the liveness, greeting and database-diagnostic endpoints, and the "Database not configured" failures are transport and configuration, not matching logic.
- The document store: it is foreign code. The catalog and the store are given sequences of records. `create_document` is modelled as appending to that sequence, and the count of existing documents as the sequence's length.
- `MatchRequest`: listing returns records in an order defined by the store; the model takes the first 50 records of the given sequence. The `_id` clean-up in `list_benefits` is not modelled. Neither is its re-validation of each stored record (main.py:134): a stored record that breaks the field constraints makes the whole match request fail, whereas the model matches every record it is given.
- `Seed.SeedBenefits`: treats the count of existing records and the four writes as one atomic step that always succeeds. The model therefore captures neither concurrent seeding nor a partial seed. Two concurrent calls on an empty store can both read a count of 0 and insert 8 records between them. A write that fails after some records are in leaves a partial catalog that every later seeding call leaves alone. `Seed.SeedTwice` holds only for calls made one after another.
- Field validation: the model does not reject records at the boundary. `ValidBenefit` and `ValidInquiry` state the constraints, and the matcher is modelled as total over all records, as the code is.
- `income` and `max_income` are real numbers rather than floating point, since they are only compared with `<=`.
- `Text.Lower`: folds case for ASCII letters only, because full Unicode lower-casing tables are outside this model.
- Process start-up and the port read from the environment are not modelled.
- The unused `User` and `Product` schemas are not modelled.
