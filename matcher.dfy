/** The rule-based matcher: one profile against a catalog of benefits. Each
    benefit is judged on its own by seven hard-exclusion rules; a benefit that
    no rule excludes is kept, in catalog order. A score (income fit and tag
    overlap) is computed along the way but never decides anything. */
module Matcher {
  import opened Text
  import opened Schemas

  /** The hard-exclusion rules, in the order the matcher tries them. */
  datatype Rule = IncomeCap | MinimumAge | MaximumAge | Location | Disability | Veteran | Dependents

  /** Whether rule `r` rules benefit `b` out for profile `p`. The income, age
      and region rules exclude nothing when their field is absent on either
      side. A flag rule excludes nothing unless the benefit's flag is true. */
  predicate Excludes(r: Rule, p: Inquiry, b: Benefit) {
    match r
    case IncomeCap =>
      p.income.Some? && b.max_income.Some? && !(p.income.value <= b.max_income.value)
    case MinimumAge =>
      b.min_age.Some? && p.age.Some? && p.age.value < b.min_age.value
    case MaximumAge =>
      b.max_age.Some? && p.age.Some? && p.age.value > b.max_age.value
    case Location =>
      NonEmptyText(b.location) && NonEmptyText(p.location)
      && !EqualIgnoringCase(b.location.value, p.location.value)
    case Disability =>
      IsTrue(b.requires_disability) && !IsTrue(p.disability)
    case Veteran =>
      IsTrue(b.requires_veteran) && !IsTrue(p.veteran)
    case Dependents =>
      IsTrue(b.requires_dependents) && (p.dependents.None? || p.dependents.value == 0)
  }

  /** A benefit survives when it passes every hard rule. */
  predicate Eligible(p: Inquiry, b: Benefit) {
    && !Excludes(IncomeCap, p, b)
    && !Excludes(MinimumAge, p, b)
    && !Excludes(MaximumAge, p, b)
    && !Excludes(Location, p, b)
    && !Excludes(Disability, p, b)
    && !Excludes(Veteran, p, b)
    && !Excludes(Dependents, p, b)
  }

  /** The lower-cased set of a list of tags. */
  function LowerSet(tags: seq<string>): (s: set<string>)
    ensures forall t :: t in tags ==> Lower(t) in s
    ensures forall u :: u in s ==> exists t :: t in tags && Lower(t) == u
  {
    set t | t in tags :: Lower(t)
  }

  /** Whether profile and benefit share a tag, ignoring case; either side's
      list being absent or empty means no overlap. */
  predicate TagsOverlap(p: Inquiry, b: Benefit) {
    NonEmptyList(p.tags) && NonEmptyList(b.tags)
    && LowerSet(p.tags.value) * LowerSet(b.tags.value) != {}
  }

  /** Tags overlap exactly when both lists are non-empty and some profile
      tag equals some benefit tag, ignoring case. */
  lemma TagsOverlapMeaning(p: Inquiry, b: Benefit)
    ensures TagsOverlap(p, b) <==>
              NonEmptyList(p.tags) && NonEmptyList(b.tags) &&
              exists t, u :: t in p.tags.value && u in b.tags.value && EqualIgnoringCase(t, u)
  {
    if NonEmptyList(p.tags) && NonEmptyList(b.tags) {
      var shared := LowerSet(p.tags.value) * LowerSet(b.tags.value);
      if exists t, u :: t in p.tags.value && u in b.tags.value && EqualIgnoringCase(t, u) {
        var t, u :| t in p.tags.value && u in b.tags.value && EqualIgnoringCase(t, u);
        assert Lower(t) in shared;
      }
      if shared != {} {
        var w :| w in shared;
        var t :| t in p.tags.value && Lower(t) == w;
        var u :| u in b.tags.value && Lower(u) == w;
        assert EqualIgnoringCase(t, u);
      }
    }
  }

  /** The score the matcher accumulates for a benefit it keeps: 2 for a
      stated income within a stated cap, 1 for a shared tag. */
  function Score(p: Inquiry, b: Benefit): (s: int)
    ensures 0 <= s <= 3
    ensures s >= 2 <==> p.income.Some? && b.max_income.Some? && p.income.value <= b.max_income.value
    ensures s % 2 == 1 <==> TagsOverlap(p, b)
  {
    var incomeFit := if p.income.Some? && b.max_income.Some? && p.income.value <= b.max_income.value then 2 else 0;
    var tagFit := if TagsOverlap(p, b) then 1 else 0;
    incomeFit + tagFit
  }

  /** The benefits of `catalog` that `p` is eligible for, in catalog order:
      the specification of `MatchBenefits`. */
  function Matches(p: Inquiry, catalog: seq<Benefit>): (r: seq<Benefit>)
    ensures |r| <= |catalog|
  {
    if catalog == [] then []
    else
      var last := catalog[|catalog| - 1];
      var kept := Matches(p, catalog[..|catalog| - 1]);
      if Eligible(p, last) then kept + [last] else kept
  }

  /** A benefit is in the result exactly when it is in the catalog and
      eligible. */
  lemma {:induction false} MatchesMembership(p: Inquiry, catalog: seq<Benefit>, b: Benefit)
    ensures b in Matches(p, catalog) <==> b in catalog && Eligible(p, b)
  {
    if catalog != [] {
      var n := |catalog| - 1;
      assert catalog == catalog[..n] + [catalog[n]];
      MatchesMembership(p, catalog[..n], b);
    }
  }

  /** The catalog positions of the eligible benefits, in increasing order. */
  function EligiblePositions(p: Inquiry, catalog: seq<Benefit>): (idx: seq<nat>)
    ensures forall k :: 0 <= k < |idx| ==> idx[k] < |catalog|
    ensures forall j, k :: 0 <= j < k < |idx| ==> idx[j] < idx[k]
    ensures forall i :: 0 <= i < |catalog| ==> (i in idx <==> Eligible(p, catalog[i]))
  {
    if catalog == [] then []
    else
      var n := |catalog| - 1;
      var kept := EligiblePositions(p, catalog[..n]);
      if Eligible(p, catalog[n]) then kept + [n] else kept
  }

  /** The result of matching is the subsequence of the catalog picked out by
      the eligible positions: same elements, same relative order. */
  lemma {:induction false} MatchesIsOrderedSelection(p: Inquiry, catalog: seq<Benefit>)
    ensures |Matches(p, catalog)| == |EligiblePositions(p, catalog)|
    ensures forall k :: 0 <= k < |Matches(p, catalog)| ==>
              Matches(p, catalog)[k] == catalog[EligiblePositions(p, catalog)[k]]
  {
    if catalog != [] {
      var n := |catalog| - 1;
      MatchesIsOrderedSelection(p, catalog[..n]);
    }
  }

  /** Matching one more benefit extends the result by that benefit exactly
      when it is eligible. */
  lemma MatchesAppendOne(p: Inquiry, catalog: seq<Benefit>, b: Benefit)
    ensures Matches(p, catalog + [b]) ==
              if Eligible(p, b) then Matches(p, catalog) + [b] else Matches(p, catalog)
  {
  }

  /** Each benefit is judged independently: matching a concatenation is
      concatenating the matches. */
  lemma {:induction false} MatchesConcat(p: Inquiry, xs: seq<Benefit>, ys: seq<Benefit>)
    ensures Matches(p, xs + ys) == Matches(p, xs) + Matches(p, ys)
  {
    if ys == [] {
      assert xs + ys == xs;
    } else {
      var n := |ys| - 1;
      assert xs + ys == (xs + ys[..n]) + [ys[n]];
      assert ys == ys[..n] + [ys[n]];
      MatchesConcat(p, xs, ys[..n]);
      MatchesAppendOne(p, xs + ys[..n], ys[n]);
      MatchesAppendOne(p, ys[..n], ys[n]);
    }
  }

  /** Matching an already matched list changes nothing. */
  lemma {:induction false} MatchesIdempotent(p: Inquiry, catalog: seq<Benefit>)
    ensures Matches(p, Matches(p, catalog)) == Matches(p, catalog)
  {
    if catalog != [] {
      var n := |catalog| - 1;
      var last := catalog[n];
      MatchesIdempotent(p, catalog[..n]);
      if Eligible(p, last) {
        MatchesAppendOne(p, Matches(p, catalog[..n]), last);
      }
    }
  }

  /** Whichever rule excludes a benefit, the benefit is absent from the
      result, whatever its other fields say. */
  lemma ExcludedByAnyRule(r: Rule, p: Inquiry, b: Benefit, catalog: seq<Benefit>)
    requires Excludes(r, p, b)
    ensures b !in Matches(p, catalog)
  {
    MatchesMembership(p, catalog, b);
  }

  /** A benefit is in the result exactly when it is in the catalog and no
      rule excludes it. */
  lemma IncludedIffNoRuleExcludes(p: Inquiry, b: Benefit, catalog: seq<Benefit>)
    ensures b in Matches(p, catalog) <==> b in catalog && forall r: Rule :: !Excludes(r, p, b)
  {
    MatchesMembership(p, catalog, b);
    if b in catalog && Eligible(p, b) {
      forall r: Rule ensures !Excludes(r, p, b) {
        match r
        case IncomeCap =>
        case MinimumAge =>
        case MaximumAge =>
        case Location =>
        case Disability =>
        case Veteran =>
        case Dependents =>
      }
    }
  }

  /** The income cap is inclusive: a stated income passes a stated cap
      exactly when it is at most the cap, and an income above the cap
      excludes the benefit. With either the income or the cap absent, the
      income rule excludes nothing. */
  lemma IncomeRule(p: Inquiry, b: Benefit, catalog: seq<Benefit>)
    ensures p.income.Some? && b.max_income.Some? ==>
              (Excludes(IncomeCap, p, b) <==> p.income.value > b.max_income.value)
    ensures (p.income.None? || b.max_income.None?) ==> !Excludes(IncomeCap, p, b)
    ensures (p.income.Some? && b.max_income.Some? && p.income.value > b.max_income.value)
              ==> b !in Matches(p, catalog)
    ensures (p.income.None? || b.max_income.None?) ==>
              (b in Matches(p, catalog) <==> b in Matches(p.(income := None), catalog))
  {
    MatchesMembership(p, catalog, b);
    MatchesMembership(p.(income := None), catalog, b);
  }

  /** Both age bounds are inclusive: a stated age passes exactly when it is
      at least `min_age` and at most `max_age`; an absent age or bound
      constrains nothing. */
  lemma AgeRule(p: Inquiry, b: Benefit)
    ensures !Excludes(MinimumAge, p, b) && !Excludes(MaximumAge, p, b) <==>
              p.age.None? ||
              ((b.min_age.None? || b.min_age.value <= p.age.value) &&
               (b.max_age.None? || p.age.value <= b.max_age.value))
  {
  }

  /** A kept benefit's age bounds hold for a profile that states its age. */
  lemma MatchedAgeWithinBounds(p: Inquiry, b: Benefit, catalog: seq<Benefit>)
    requires b in Matches(p, catalog) && p.age.Some?
    ensures b.min_age.Some? ==> b.min_age.value <= p.age.value
    ensures b.max_age.Some? ==> p.age.value <= b.max_age.value
  {
    MatchesMembership(p, catalog, b);
  }

  /** Region codes are compared ignoring case; a region that is absent or
      empty on either side imposes nothing. */
  lemma LocationRule(p: Inquiry, b: Benefit)
    ensures !Excludes(Location, p, b) <==>
              !NonEmptyText(b.location) || !NonEmptyText(p.location)
              || EqualIgnoringCase(b.location.value, p.location.value)
  {
  }

  /** A benefit restricted to "CA" is kept for a profile in "ca" and
      excluded for one in "NY". */
  lemma LocationExamples(b: Benefit, p: Inquiry)
    requires b.location == Some("CA")
    ensures p.location == Some("ca") ==> !Excludes(Location, p, b)
    ensures p.location == Some("NY") ==> Excludes(Location, p, b)
  {
  }

  /** A required flag is met only by a profile flag that is exactly true;
      an absent profile flag counts as false. A requirement that is absent
      or false, on any of the three flags, excludes nothing. */
  lemma FlagRules(p: Inquiry, b: Benefit)
    ensures IsTrue(b.requires_disability) ==> (Excludes(Disability, p, b) <==> p.disability != Some(true))
    ensures IsTrue(b.requires_veteran) ==> (Excludes(Veteran, p, b) <==> p.veteran != Some(true))
    ensures !IsTrue(b.requires_disability) ==> !Excludes(Disability, p, b)
    ensures !IsTrue(b.requires_veteran) ==> !Excludes(Veteran, p, b)
    ensures !IsTrue(b.requires_dependents) ==> !Excludes(Dependents, p, b)
  {
  }

  /** For a valid profile, a benefit that requires dependents passes that rule
      exactly when at least one dependent is stated. */
  lemma DependentsRule(p: Inquiry, b: Benefit)
    requires ValidInquiry(p) && IsTrue(b.requires_dependents)
    ensures !Excludes(Dependents, p, b) <==> p.dependents.Some? && p.dependents.value >= 1
  {
  }

  /** Two profiles that differ at most in their tags. */
  predicate SameApartFromTags(p: Inquiry, q: Inquiry) {
    p.(tags := None) == q.(tags := None)
  }

  /** Two catalogs that differ at most in their benefits' tags. */
  predicate SameCatalogApartFromTags(xs: seq<Benefit>, ys: seq<Benefit>) {
    |xs| == |ys| && forall k :: 0 <= k < |xs| ==> xs[k].(tags := None) == ys[k].(tags := None)
  }

  /** Eligibility reads no tag, on either side. */
  lemma EligibleIgnoresTags(p: Inquiry, q: Inquiry, a: Benefit, c: Benefit)
    requires SameApartFromTags(p, q)
    requires a.(tags := None) == c.(tags := None)
    ensures Eligible(p, a) == Eligible(q, c)
  {
  }

  /** Tags never change inclusion: re-tagging the profile or any benefit
      keeps exactly the same catalog positions. */
  lemma {:induction false} TagsDoNotAffectInclusion(p: Inquiry, q: Inquiry, xs: seq<Benefit>, ys: seq<Benefit>)
    requires SameApartFromTags(p, q)
    requires SameCatalogApartFromTags(xs, ys)
    ensures EligiblePositions(p, xs) == EligiblePositions(q, ys)
    ensures |Matches(p, xs)| == |Matches(q, ys)|
  {
    if xs != [] {
      var n := |xs| - 1;
      EligibleIgnoresTags(p, q, xs[n], ys[n]);
      assert SameCatalogApartFromTags(xs[..n], ys[..n]);
      TagsDoNotAffectInclusion(p, q, xs[..n], ys[..n]);
    }
    MatchesIsOrderedSelection(p, xs);
    MatchesIsOrderedSelection(q, ys);
  }

  /** A profile that states nothing is matched by every benefit except those
      that require a disability, veteran status or dependents. */
  lemma EmptyProfileMatches(b: Benefit, catalog: seq<Benefit>)
    requires b in catalog
    ensures b in Matches(NewInquiry(), catalog) <==>
              !IsTrue(b.requires_disability) && !IsTrue(b.requires_veteran) && !IsTrue(b.requires_dependents)
  {
    MatchesMembership(NewInquiry(), catalog, b);
  }

  /** A benefit that states only its required fields is kept for every
      profile. */
  lemma UnconstrainedBenefitMatches(p: Inquiry, name: string, description: string, category: string,
                                    catalog: seq<Benefit>)
    requires NewBenefit(name, description, category) in catalog
    ensures NewBenefit(name, description, category) in Matches(p, catalog)
  {
    MatchesMembership(p, catalog, NewBenefit(name, description, category));
  }

  /** Judges one benefit for a profile, as one pass of the matching loop:
      the rules run in the order of `Rule` and the first one that fails
      rejects the benefit; the income fit and the tag overlap add to the
      score of a benefit that survives. */
  method Assess(profile: Inquiry, b: Benefit) returns (keep: bool, score: int)
    ensures keep <==> Eligible(profile, b)
    ensures keep ==> score == Score(profile, b)
  {
    keep, score := false, 0;
    // Income threshold
    if profile.income.Some? && b.max_income.Some? {
      if profile.income.value <= b.max_income.value {
        score := score + 2;
      } else {
        return;
      }
    }
    // Age bounds
    if b.min_age.Some? && profile.age.Some? && profile.age.value < b.min_age.value {
      return;
    }
    if b.max_age.Some? && profile.age.Some? && profile.age.value > b.max_age.value {
      return;
    }
    // Location
    if NonEmptyText(b.location) && NonEmptyText(profile.location)
       && Lower(b.location.value) != Lower(profile.location.value) {
      return;
    }
    // Flags
    if IsTrue(b.requires_disability) && !IsTrue(profile.disability) {
      return;
    }
    if IsTrue(b.requires_veteran) && !IsTrue(profile.veteran) {
      return;
    }
    if IsTrue(b.requires_dependents) && (profile.dependents.None? || profile.dependents.value == 0) {
      return;
    }
    // Soft tag boost
    if NonEmptyList(profile.tags) && NonEmptyList(b.tags) {
      var shared := LowerSet(profile.tags.value) * LowerSet(b.tags.value);
      if shared != {} {
        score := score + 1;
      }
    }
    keep := true;
  }

  /** Matches a profile against a catalog: every benefit is judged in turn,
      and one that survives every hard rule is appended. The score of a
      surviving benefit is never negative, so the final `score >= 0` test
      always passes. `scores` records that score for each kept benefit. */
  method MatchBenefits(profile: Inquiry, benefits: seq<Benefit>) returns (matches: seq<Benefit>, ghost scores: seq<int>)
    ensures matches == Matches(profile, benefits)
    ensures |scores| == |matches|
    ensures forall k :: 0 <= k < |matches| ==> scores[k] == Score(profile, matches[k])
  {
    matches, scores := [], [];
    for i := 0 to |benefits|
      invariant matches == Matches(profile, benefits[..i])
      invariant |scores| == |matches|
      invariant forall k :: 0 <= k < |matches| ==> scores[k] == Score(profile, matches[k])
    {
      var b := benefits[i];
      assert benefits[..i + 1] == benefits[..i] + [b];
      MatchesAppendOne(profile, benefits[..i], b);
      var keep, score := Assess(profile, b);
      if !keep {
        continue;
      }
      if score >= 0 {
        ghost var previous := scores;
        matches := matches + [b];
        scores := scores + [score];
        assert forall k :: 0 <= k < |previous| ==> scores[k] == previous[k];
      }
    }
    assert benefits[..|benefits|] == benefits;
  }

  /** The number of records the catalog listing returns by default. */
  const DEFAULT_LIST_LIMIT := 50

  /** A match request: the catalog is the first `DEFAULT_LIST_LIMIT` records
      of the store, and the profile is matched against those. */
  method MatchRequest(profile: Inquiry, store: seq<Benefit>) returns (matches: seq<Benefit>)
    ensures matches == Matches(profile, store[..if |store| < DEFAULT_LIST_LIMIT then |store| else DEFAULT_LIST_LIMIT])
    ensures |matches| <= DEFAULT_LIST_LIMIT
  {
    var limit := if |store| < DEFAULT_LIST_LIMIT then |store| else DEFAULT_LIST_LIMIT;
    var catalog := store[..limit];
    ghost var scores;
    matches, scores := MatchBenefits(profile, catalog);
  }
}
