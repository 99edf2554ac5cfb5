/**
 * The study matcher (`match_studies`): walk the trial corpus in order, keep
 * each study whose conditions mention autism, whose age range admits the
 * participant and whose locations mention the participant's location, project
 * it into a result record with a study URL, and return the first five.
 */
module StudyMatcher {
  import opened Wrappers
  import opened Text

  /** The participant profile; only `age` and `location` are read. */
  datatype Profile = Profile(age: int, location: string)

  /**
   * A study's `eligibility` dictionary: its age bounds, and `shown`, the text
   * the dictionary renders to when interpolated into a string.
   */
  datatype Eligibility = Eligibility(minAge: int, maxAge: int, shown: string)

  /** One record of the trial corpus; `contact` may be absent, every other key is required. */
  datatype Study = Study(
    nctId: string,
    title: string,
    conditions: string,
    eligibility: Eligibility,
    locations: string,
    contact: Option<string>)

  /** The record returned for a matching study. */
  datatype MatchRecord = MatchRecord(
    title: string,
    criteria: Eligibility,
    contact: Option<string>,
    location: string,
    nctId: string,
    url: string)

  const Keyword := "autism"
  const UrlPrefix := "https://clinicaltrials.gov/study/"
  const MaxResults: nat := 5

  // ---------------------------------------------------------------------
  // The three checks
  // ---------------------------------------------------------------------

  /** The lower-cased conditions text contains "autism": exactly when "autism" occurs in it at some index. */
  predicate MentionsAutism(s: Study)
    ensures MentionsAutism(s) ==> exists i: nat :: OccursAt(Lower(s.conditions), Keyword, i)
    ensures forall i: nat :: OccursAt(Lower(s.conditions), Keyword, i) ==> MentionsAutism(s)
  {
    ContainsIff(Lower(s.conditions), Keyword);
    Contains(Lower(s.conditions), Keyword)
  }

  /**
   * The participant's age lies in the study's range, both bounds included; a
   * study whose bounds are crossed admits nobody.
   */
  predicate AgeFits(u: Profile, s: Study)
    ensures AgeFits(u, s) ==> s.eligibility.minAge <= s.eligibility.maxAge
    ensures s.eligibility.minAge <= s.eligibility.maxAge && u.age in {s.eligibility.minAge, s.eligibility.maxAge}
            ==> AgeFits(u, s)
  {
    s.eligibility.minAge <= u.age <= s.eligibility.maxAge
  }

  /**
   * The lower-cased user location is a substring of the lower-cased study
   * locations: exactly when it occurs in them at some index.
   */
  predicate NearUser(u: Profile, s: Study)
    ensures NearUser(u, s) ==> exists i: nat :: OccursAt(Lower(s.locations), Lower(u.location), i)
    ensures forall i: nat :: OccursAt(Lower(s.locations), Lower(u.location), i) ==> NearUser(u, s)
  {
    ContainsIff(Lower(s.locations), Lower(u.location));
    Contains(Lower(s.locations), Lower(u.location))
  }

  /**
   * A study passes all three checks; a passing study has conditions at least
   * as long as the keyword, locations at least as long as the user location,
   * and uncrossed age bounds.
   */
  predicate Passes(u: Profile, s: Study)
    ensures Passes(u, s) ==> |s.conditions| >= |Keyword| && |u.location| <= |s.locations|
                             && s.eligibility.minAge <= s.eligibility.maxAge
  {
    MentionsAutism(s) && AgeFits(u, s) && NearUser(u, s)
  }

  // ---------------------------------------------------------------------
  // Projection
  // ---------------------------------------------------------------------

  /** The public page of a study: the fixed prefix followed by its identifier. */
  function StudyUrl(nctId: string): (url: string)
    ensures UrlPrefix <= url && url[|UrlPrefix|..] == nctId
  {
    UrlPrefix + nctId
  }

  /** Different identifiers never share a URL. */
  lemma StudyUrlInjective(a: string, b: string)
    requires StudyUrl(a) == StudyUrl(b)
    ensures a == b
  {
    assert a == StudyUrl(a)[|UrlPrefix|..];
  }

  /**
   * The result record of a study: title, eligibility, contact, locations and
   * identifier copied unchanged, and a URL from which the identifier is read back.
   */
  function Project(s: Study): (r: MatchRecord)
    ensures r.title == s.title && r.criteria == s.eligibility && r.contact == s.contact
    ensures r.location == s.locations && r.nctId == s.nctId
    ensures UrlPrefix <= r.url && r.url[|UrlPrefix|..] == r.nctId
  {
    MatchRecord(s.title, s.eligibility, s.contact, s.locations, s.nctId, StudyUrl(s.nctId))
  }

  // ---------------------------------------------------------------------
  // Specification of the result
  // ---------------------------------------------------------------------

  /** The records of all passing studies of `studies`, in corpus order (before the cap). */
  function Kept(u: Profile, studies: seq<Study>): (r: seq<MatchRecord>)
    ensures |r| <= |studies|
  {
    if studies == [] then []
    else
      var last := studies[|studies| - 1];
      Kept(u, studies[..|studies| - 1]) + (if Passes(u, last) then [Project(last)] else [])
  }

  /** How many studies of `studies` pass the three checks. */
  function PassCount(u: Profile, studies: seq<Study>): nat {
    if studies == [] then 0
    else (if Passes(u, studies[0]) then 1 else 0) + PassCount(u, studies[1..])
  }

  /** Python's `xs[:n]`: the first `n` elements, or all of them when there are fewer. */
  function Take<T>(xs: seq<T>, n: nat): (r: seq<T>)
    ensures r <= xs
    ensures |r| == if |xs| <= n then |xs| else n
  {
    if |xs| <= n then xs else xs[..n]
  }

  /** What `match_studies(user, studies)` returns. */
  function Matches(u: Profile, studies: seq<Study>): seq<MatchRecord> {
    Take(Kept(u, studies), MaxResults)
  }

  // ---------------------------------------------------------------------
  // The matcher
  // ---------------------------------------------------------------------

  method MatchStudies(user: Profile, studies: seq<Study>) returns (matches: seq<MatchRecord>)
    ensures matches == Matches(user, studies)
    ensures |matches| <= MaxResults
  {
    var results: seq<MatchRecord> := [];
    for i := 0 to |studies|
      invariant results == Kept(user, studies[..i])
    {
      var study := studies[i];
      assert studies[..i + 1][..i] == studies[..i];
      if !Contains(Lower(study.conditions), Keyword) {
        continue;
      }
      if !(study.eligibility.minAge <= user.age <= study.eligibility.maxAge) {
        continue;
      }
      if !Contains(Lower(study.locations), Lower(user.location)) {
        continue;
      }
      results := results + [MatchRecord(
        study.title,
        study.eligibility,
        study.contact,
        study.locations,
        study.nctId,
        UrlPrefix + study.nctId)];
    }
    assert studies[..|studies|] == studies;
    matches := Take(results, MaxResults);
  }

  // ---------------------------------------------------------------------
  // Properties of the specification
  // ---------------------------------------------------------------------

  /** The pass count splits over concatenation. */
  lemma {:induction false} PassCountAppend(u: Profile, a: seq<Study>, b: seq<Study>)
    ensures PassCount(u, a + b) == PassCount(u, a) + PassCount(u, b)
  {
    if a != [] {
      assert (a + b)[1..] == a[1..] + b;
      PassCountAppend(u, a[1..], b);
    } else {
      assert a + b == b;
    }
  }

  /** Filtering a corpus made of two parts filters each part and concatenates. */
  lemma {:induction false} KeptAppend(u: Profile, a: seq<Study>, b: seq<Study>)
    ensures Kept(u, a + b) == Kept(u, a) + Kept(u, b)
    decreases |b|
  {
    if b == [] {
      assert a + b == a;
    } else {
      var n := |b| - 1;
      assert (a + b)[..|a + b| - 1] == a + b[..n];
      KeptAppend(u, a, b[..n]);
    }
  }

  /** One record per passing study. */
  lemma {:induction false} KeptLength(u: Profile, studies: seq<Study>)
    ensures |Kept(u, studies)| == PassCount(u, studies)
    decreases |studies|
  {
    if studies != [] {
      var n := |studies| - 1;
      KeptLength(u, studies[..n]);
      PassCountAppend(u, studies[..n], [studies[n]]);
      assert studies[..n] + [studies[n]] == studies;
    }
  }

  /**
   * Soundness: the k-th kept record is the projection of a passing study, the
   * one with exactly k passing studies before it.
   */
  lemma {:induction false} KeptSound(u: Profile, studies: seq<Study>, k: nat)
    requires k < |Kept(u, studies)|
    ensures exists j :: 0 <= j < |studies| && Passes(u, studies[j])
                        && PassCount(u, studies[..j]) == k
                        && Kept(u, studies)[k] == Project(studies[j])
    decreases |studies|
  {
    var n := |studies| - 1;
    var prefix := studies[..n];
    KeptLength(u, prefix);
    if k < |Kept(u, prefix)| {
      KeptSound(u, prefix, k);
      var j :| 0 <= j < |prefix| && Passes(u, prefix[j])
               && PassCount(u, prefix[..j]) == k && Kept(u, prefix)[k] == Project(prefix[j]);
      assert prefix[..j] == studies[..j];
    } else {
      assert Passes(u, studies[n]) && Kept(u, studies)[k] == Project(studies[n]);
      assert PassCount(u, studies[..n]) == k;
    }
  }

  /** A one-study corpus keeps that study's record exactly when it passes. */
  lemma KeptSingle(u: Profile, s: Study)
    ensures Kept(u, [s]) == if Passes(u, s) then [Project(s)] else []
  {
    assert [s][..0] == [];
  }

  /**
   * Completeness and order: every passing study is kept, at the position given
   * by the number of passing studies before it.
   */
  lemma {:induction false} KeptComplete(u: Profile, studies: seq<Study>, j: nat)
    requires j < |studies| && Passes(u, studies[j])
    ensures PassCount(u, studies[..j]) < |Kept(u, studies)|
    ensures Kept(u, studies)[PassCount(u, studies[..j])] == Project(studies[j])
  {
    var before, after := studies[..j], studies[j + 1..];
    assert studies == before + [studies[j]] + after;
    KeptAppend(u, before + [studies[j]], after);
    KeptAppend(u, before, [studies[j]]);
    KeptSingle(u, studies[j]);
    KeptLength(u, before);
  }

  /** A study earlier in the corpus is kept earlier: relative order is preserved. */
  lemma PassCountMonotone(u: Profile, studies: seq<Study>, i: nat, j: nat)
    requires i < j <= |studies| && Passes(u, studies[i])
    ensures PassCount(u, studies[..i]) < PassCount(u, studies[..j])
  {
    assert studies[..j] == studies[..i] + [studies[i]] + studies[i + 1..j];
    PassCountAppend(u, studies[..i] + [studies[i]], studies[i + 1..j]);
    PassCountAppend(u, studies[..i], [studies[i]]);
  }

  /** The result has exactly min(5, number of passing studies) entries. */
  lemma MatchesLength(u: Profile, studies: seq<Study>)
    ensures |Matches(u, studies)| == if PassCount(u, studies) <= MaxResults then PassCount(u, studies) else MaxResults
  {
    KeptLength(u, studies);
  }

  /**
   * Every returned record comes from a study that mentions autism (in any case),
   * admits the participant's age inclusively and lists the participant's
   * location (in any case); its fields are copied unchanged and its URL is the
   * study page of its identifier.
   */
  lemma MatchesSound(u: Profile, studies: seq<Study>, k: nat)
    requires k < |Matches(u, studies)|
    ensures exists j :: (
      0 <= j < |studies|
      && Contains(Lower(studies[j].conditions), "autism")
      && studies[j].eligibility.minAge <= u.age <= studies[j].eligibility.maxAge
      && Contains(Lower(studies[j].locations), Lower(u.location))
      && Matches(u, studies)[k].title == studies[j].title
      && Matches(u, studies)[k].criteria == studies[j].eligibility
      && Matches(u, studies)[k].contact == studies[j].contact
      && Matches(u, studies)[k].location == studies[j].locations
      && Matches(u, studies)[k].nctId == studies[j].nctId
      && Matches(u, studies)[k].url == "https://clinicaltrials.gov/study/" + studies[j].nctId)
  {
    KeptSound(u, studies, k);
  }

  /**
   * No passing study is skipped before the cap: a passing study with fewer than
   * five passing studies before it is returned, at that position.
   */
  lemma MatchesComplete(u: Profile, studies: seq<Study>, j: nat)
    requires j < |studies| && Passes(u, studies[j])
    requires PassCount(u, studies[..j]) < MaxResults
    ensures PassCount(u, studies[..j]) < |Matches(u, studies)|
    ensures Matches(u, studies)[PassCount(u, studies[..j])] == Project(studies[j])
  {
    KeptComplete(u, studies, j);
  }

  /** The result is empty exactly when no study passes (in particular for an empty corpus). */
  lemma MatchesEmpty(u: Profile, studies: seq<Study>)
    ensures Matches(u, studies) == [] <==> forall j :: 0 <= j < |studies| ==> !Passes(u, studies[j])
  {
    if Matches(u, studies) != [] {
      KeptSound(u, studies, 0);
    }
    if exists j :: 0 <= j < |studies| && Passes(u, studies[j]) {
      var j :| 0 <= j < |studies| && Passes(u, studies[j]);
      KeptComplete(u, studies, j);
    }
  }

  /**
   * Removing one study from the corpus leaves the records of the others in the
   * same relative order: the kept records lose at most that study's record.
   */
  lemma KeptWithout(u: Profile, a: seq<Study>, s: Study, b: seq<Study>)
    ensures Kept(u, a + [s] + b) == Kept(u, a) + (if Passes(u, s) then [Project(s)] else []) + Kept(u, b)
    ensures Kept(u, a + b) == Kept(u, a) + Kept(u, b)
    ensures !Passes(u, s) ==> Kept(u, a + b) == Kept(u, a + [s] + b)
  {
    var own := if Passes(u, s) then [Project(s)] else [];
    KeptAppend(u, a + [s], b);
    KeptAppend(u, a, [s]);
    KeptSingle(u, s);
    assert Kept(u, a + [s]) == Kept(u, a) + own;
    KeptAppend(u, a, b);
    if !Passes(u, s) {
      assert Kept(u, a) + own == Kept(u, a);
    }
  }

  /**
   * The checks ignore letter case: a study whose conditions contain "Autism"
   * in any spelling of case, and whose locations contain the participant's
   * location in any case, passes when the age fits.
   */
  lemma CaseInsensitiveMatch(u: Profile, s: Study, word: string, place: string)
    requires Lower(word) == Keyword && Contains(s.conditions, word)
    requires Lower(place) == Lower(u.location) && Contains(s.locations, place)
    requires s.eligibility.minAge <= u.age <= s.eligibility.maxAge
    ensures Passes(u, s)
  {
    ContainsLower(s.conditions, word);
    ContainsLower(s.locations, place);
  }

  /** The age bounds are inclusive: a participant exactly at either bound is matched. */
  lemma AgeBoundsInclusive(u: Profile, s: Study)
    requires MentionsAutism(s) && NearUser(u, s)
    requires s.eligibility.minAge <= s.eligibility.maxAge
    requires u.age == s.eligibility.minAge || u.age == s.eligibility.maxAge
    ensures Passes(u, s)
    ensures Matches(u, [s]) == [Project(s)]
  {
    assert [s][..0] == [];
  }
}
