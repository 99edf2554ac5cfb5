# Study matcher and match summary — a Dafny model

This project models the two pieces of logic in the study-match service.

- **The study matcher** (`match_studies`, matcher.py). It walks the trial corpus in order and skips a study unless three checks pass:
  - its lower-cased `conditions` text contains `"autism"`;
  - the participant's `age` lies in the inclusive range `[min_age, max_age]` of the study's `eligibility`;
  - the participant's lower-cased `location` is a substring of the study's lower-cased `locations`.

  Each study that passes becomes a result record with its title, eligibility (as `criteria`), contact, locations, identifier and the URL `https://clinicaltrials.gov/study/<nct_id>`. The matcher returns the first five records.
- **The match summary** (`format_matches_for_gpt`, utils.py). An empty list of matches gives a fixed apology. Any other list gives a header, then one block per match numbered from 1, then a footer. Each block has a title line, a location line (default `Not specified`), a criteria line (default `Not provided`) and a study link.

Module layout:

- `wrappers.dfy` — `Wrappers.Option`, for dictionary keys that may be absent (`dict.get`).
- `text.dfy` — `Text`: ASCII lower-casing, substring membership (`p in s`) and the decimal rendering of a number (`str(n)`), with their properties.
- `matcher.dfy` — `StudyMatcher`: the records, the three checks, the specification `Matches` (filter and project the corpus, then take five), the imperative `MatchStudies` proved equal to it, and the properties of `Matches`.
- `summary.dfy` — `MatchSummary`: the summary text `Summary`, the imperative `FormatMatches` proved equal to it, and the properties of `Summary`. `Reply` matches and then formats, as the chat handler does.

Both source functions are loops over a list with an accumulator: a result list grown by `append`, and a string grown by `+=`. Each is modelled as a method with a loop. The loop invariant ties the accumulator to a specification function of the prefix processed so far. The source's properties are then proved as lemmas about those functions. All inputs are Dafny values, so neither method can modify the profile, the corpus or the matches.

## Model

| member | source | states |
|---|---|---|
| `StudyMatcher.MatchStudies` | matcher.py:2-19 | The loop's result is exactly `Matches(user, studies)`: the passing studies projected in corpus order and cut to five. The result never has more than five entries. |
| `StudyMatcher.MentionsAutism` | matcher.py:5-6 | The keyword check holds exactly when `"autism"` occurs at some index of the lower-cased conditions text. Both directions are stated. |
| `StudyMatcher.AgeFits` | matcher.py:7-8 | A fitting age implies uncrossed bounds, so a study with `min_age > max_age` admits nobody. With uncrossed bounds, an age equal to either bound fits. |
| `StudyMatcher.NearUser` | matcher.py:9-10 | The location check holds exactly when the lower-cased user location occurs at some index of the lower-cased study locations. Both directions are stated. |
| `StudyMatcher.Passes` | matcher.py:5-10 | A study that passes all three checks has conditions at least as long as `"autism"`, locations at least as long as the user location, and `min_age <= max_age`. |
| `StudyMatcher.Project` | matcher.py:11-18 | The result record copies the title, eligibility (as criteria), contact, locations and identifier unchanged. Its URL starts with the fixed prefix and the identifier can be read back from it. |
| `StudyMatcher.StudyUrl` | matcher.py:17 | The URL starts with `https://clinicaltrials.gov/study/` and the rest of it is exactly the study's identifier. |
| `StudyMatcher.StudyUrlInjective` | matcher.py:17 | Two identifiers with the same URL are equal. |
| `StudyMatcher.Take` | matcher.py:19 | `xs[:n]` is a prefix of `xs` whose length is `min(n, len(xs))`. |
| `StudyMatcher.Kept` | matcher.py:3-18 | The loop never produces more records than there are studies. |
| `StudyMatcher.KeptAppend` | matcher.py:4-18 | Filtering `a + b` gives the records of `a` followed by the records of `b`. |
| `StudyMatcher.PassCountAppend` | matcher.py:5-10 | The number of passing studies in `a + b` is the sum of the counts for `a` and for `b`. |
| `StudyMatcher.KeptLength` | matcher.py:3-18 | Before the cap there is exactly one record per passing study. |
| `StudyMatcher.KeptSound` | matcher.py:5-18 | The k-th record before the cap is the projection of a passing study, namely the one with exactly k passing studies before it. |
| `StudyMatcher.KeptComplete` | matcher.py:4-18 | Every passing study appears before the cap, at the index equal to the number of passing studies before it. |
| `StudyMatcher.PassCountMonotone` | matcher.py:4-11 | A passing study earlier in the corpus has a smaller result index than any later study, so relative order is preserved. |
| `StudyMatcher.MatchesLength` | matcher.py:19 | The result has exactly `min(5, number of passing studies)` entries. |
| `StudyMatcher.MatchesSound` | matcher.py:5-18 | Every returned record comes from a study that meets all three conditions. That study's lower-cased conditions contain "autism". Its `min_age <= age <= max_age`. Its lower-cased locations contain the lower-cased user location. The record's title, criteria, contact, location and identifier are copied unchanged. Its URL is the prefix followed by the identifier. |
| `StudyMatcher.MatchesComplete` | matcher.py:3-19 | A passing study with fewer than five passing studies before it is returned, at the index equal to that number. |
| `StudyMatcher.MatchesEmpty` | matcher.py:2-19 | The result is empty if and only if no study passes. This covers the empty corpus. |
| `StudyMatcher.KeptWithout` | matcher.py:4-18 | With one study `s` between `a` and `b`, the records are those of `a`, then `s`'s record if it passes, then those of `b`. Without `s` they are those of `a` then those of `b`. So removing one study removes at most its own record, the other records keep their relative order, and a failing study has no effect. |
| `StudyMatcher.CaseInsensitiveMatch` | matcher.py:5-10 | Conditions that contain "autism" in any letter case pass the keyword check. Locations that contain the user's location in any letter case pass the location check. With a fitting age, the study passes. |
| `StudyMatcher.AgeBoundsInclusive` | matcher.py:7-8 | A study that meets the keyword and location checks passes when the participant's age equals either (uncrossed) bound, in any corpus. A one-study corpus then returns exactly its record. |
| `Text.Lower` | matcher.py:5-9 | ASCII lower-casing keeps the length, leaves no upper-case letter and keeps every character that is not an upper-case letter. |
| `Text.Contains` | matcher.py:5-9 | `p in s` implies `len(p) <= len(s)`. The empty string is in every string. |
| `Text.LowerAt` | matcher.py:5 | Lower-casing acts position by position. |
| `Text.LowerSlice` | matcher.py:9 | Lower-casing a slice equals slicing the lower-cased string. |
| `Text.LowerIdempotent` | matcher.py:9 | `s.lower().lower() == s.lower()`. |
| `Text.ContainsIff` | matcher.py:9 | `p in s` holds if and only if `p` occurs in `s` at some index. The recursive and the index-based definitions agree in both directions. |
| `Text.ContainsLower` | matcher.py:5-10 | For ASCII lower-casing: if `p in s`, then `Lower(p) in Lower(s)`. |
| `Text.NatToString` | utils.py:11 | A study number renders as a non-empty string of decimal digits. The first digit is never `0` unless the number is 0. |
| `Text.ParseNatToString` | utils.py:11 | The rendered number reads back as itself: `int(str(n)) == n`. |
| `Text.NatToStringInjective` | utils.py:11 | Different study numbers render differently. |
| `MatchSummary.FormatMatches` | utils.py:2-17 | The loop's result is exactly `Summary(matches)`. |
| `MatchSummary.Summary` | utils.py:3-17 | An empty list gives the fixed apology and a non-empty list never does. A non-empty list gives a text that starts with the header and ends with the footer. |
| `MatchSummary.Block` | utils.py:11-14 | A block is at least 63 characters long (its fixed text) and ends with the match's link line `- [View Study](<url>)`. |
| `MatchSummary.BlocksFromAppend` | utils.py:10-14 | The blocks of `a + b` are the blocks of `a` followed by the blocks of `b`, with `b` numbered on from where `a` stopped. |
| `MatchSummary.AppendBlock` | utils.py:10-14 | One iteration appends the block of the next match, numbered with its 1-based position. |
| `MatchSummary.SummaryLayout` | utils.py:9-17 | A non-empty summary is made of five parts and nothing else. These are the header, the blocks of the matches before position k, the block of match k numbered k + 1, the blocks of the later matches numbered on, and the footer. |
| `MatchSummary.EveryMatchRendered` | utils.py:11-14 | For every match, its numbered title line, location line, criteria line and link line all appear in the summary. |
| `MatchSummary.MatchLinesShown` | utils.py:12-14 | A present location or criteria value is shown as is. An absent one is shown as `Not specified` or `Not provided`. The link line is `- [View Study](<url>)`. |
| `MatchSummary.AsEntries` | main.py:67-68 | Each match record is handed to the formatter in order, with the same title and URL, and with its location and its criteria text present. |
| `MatchSummary.Reply` | main.py:67-68 | The reply text is the summary of the matches. It is the apology exactly when no study in the corpus passes the three checks. |

## Left out

- The chat handler's I/O is outside this model: the FastAPI routing, the OpenAI calls, the per-session chat history, reading `indexed_studies.json` and extracting the profile with a regular expression and `json.loads` (main.py). Only its match-then-format step (main.py:67-68) is modelled, as `Reply`.
- push_to_monday.py is not part of this model. It is an HTTP client for an external CRM and only copies dictionary entries before a network call.
- Text.Lower: covers only ASCII letters. Python's `str.lower()` also maps non-ASCII letters and can change a string's length; that mapping is not modelled.
- The text that the `eligibility` dictionary renders to under `str()` is not computed. It is the opaque field `Eligibility.shown`, which the summary prints as the criteria.
- Missing required keys are not modelled. The source raises `KeyError` for a missing `conditions`, `eligibility`, `min_age`, `max_age`, `locations`, `title` or `nct_id`, or a missing profile `age` or `location`. The model's records always carry these fields. The source reads them lazily, in check order, so a study that fails the keyword check never raises for a missing `eligibility`; that ordering is not modelled either.
- Value types other than the modelled ones are not covered. Ages are integers and texts are strings. The source's behaviour for other Python values is not modelled: comparing a string age raises `TypeError`, and `str()` renders other values.
- The formatter's `Entry` models an absent `location` or `criteria` key as `None`. A key that is present with the value `None` would print as `None` in the source; that case is not modelled. The matcher never produces it, because it always sets both keys from fields it has already read.
- `contact` is copied into each result record but is never printed by the summary. The model does the same.
