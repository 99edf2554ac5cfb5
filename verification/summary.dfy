/**
 * The match summary (`format_matches_for_gpt`): a fixed apology when nothing
 * matched, otherwise a header, one numbered block per match and a footer.
 */
module MatchSummary {
  import opened Wrappers
  import opened Text
  import StudyMatcher

  /**
   * One match as the formatter reads it: `location` and `criteria` may be
   * absent (they are read with a default), `title` and `url` are required.
   * `criteria` holds the text the criteria value renders to.
   */
  datatype Entry = Entry(title: string, location: Option<string>, criteria: Option<string>, url: string)

  const NoMatchesMessage :=
    "Unfortunately, no studies matched based on your details. Would you like us to follow up if new ones become available?"
  const Header := "Here are some clinical studies that may be a fit:\n"
  const Footer := "\nWould you like help signing up for any of these?"
  const NoLocation := "Not specified"
  const NoCriteria := "Not provided"

  // ---------------------------------------------------------------------
  // One block
  // ---------------------------------------------------------------------

  /** "🧪 **Study i** – *title*", preceded by a blank line. */
  function TitleLine(i: nat, e: Entry): string {
    "\n\U{1F9EA} **Study " + NatToString(i) + "** \U{2013} *" + e.title + "*\n"
  }

  function LocationLine(e: Entry): string {
    "- Location: " + e.location.GetOr(NoLocation) + "\n"
  }

  function CriteriaLine(e: Entry): string {
    "- Criteria: " + e.criteria.GetOr(NoCriteria) + "\n"
  }

  function LinkLine(e: Entry): string {
    "- [View Study](" + e.url + ")\n"
  }

  /**
   * The block for the match numbered `i`: longer than the 63 characters of
   * fixed text it contains, and ending with the match's link line.
   */
  function Block(i: nat, e: Entry): (r: string)
    ensures |r| >= 63
    ensures |LinkLine(e)| <= |r| && r[|r| - |LinkLine(e)|..] == LinkLine(e)
  {
    TitleLine(i, e) + LocationLine(e) + CriteriaLine(e) + LinkLine(e)
  }

  /** The blocks of `ms`, numbered consecutively from `first`. */
  function BlocksFrom(ms: seq<Entry>, first: nat): string
    decreases |ms|
  {
    if ms == [] then "" else Block(first, ms[0]) + BlocksFrom(ms[1..], first + 1)
  }

  /**
   * What `format_matches_for_gpt(matches)` returns: the apology exactly for an
   * empty list, otherwise a text that starts with the header and ends with the footer.
   */
  function Summary(ms: seq<Entry>): (r: string)
    ensures r == NoMatchesMessage <==> ms == []
    ensures ms != [] ==> Header <= r && r[|r| - |Footer|..] == Footer
  {
    if ms == [] then NoMatchesMessage
    else
      Framed(Header, BlocksFrom(ms, 1), Footer);
      assert |NoMatchesMessage| == 117 && |Header| == 50 && |Footer| == 49;
      assert |BlocksFrom(ms, 1)| >= |Block(1, ms[0])|;
      Header + BlocksFrom(ms, 1) + Footer
  }

  // ---------------------------------------------------------------------
  // The formatter
  // ---------------------------------------------------------------------

  method FormatMatches(matches: seq<Entry>) returns (summary: string)
    ensures summary == Summary(matches)
  {
    if matches == [] {
      return NoMatchesMessage;
    }
    summary := Header;
    for i := 0 to |matches|
      invariant summary == Header + BlocksFrom(matches[..i], 1)
    {
      var study := matches[i];
      summary := summary + ("\n\U{1F9EA} **Study " + NatToString(i + 1) + "** \U{2013} *" + study.title + "*\n");
      summary := summary + ("- Location: " + study.location.GetOr(NoLocation) + "\n");
      summary := summary + ("- Criteria: " + study.criteria.GetOr(NoCriteria) + "\n");
      summary := summary + ("- [View Study](" + study.url + ")\n");
      AppendBlock(matches[..i], study, i + 1);
      assert matches[..i + 1] == matches[..i] + [study];
      Regroup(Header, BlocksFrom(matches[..i], 1), TitleLine(i + 1, study), LocationLine(study),
              CriteriaLine(study), LinkLine(study));
    }
    assert matches[..|matches|] == matches;
    summary := summary + Footer;
  }

  // ---------------------------------------------------------------------
  // Properties of the specification
  // ---------------------------------------------------------------------

  /** The blocks of two runs of matches are the blocks of each, the second numbered on. */
  lemma {:induction false} BlocksFromAppend(a: seq<Entry>, b: seq<Entry>, first: nat)
    ensures BlocksFrom(a + b, first) == BlocksFrom(a, first) + BlocksFrom(b, first + |a|)
    decreases |a|
  {
    if a == [] {
      assert a + b == b;
    } else {
      var head := Block(first, a[0]);
      assert (a + b)[0] == a[0] && (a + b)[1..] == a[1..] + b;
      assert BlocksFrom(a + b, first) == head + BlocksFrom(a[1..] + b, first + 1);
      BlocksFromAppend(a[1..], b, first + 1);
      Regroup3(head, BlocksFrom(a[1..], first + 1), BlocksFrom(b, first + |a|));
    }
  }

  /** A single match gives a single block. */
  lemma BlocksFromSingle(e: Entry, first: nat)
    ensures BlocksFrom([e], first) == Block(first, e)
  {
    assert [e][1..] == [];
    assert BlocksFrom([e][1..], first + 1) == "";
  }

  /** Appending one match to a run of `first - 1` matches appends its block, numbered `first`. */
  lemma AppendBlock(ms: seq<Entry>, e: Entry, first: nat)
    requires first == |ms| + 1
    ensures BlocksFrom(ms + [e], 1) == BlocksFrom(ms, 1) + Block(first, e)
  {
    BlocksFromAppend(ms, [e], 1);
    BlocksFromSingle(e, first);
  }

  lemma Regroup3(x: string, y: string, z: string)
    ensures x + (y + z) == (x + y) + z
  {
  }

  /** Re-association of the pieces the formatter appends one after another. */
  lemma Regroup(h: string, b: string, t: string, l: string, c: string, v: string)
    ensures h + b + t + l + c + v == h + (b + (t + l + c + v))
  {
  }

  /** A text framed by a header and a footer starts with the one and ends with the other. */
  lemma Framed(h: string, b: string, f: string)
    ensures h <= h + b + f && (h + b + f)[|h + b + f| - |f|..] == f
  {
    assert (h + b + f)[..|h|] == h;
  }

  /**
   * The summary of a non-empty list is the header, the blocks of the matches
   * before position k, the block of match k numbered k + 1, the blocks of the
   * matches after it numbered on, and the footer; nothing else.
   */
  lemma SummaryLayout(ms: seq<Entry>, k: nat)
    requires k < |ms|
    ensures Summary(ms) == Header + BlocksFrom(ms[..k], 1) + Block(k + 1, ms[k])
                          + BlocksFrom(ms[k + 1..], k + 2) + Footer
  {
    assert ms == ms[..k] + ([ms[k]] + ms[k + 1..]);
    BlocksFromAppend(ms[..k], [ms[k]] + ms[k + 1..], 1);
    assert ([ms[k]] + ms[k + 1..])[1..] == ms[k + 1..];
    Regroup5(Header, BlocksFrom(ms[..k], 1), Block(k + 1, ms[k]), BlocksFrom(ms[k + 1..], k + 2), Footer);
  }

  lemma Regroup5(h: string, a: string, b: string, c: string, f: string)
    ensures h + (a + (b + c)) + f == h + a + b + c + f
  {
  }

  /** Each of the four lines of a block sitting in a larger text is in that text. */
  lemma LinesInText(pre: string, t: string, l: string, c: string, v: string, post: string)
    ensures Contains(pre + (t + l + c + v) + post, t) && Contains(pre + (t + l + c + v) + post, l)
    ensures Contains(pre + (t + l + c + v) + post, c) && Contains(pre + (t + l + c + v) + post, v)
  {
    var block := t + l + c + v;
    assert OccursAt(block, t, 0);
    assert OccursAt(block, l, |t|);
    assert OccursAt(block, c, |t| + |l|);
    assert OccursAt(block, v, |t| + |l| + |c|);
    OccursContains(block, t, 0);
    OccursContains(block, l, |t|);
    OccursContains(block, c, |t| + |l|);
    OccursContains(block, v, |t| + |l| + |c|);
    ContainsInMiddle(pre, block, post, t);
    ContainsInMiddle(pre, block, post, l);
    ContainsInMiddle(pre, block, post, c);
    ContainsInMiddle(pre, block, post, v);
  }

  /**
   * Every match is rendered: its numbered title line, its location (or
   * "Not specified"), its criteria (or "Not provided") and its study link all
   * appear in the summary.
   */
  lemma EveryMatchRendered(ms: seq<Entry>, k: nat)
    requires k < |ms|
    ensures Contains(Summary(ms), TitleLine(k + 1, ms[k]))
    ensures Contains(Summary(ms), LocationLine(ms[k]))
    ensures Contains(Summary(ms), CriteriaLine(ms[k]))
    ensures Contains(Summary(ms), LinkLine(ms[k]))
  {
    SummaryLayout(ms, k);
    var e := ms[k];
    var pre := Header + BlocksFrom(ms[..k], 1);
    var post := BlocksFrom(ms[k + 1..], k + 2) + Footer;
    var t, l, c, v := TitleLine(k + 1, e), LocationLine(e), CriteriaLine(e), LinkLine(e);
    Regroup5(pre, t + l + c + v, [], [], post);
    assert Summary(ms) == pre + (t + l + c + v) + post;
    LinesInText(pre, t, l, c, v, post);
  }

  /**
   * What each line shows: a present location or criteria value is shown as
   * is, an absent one as `NoLocation` or `NoCriteria`, and the link
   * points at the match's URL.
   */
  lemma MatchLinesShown(ms: seq<Entry>, k: nat)
    requires k < |ms|
    ensures ms[k].location.Some? ==> Contains(Summary(ms), "- Location: " + ms[k].location.value + "\n")
    ensures ms[k].location.None? ==> Contains(Summary(ms), "- Location: " + NoLocation + "\n")
    ensures ms[k].criteria.Some? ==> Contains(Summary(ms), "- Criteria: " + ms[k].criteria.value + "\n")
    ensures ms[k].criteria.None? ==> Contains(Summary(ms), "- Criteria: " + NoCriteria + "\n")
    ensures Contains(Summary(ms), "- [View Study](" + ms[k].url + ")\n")
  {
    EveryMatchRendered(ms, k);
    var e := ms[k];
    var text := Summary(ms);
    if e.location.Some? {
      assert LocationLine(e) == "- Location: " + e.location.value + "\n";
    } else {
      assert LocationLine(e) == "- Location: " + NoLocation + "\n";
    }
    if e.criteria.Some? {
      assert CriteriaLine(e) == "- Criteria: " + e.criteria.value + "\n";
    } else {
      assert CriteriaLine(e) == "- Criteria: " + NoCriteria + "\n";
    }
  }

  // ---------------------------------------------------------------------
  // Matching then summarising
  // ---------------------------------------------------------------------

  /** A match record as the formatter sees it: location and criteria are both present. */
  function AsEntry(r: StudyMatcher.MatchRecord): Entry {
    Entry(r.title, Some(r.location), Some(r.criteria.shown), r.url)
  }

  /** The match records handed to the formatter, in order, each with its location and criteria present. */
  function AsEntries(rs: seq<StudyMatcher.MatchRecord>): (es: seq<Entry>)
    ensures |es| == |rs|
    ensures forall k :: 0 <= k < |rs| ==>
      es[k].title == rs[k].title && es[k].location == Some(rs[k].location)
      && es[k].criteria == Some(rs[k].criteria.shown) && es[k].url == rs[k].url
  {
    seq(|rs|, k requires 0 <= k < |rs| => AsEntry(rs[k]))
  }

  /** Match the corpus, then summarise the matches. */
  method Reply(user: StudyMatcher.Profile, studies: seq<StudyMatcher.Study>) returns (summary: string)
    ensures summary == Summary(AsEntries(StudyMatcher.Matches(user, studies)))
    ensures (forall j :: 0 <= j < |studies| ==> !StudyMatcher.Passes(user, studies[j]))
            <==> summary == NoMatchesMessage
  {
    var matches := StudyMatcher.MatchStudies(user, studies);
    summary := FormatMatches(AsEntries(matches));
    StudyMatcher.MatchesEmpty(user, studies);
  }
}
