/** `replaceTextWithTrackedChange`: the global replacement of the pattern
    `(<w:t[^>]*>)([^<]*)(T)([^<]*)(</w:t>)`, where `T` is the search text
    taken literally, by the rendered revision markup. The regular-expression
    engine is modelled by what it computes: at each position the leftmost
    match with the backtracking choices of its greedy groups, and after a
    match the scan resumes where the match ended. */
module SpanReplacer {
  import opened Results
  import opened Strings
  import opened TextRuns
  import RevisionMarkup
  import XmlEscape

  /** The run element the pattern works on. */
  const Run: string := "w:t"

  /** A match of the pattern: open tag `s[start..openEnd]`, text before
      `s[openEnd..at]`, the target at `at`, text after up to `closeAt`, and
      the close tag at `closeAt`. */
  datatype Span = Span(start: nat, openEnd: nat, at: nat, closeAt: nat)

  datatype Replacement = Replacement(content: string, replaced: bool)

  /** Reference reading of the pattern matching at `i` with the groups cut
      at `k`, `b` and `e`: every way the regular expression can match there. */
  predicate PatternAt(s: string, t: string, i: nat, k: nat, b: nat, e: nat)
  {
    && OpenAt(s, i, Run)
    && i + |Run| + 2 <= k <= b
    && b + |t| <= e
    && CloseAt(s, e, Run)
    && s[k - 1] == '>'
    && NoneIn(s, '>', i + |Run| + 1, k - 1)
    && NoneIn(s, '<', k, b)
    && HasPrefixAt(s, b, t)
    && NoneIn(s, '<', b + |t|, e)
  }

  /** The target can sit at `b`: it occurs there, and the greedy `([^<]*)`
      after it runs into a close tag. */
  predicate Candidate(s: string, t: string, b: nat)
  {
    && b + |t| <= |s|
    && HasPrefixAt(s, b, t)
    && CloseAt(s, FindChar(s, '<', b + |t|), Run)
  }

  /** The greedy `([^<]*)` before the target: the largest candidate position
      in `lo..hi`, tried from the right as backtracking does. */
  function LastCandidate(s: string, t: string, lo: nat, hi: nat): (r: Option<nat>)
    requires lo <= hi <= |s|
    ensures r.Some? ==> lo <= r.value <= hi && Candidate(s, t, r.value)
    ensures r.Some? ==> forall b :: r.value < b <= hi ==> !Candidate(s, t, b)
    ensures r.None? ==> forall b :: lo <= b <= hi ==> !Candidate(s, t, b)
    decreases hi - lo
  {
    if Candidate(s, t, hi) then Some(hi)
    else if hi == lo then None
    else LastCandidate(s, t, lo, hi - 1)
  }

  /** The match the regular expression finds starting exactly at `i`. */
  function MatchAt(s: string, t: string, i: nat): (r: Option<Span>)
    requires i <= |s|
    ensures r.Some? ==> r.value.start == i
                        && PatternAt(s, t, i, r.value.openEnd, r.value.at, r.value.closeAt)
  {
    if !OpenAt(s, i, Run) then None
    else
      var j := FindChar(s, '>', i + |Run| + 1);
      if j == |s| then None
      else
        match LastCandidate(s, t, j + 1, FindChar(s, '<', j + 1))
        case None => None
        case Some(b) =>
          CandidateMatches(s, t, i, j, b);
          Some(Span(i, j + 1, b, FindChar(s, '<', b + |t|)))
  }

  /** A candidate between the open tag's first `>` and the payload's first
      `<` is a match of the pattern. */
  lemma CandidateMatches(s: string, t: string, i: nat, j: nat, b: nat)
    requires OpenAt(s, i, Run)
    requires j == FindChar(s, '>', i + |Run| + 1) < |s|
    requires j + 1 <= b <= FindChar(s, '<', j + 1) && Candidate(s, t, b)
    ensures PatternAt(s, t, i, j + 1, b, FindChar(s, '<', b + |t|))
  {
    FindCharSkips(s, '<', j + 1);
    FindCharSkips(s, '<', b + |t|);
    FindCharSkips(s, '>', i + |Run| + 1);
  }

  /** Every match at `i` is cut at the open tag's first `>`, puts the target
      no further than the first `<` of the payload, and ends at the first
      `<` after the target. */
  lemma PatternAtShape(s: string, t: string, i: nat, k: nat, b: nat, e: nat)
    requires PatternAt(s, t, i, k, b, e)
    ensures k == FindChar(s, '>', i + |Run| + 1) + 1
    ensures b <= FindChar(s, '<', k)
    ensures e == FindChar(s, '<', b + |t|)
    ensures Candidate(s, t, b)
  {
    FindCharUnique(s, '>', i + |Run| + 1, k - 1);
    FindCharSkips(s, '<', k);
    FindCharUnique(s, '<', b + |t|, e);
  }

  /** `MatchAt` is the leftmost-greedy match: it exists exactly when the
      pattern can match at `i`, and its target lies as far right as any. */
  lemma MatchAtComplete(s: string, t: string, i: nat)
    requires i <= |s|
    ensures MatchAt(s, t, i).None? <==> forall k: nat, b: nat, e: nat :: !PatternAt(s, t, i, k, b, e)
    ensures MatchAt(s, t, i).Some? ==>
              forall k: nat, b: nat, e: nat :: PatternAt(s, t, i, k, b, e) ==> b <= MatchAt(s, t, i).value.at
  {
    var r := MatchAt(s, t, i);
    forall k: nat, b: nat, e: nat | PatternAt(s, t, i, k, b, e)
      ensures r.Some? && b <= r.value.at
    {
      MatchAtFinds(s, t, i, k, b, e);
    }
  }

  lemma MatchAtFinds(s: string, t: string, i: nat, k: nat, b: nat, e: nat)
    requires PatternAt(s, t, i, k, b, e)
    ensures MatchAt(s, t, i).Some? && b <= MatchAt(s, t, i).value.at
  {
    PatternAtShape(s, t, i, k, b, e);
    var j := FindChar(s, '>', i + |Run| + 1);
    assert j + 1 == k;
    var m := FindChar(s, '<', j + 1);
    assert k <= b <= m;
    var c := LastCandidate(s, t, j + 1, m);
    assert c.Some?;
  }

  /** The markup that replaces one matched element: the text before the
      target in its own copy of the element (when there is any), the
      revision markup, and the text after in another copy. */
  function Rewrite(openTag: string, before: string, after: string, markup: string): string
  {
    KeptText(openTag, before) + markup + KeptText(openTag, after)
  }

  /** `${openTag}${text}${closeTag}` when `text` is non-empty, else nothing. */
  function KeptText(openTag: string, text: string): string
  {
    if |text| > 0 then openTag + (text + CloseTag(Run)) else []
  }

  /** The global replace from position `i` on: matched elements are
      rewritten, everything else is copied. */
  function ReplaceFrom(s: string, t: string, markup: string, i: nat): (r: Replacement)
    requires i <= |s|
    ensures !r.replaced ==> r.content == s[i..]
    decreases |s| - i
  {
    if i == |s| then Replacement([], false)
    else match MatchAt(s, t, i)
      case Some(m) =>
        var rest := ReplaceFrom(s, t, markup, m.closeAt + |CloseTag(Run)|);
        Replacement(Rewrite(s[i..m.openEnd], s[m.openEnd..m.at], s[m.at + |t|..m.closeAt], markup)
                    + rest.content, true)
      case None =>
        var rest := ReplaceFrom(s, t, markup, i + 1);
        Replacement([s[i]] + rest.content, rest.replaced)
  }

  /** `replaceTextWithTrackedChange`: every element the pattern matches is
      replaced by the rendering of the change with ids `changeId` and
      `changeId + 1`; `replaced` says whether any was. */
  function ReplaceTextWithTrackedChange(s: string, searchText: string, deleteText: string,
                                        insertText: string, changeId: nat, date: string): (r: Replacement)
    ensures r.replaced ==> Contains(s, searchText)
    ensures !r.replaced ==> r.content == s
  {
    var r := ReplaceFrom(s, searchText, RevisionMarkup.RedlineXml(deleteText, insertText, changeId, date), 0);
    ReplacedContains(s, searchText, RevisionMarkup.RedlineXml(deleteText, insertText, changeId, date), 0);
    r
  }

  // ---- what the replacement does -----------------------------------------

  /** The replace reports a replacement exactly when the pattern matches
      somewhere from `i` on. */
  lemma {:induction false} ReplacedIffPattern(s: string, t: string, markup: string, i: nat)
    requires i <= |s|
    ensures ReplaceFrom(s, t, markup, i).replaced <==>
              exists j: nat, k: nat, b: nat, e: nat :: i <= j && PatternAt(s, t, j, k, b, e)
    decreases |s| - i
  {
    if i == |s| {
      forall j: nat, k: nat, b: nat, e: nat | i <= j
        ensures !PatternAt(s, t, j, k, b, e)
      {
      }
    } else {
      MatchAtComplete(s, t, i);
      match MatchAt(s, t, i)
      case Some(m) =>
        assert PatternAt(s, t, i, m.openEnd, m.at, m.closeAt);
      case None =>
        ReplacedIffPattern(s, t, markup, i + 1);
        if exists j: nat, k: nat, b: nat, e: nat :: i <= j && PatternAt(s, t, j, k, b, e) {
          var j: nat, k: nat, b: nat, e: nat :| i <= j && PatternAt(s, t, j, k, b, e);
          assert j != i;
        }
    }
  }

  /** A replacement needs the search text to occur literally in the markup. */
  lemma ReplacedContains(s: string, t: string, markup: string, i: nat)
    requires i <= |s|
    ensures ReplaceFrom(s, t, markup, i).replaced ==> Contains(s, t)
  {
    ReplacedIffPattern(s, t, markup, i);
    if ReplaceFrom(s, t, markup, i).replaced {
      var j: nat, k: nat, b: nat, e: nat :| i <= j && PatternAt(s, t, j, k, b, e);
      assert b <= |s| && HasPrefixAt(s, b, t);
    }
  }

  /** A target the locator only finds by joining runs is never replaced: the
      source's "split across runs" branch always fails. */
  lemma SplitRunsNeverReplaced(s: string, t: string, d: string, ins: string, id: nat, date: string)
    requires FindTextInXml(s, t) == FoundInRuns
    ensures !ReplaceTextWithTrackedChange(s, t, d, ins, id, date).replaced
  {
  }

  // ---- targets without markup --------------------------------------------

  /** For a target without `<`, the pattern matches exactly the run elements
      whose payload holds the target, with the groups cut around one of its
      occurrences. */
  lemma PatternIsRunWithTarget(s: string, t: string, i: nat, k: nat, b: nat, e: nat)
    requires Free(t, '<')
    ensures PatternAt(s, t, i, k, b, e) <==>
              IsElement(s, Run, i, k, e) && k <= b && b + |t| <= e && HasPrefixAt(s, b, t)
  {
    if k <= b && b + |t| <= e && HasPrefixAt(s, b, t) {
      PrefixSame(s, b, t);
      FreePlaced(s, '<', b, t);
    }
  }

  /** A run element whose payload holds a target without `<`. */
  predicate RunHolds(s: string, t: string, i: nat, k: nat, m: nat)
  {
    IsElement(s, Run, i, k, m) && Contains(s[k..m], t)
  }

  lemma PatternGivesRun(s: string, t: string, i: nat, k: nat, b: nat, e: nat)
    requires Free(t, '<') && PatternAt(s, t, i, k, b, e)
    ensures RunHolds(s, t, i, k, e)
  {
    PatternIsRunWithTarget(s, t, i, k, b, e);
    SliceOfSlice(s, k, e, b - k, b - k + |t|);
    assert HasPrefixAt(s[k..e], b - k, t);
  }

  lemma RunGivesPattern(s: string, t: string, i: nat, k: nat, m: nat)
    requires Free(t, '<') && RunHolds(s, t, i, k, m)
    ensures exists b: nat :: PatternAt(s, t, i, k, b, m)
  {
    var p: nat :| p <= m - k && HasPrefixAt(s[k..m], p, t);
    SliceOfSlice(s, k, m, p, p + |t|);
    PatternIsRunWithTarget(s, t, i, k, k + p, m);
    assert PatternAt(s, t, i, k, k + p, m);
  }

  /** For a target without `<`, the source reports a replacement exactly when
      the payload of some `<w:t>` element contains the target. */
  lemma ReplacedIffRunContains(s: string, t: string, markup: string)
    requires Free(t, '<')
    ensures ReplaceFrom(s, t, markup, 0).replaced <==>
              exists i: nat, k: nat, m: nat :: RunHolds(s, t, i, k, m)
  {
    ReplacedIffPattern(s, t, markup, 0);
    if ReplaceFrom(s, t, markup, 0).replaced {
      var i: nat, k: nat, b: nat, e: nat :| 0 <= i && PatternAt(s, t, i, k, b, e);
      PatternGivesRun(s, t, i, k, b, e);
    }
    if exists i: nat, k: nat, m: nat :: RunHolds(s, t, i, k, m) {
      var i: nat, k: nat, m: nat :| RunHolds(s, t, i, k, m);
      RunGivesPattern(s, t, i, k, m);
      var b: nat :| PatternAt(s, t, i, k, b, m);
      assert 0 <= i && PatternAt(s, t, i, k, b, m);
    }
  }

  /** Within the matched element the target that is replaced is its LAST
      occurrence: the greedy group before it takes all it can. */
  lemma MatchTakesLastOccurrence(s: string, t: string, i: nat, p: nat)
    requires i <= |s| && Free(t, '<') && MatchAt(s, t, i).Some?
    requires MatchAt(s, t, i).value.at < p && p + |t| <= MatchAt(s, t, i).value.closeAt
    ensures !HasPrefixAt(s, p, t)
  {
    var m := MatchAt(s, t, i).value;
    if HasPrefixAt(s, p, t) {
      PatternIsRunWithTarget(s, t, i, m.openEnd, m.at, m.closeAt);
      PatternIsRunWithTarget(s, t, i, m.openEnd, p, m.closeAt);
      MatchAtComplete(s, t, i);
    }
  }

  // ---- what the rewriting keeps -------------------------------------------

  /** One position without a match is copied. */
  lemma ReplaceFromSkip(s: string, t: string, markup: string, i: nat)
    requires i < |s| && MatchAt(s, t, i).None?
    ensures ReplaceFrom(s, t, markup, i).content == [s[i]] + ReplaceFrom(s, t, markup, i + 1).content
    ensures ReplaceFrom(s, t, markup, i).replaced == ReplaceFrom(s, t, markup, i + 1).replaced
  {
  }

  lemma SkipCopy(c: char, x: string, y: string, rest: string)
    requires |x| > 0 && x[0] == c && x[1..] == y
    ensures [c] + (y + rest) == x + rest
  {
    assert x == [c] + y;
  }

  /** Positions where the pattern does not match are copied unchanged: the
      text between matched elements survives as it was. */
  lemma {:induction false} ReplaceFromCopies(s: string, t: string, markup: string, i: nat, j: nat)
    requires i <= j <= |s|
    requires forall x :: i <= x < j ==> MatchAt(s, t, x).None?
    ensures ReplaceFrom(s, t, markup, i).content == s[i..j] + ReplaceFrom(s, t, markup, j).content
    ensures ReplaceFrom(s, t, markup, i).replaced == ReplaceFrom(s, t, markup, j).replaced
    decreases j - i
  {
    if i < j {
      ReplaceFromCopies(s, t, markup, i + 1, j);
      ReplaceFromSkip(s, t, markup, i);
      SkipCopy(s[i], s[i..j], s[i + 1..j], ReplaceFrom(s, t, markup, j).content);
    }
  }

  /** The groups of a match: the start tag ends in its first `>`, the text
      around the target holds no `<`, and the three groups with the target
      make up the element's payload. */
  lemma MatchPieces(s: string, t: string, i: nat)
    requires i <= |s| && MatchAt(s, t, i).Some?
    ensures var m := MatchAt(s, t, i).value;
            && i < m.openEnd <= m.at && m.at + |t| <= m.closeAt <= |s|
            && IsOpenTag(s[i..m.openEnd], Run)
            && Free(s[m.openEnd..m.at], '<')
            && Free(s[m.at + |t|..m.closeAt], '<')
            && s[m.openEnd..m.closeAt] == s[m.openEnd..m.at] + t + s[m.at + |t|..m.closeAt]
  {
    var m := MatchAt(s, t, i).value;
    assert PatternAt(s, t, i, m.openEnd, m.at, m.closeAt);
    OpenTagSlice(s, Run, i, m.openEnd);
    FreeSlice(s, '<', m.openEnd, m.at);
    FreeSlice(s, '<', m.at + |t|, m.closeAt);
    SliceSplit(s, m.openEnd, m.at, m.at + |t|, m.closeAt);
  }

  /** The rewrite of one element, placed anywhere, reads in the `<w:t>` text
      as the text before the target, what the markup between reads as, and
      the text after. */
  lemma RewriteReads(openTag: string, before: string, after: string, markup: string, text: string,
                     s: string, i: nat)
    requires IsOpenTag(openTag, Run) && Free(before, '<') && Free(after, '<')
    requires SameAt(s, i, Rewrite(openTag, before, after, markup)) && ReadsAnywhere(Run, markup, text)
    ensures ReadsAt(s, Run, i, Rewrite(openTag, before, after, markup), before + text + after)
  {
    var head := KeptText(openTag, before);
    var tail := KeptText(openTag, after);
    SameSplit(s, i, head + markup, tail);
    SameSplit(s, i, head, markup);
    assert ReadsAt(s, Run, i + |head|, markup, text);
    KeptTextReads(openTag, before, s, i);
    ReadsConcat(s, Run, i, head, markup, before, text);
    KeptTextReads(openTag, after, s, i + |head + markup|);
    ReadsConcat(s, Run, i, head + markup, tail, before + text, after);
  }

  /** A kept copy of the element reads as the kept text. */
  lemma KeptTextReads(openTag: string, text: string, s: string, i: nat)
    requires IsOpenTag(openTag, Run) && Free(text, '<') && SameAt(s, i, KeptText(openTag, text))
    ensures ReadsAt(s, Run, i, KeptText(openTag, text), text)
  {
    if |text| > 0 {
      ReadsElement(s, Run, i, openTag, text);
    } else {
      ReadsNothing(s, Run, i);
    }
  }

  /** The rewrite with the revision markup reads as the text before the
      target, the escaped insertion, and the text after: the target is
      swapped for the insertion and nothing else of the element's text is
      lost. */
  lemma RedlineRewriteReads(openTag: string, before: string, after: string, deleteText: string,
                            insertText: string, id: nat, date: string, out: string, j: nat)
    requires IsOpenTag(openTag, Run) && Free(before, '<') && Free(after, '<') && Free(date, '<')
    requires SameAt(out, j, Rewrite(openTag, before, after, RevisionMarkup.RedlineXml(deleteText, insertText, id, date)))
    ensures ReadsAt(out, Run, j, Rewrite(openTag, before, after, RevisionMarkup.RedlineXml(deleteText, insertText, id, date)),
                    before + XmlEscape.EscapeXml(insertText) + after)
  {
    RevisionMarkup.RedlineReadsAnywhere(deleteText, insertText, id, date);
    RewriteReads(openTag, before, after, RevisionMarkup.RedlineXml(deleteText, insertText, id, date),
                 XmlEscape.EscapeXml(insertText), out, j);
  }

  /** Each element the pattern matches becomes text that reads as its old
      payload with the target occurrence replaced by the escaped insertion. */
  lemma MatchRewriteReads(s: string, t: string, m: Span, deleteText: string, insertText: string, id: nat,
                          date: string, out: string, j: nat)
    requires m.start <= |s| && MatchAt(s, t, m.start) == Some(m) && Free(date, '<')
    requires SameAt(out, j, Rewrite(s[m.start..m.openEnd], s[m.openEnd..m.at], s[m.at + |t|..m.closeAt],
                                    RevisionMarkup.RedlineXml(deleteText, insertText, id, date)))
    ensures s[m.openEnd..m.closeAt] == s[m.openEnd..m.at] + t + s[m.at + |t|..m.closeAt]
    ensures ReadsAt(out, Run, j, Rewrite(s[m.start..m.openEnd], s[m.openEnd..m.at], s[m.at + |t|..m.closeAt],
                                         RevisionMarkup.RedlineXml(deleteText, insertText, id, date)),
                    s[m.openEnd..m.at] + XmlEscape.EscapeXml(insertText) + s[m.at + |t|..m.closeAt])
  {
    MatchPieces(s, t, m.start);
    RedlineRewriteReads(s[m.start..m.openEnd], s[m.openEnd..m.at], s[m.at + |t|..m.closeAt],
                        deleteText, insertText, id, date, out, j);
  }
}
