/** Recognition of WordprocessingML text elements and the text locator
    `findTextInXml`. The source recognises an element with the pattern
    `<w:t[^>]*>([^<]*)</w:t>`; the model states it for any tag name so that
    the same scanner also reads `<w:delText>` elements. Every fact about the
    scanner is stated about one document `s` and positions in it. */
module TextRuns {
  import opened Strings

  function OpenPrefix(name: string): string { "<" + name }

  function CloseTag(name: string): string { "</" + name + ">" }

  /** `<name>`, a start tag without attributes. */
  function StartTag(name: string): string { OpenPrefix(name) + ">" }

  /** `<name` starts at `i`. */
  predicate OpenAt(s: string, i: nat, name: string)
  {
    i < |s| && s[i] == '<' && SameAt(s, i + 1, name)
  }

  /** `</name>` starts at `m`. */
  predicate CloseAt(s: string, m: nat, name: string)
  {
    && m + |name| + 3 <= |s|
    && s[m] == '<' && s[m + 1] == '/'
    && SameAt(s, m + 2, name)
    && s[m + 2 + |name|] == '>'
  }

  lemma OpenAtIff(s: string, i: nat, name: string)
    ensures OpenAt(s, i, name) <==> HasPrefixAt(s, i, OpenPrefix(name))
  {
    PrefixSplit(s, i, "<", name);
    PrefixSame(s, i, "<");
    PrefixSame(s, i + 1, name);
  }

  lemma CloseAtIff(s: string, m: nat, name: string)
    ensures CloseAt(s, m, name) <==> HasPrefixAt(s, m, CloseTag(name))
  {
    PrefixSplit(s, m, "</" + name, ">");
    PrefixSplit(s, m, "</", name);
    PrefixSame(s, m, "</");
    PrefixSame(s, m + 2, name);
    PrefixSame(s, m + 2 + |name|, ">");
  }

  /** Reference reading of the pattern `<name[^>]*>([^<]*)</name>` matching
      at `i` with payload `s[k..m]`. */
  predicate IsElement(s: string, name: string, i: nat, k: nat, m: nat)
  {
    && OpenAt(s, i, name)
    && i + |name| + 2 <= k <= m
    && CloseAt(s, m, name)
    && s[k - 1] == '>'
    && NoneIn(s, '>', i + |name| + 1, k - 1)
    && NoneIn(s, '<', k, m)
  }

  /** The pattern matches at `i` in at most one way: `[^>]*` stops at the
      first `>` and `[^<]*` at the first `<`. */
  lemma ElementUnique(s: string, name: string, i: nat, k: nat, m: nat, k': nat, m': nat)
    requires IsElement(s, name, i, k, m) && IsElement(s, name, i, k', m')
    ensures k == k' && m == m'
  {
    FindCharUnique(s, '>', i + |name| + 1, k - 1);
    FindCharUnique(s, '>', i + |name| + 1, k' - 1);
    FindCharUnique(s, '<', k, m);
    FindCharUnique(s, '<', k, m');
  }

  /** The global match loop of `<name[^>]*>([^<]*)</name>` from `i` on,
      collecting the payloads. The attempt at `i` reads the start tag up to
      its first `>` (`TagScan`) and the payload up to its first `<`
      (`PayloadScan`); when the attempt fails the search resumes at `i + 1`,
      and after a match it resumes behind the end tag. */
  function TextFrom(s: string, name: string, i: nat): string
    requires i <= |s|
    decreases |s| - i, 2, 0
  {
    if i == |s| then []
    else if OpenAt(s, i, name) then TagScan(s, name, i, i + |name| + 1)
    else TextFrom(s, name, i + 1)
  }

  /** The attempt at `i`, inside the start tag at `j`. */
  function TagScan(s: string, name: string, i: nat, j: nat): string
    requires i < j <= |s|
    decreases |s| - i, 1, |s| - j
  {
    if j == |s| then TextFrom(s, name, i + 1)
    else if s[j] == '>' then PayloadScan(s, name, i, j + 1, j + 1)
    else TagScan(s, name, i, j + 1)
  }

  /** The attempt at `i`, inside the payload starting at `k`, at `p`. */
  function PayloadScan(s: string, name: string, i: nat, k: nat, p: nat): string
    requires i < k <= p <= |s|
    decreases |s| - i, 0, |s| - p
  {
    if p == |s| || s[p] == '<' then
      if CloseAt(s, p, name) then s[k..p] + TextFrom(s, name, p + |name| + 3)
      else TextFrom(s, name, i + 1)
    else PayloadScan(s, name, i, k, p + 1)
  }

  /** Payloads hold no `<`, so neither does the collected text. */
  lemma {:induction false} TextFromFree(s: string, name: string, i: nat)
    requires i <= |s|
    ensures Free(TextFrom(s, name, i), '<')
    decreases |s| - i, 2, 0
  {
    if i < |s| {
      if OpenAt(s, i, name) {
        TagScanFree(s, name, i, i + |name| + 1);
      } else {
        TextFromFree(s, name, i + 1);
      }
    }
  }

  lemma {:induction false} TagScanFree(s: string, name: string, i: nat, j: nat)
    requires i < j <= |s|
    ensures Free(TagScan(s, name, i, j), '<')
    decreases |s| - i, 1, |s| - j
  {
    if j == |s| {
      TextFromFree(s, name, i + 1);
    } else if s[j] == '>' {
      PayloadScanFree(s, name, i, j + 1, j + 1);
    } else {
      TagScanFree(s, name, i, j + 1);
    }
  }

  lemma {:induction false} PayloadScanFree(s: string, name: string, i: nat, k: nat, p: nat)
    requires i < k <= p <= |s| && NoneIn(s, '<', k, p)
    ensures Free(PayloadScan(s, name, i, k, p), '<')
    decreases |s| - i, 0, |s| - p
  {
    if p == |s| || s[p] == '<' {
      if CloseAt(s, p, name) {
        FreeSlice(s, '<', k, p);
        TextFromFree(s, name, p + |name| + 3);
        FreeConcat(s[k..p], TextFrom(s, name, p + |name| + 3), '<');
      } else {
        TextFromFree(s, name, i + 1);
      }
    } else {
      PayloadScanFree(s, name, i, k, p + 1);
    }
  }

  /** The text a reader sees: the payloads of all `<w:t…>` elements. */
  function VisibleText(s: string): string
  {
    TextFrom(s, "w:t", 0)
  }

  /** Where `findTextInXml` finds a target. */
  datatype Location = FoundDirect | FoundInRuns | NotFound

  /** `findTextInXml`: a raw test against the markup first, then a test
      against the concatenated run text. */
  function FindTextInXml(s: string, t: string): (r: Location)
    ensures r == FoundDirect <==> Contains(s, t)
    ensures r == FoundInRuns <==> !Contains(s, t) && Contains(VisibleText(s), t)
    ensures r == NotFound <==> !Contains(s, t) && !Contains(VisibleText(s), t)
  {
    if Contains(s, t) then FoundDirect
    else if Contains(VisibleText(s), t) then FoundInRuns
    else NotFound
  }

  lemma ContainsChar(s: string, t: string, c: char)
    requires Contains(s, t) && c in t
    ensures c in s
  {
    var i: nat :| i <= |s| && HasPrefixAt(s, i, t);
    var p :| 0 <= p < |t| && t[p] == c;
    assert s[i..i + |t|][p] == s[i + p];
  }

  /** Run text never holds `<`, so a target holding `<` is either found in
      the raw markup or not at all. */
  lemma MarkupTargetNeverInRuns(s: string, t: string)
    requires '<' in t
    ensures FindTextInXml(s, t) != FoundInRuns
  {
    if Contains(VisibleText(s), t) {
      ContainsChar(VisibleText(s), t, '<');
      TextFromFree(s, "w:t", 0);
    }
  }

  // ---- reading a document piece by piece --------------------------------

  /** An element starting at `i` contributes its payload, and the scan
      resumes after its end tag. */
  lemma TextFromAtElement(s: string, name: string, i: nat, k: nat, m: nat)
    requires IsElement(s, name, i, k, m)
    ensures m + |name| + 3 <= |s|
    ensures TextFrom(s, name, i) == s[k..m] + TextFrom(s, name, m + |name| + 3)
  {
    TagScanFinds(s, name, i, i + |name| + 1, k, m);
  }

  lemma {:induction false} TagScanFinds(s: string, name: string, i: nat, j: nat, k: nat, m: nat)
    requires IsElement(s, name, i, k, m) && i + |name| + 1 <= j <= k - 1
    ensures TagScan(s, name, i, j) == s[k..m] + TextFrom(s, name, m + |name| + 3)
    decreases k - j
  {
    if j < k - 1 {
      assert s[j] != '>';
      TagScanFinds(s, name, i, j + 1, k, m);
    } else {
      PayloadScanFinds(s, name, i, k, k, m);
    }
  }

  lemma {:induction false} PayloadScanFinds(s: string, name: string, i: nat, k: nat, p: nat, m: nat)
    requires IsElement(s, name, i, k, m) && k <= p <= m
    ensures PayloadScan(s, name, i, k, p) == s[k..m] + TextFrom(s, name, m + |name| + 3)
    decreases m - p
  {
    if p < m {
      assert s[p] != '<';
      PayloadScanFinds(s, name, i, k, p + 1, m);
    }
  }

  /** Where the pattern cannot match at `i`, the scan moves on to `i + 1`. */
  lemma TextFromNoElement(s: string, name: string, i: nat)
    requires i < |s| && forall k: nat, m: nat :: !IsElement(s, name, i, k, m)
    ensures TextFrom(s, name, i) == TextFrom(s, name, i + 1)
  {
    if OpenAt(s, i, name) {
      TagScanFails(s, name, i, i + |name| + 1);
    }
  }

  lemma {:induction false} TagScanFails(s: string, name: string, i: nat, j: nat)
    requires OpenAt(s, i, name) && i + |name| + 1 <= j <= |s| && NoneIn(s, '>', i + |name| + 1, j)
    requires forall k: nat, m: nat :: !IsElement(s, name, i, k, m)
    ensures TagScan(s, name, i, j) == TextFrom(s, name, i + 1)
    decreases |s| - j
  {
    if j < |s| {
      if s[j] == '>' {
        PayloadScanFails(s, name, i, j + 1, j + 1);
      } else {
        TagScanFails(s, name, i, j + 1);
      }
    }
  }

  lemma {:induction false} PayloadScanFails(s: string, name: string, i: nat, k: nat, p: nat)
    requires OpenAt(s, i, name) && i + |name| + 2 <= k <= p <= |s|
    requires s[k - 1] == '>' && NoneIn(s, '>', i + |name| + 1, k - 1) && NoneIn(s, '<', k, p)
    requires forall k: nat, m: nat :: !IsElement(s, name, i, k, m)
    ensures PayloadScan(s, name, i, k, p) == TextFrom(s, name, i + 1)
    decreases |s| - p
  {
    if p == |s| || s[p] == '<' {
      assert !IsElement(s, name, i, k, p);
    } else {
      PayloadScanFails(s, name, i, k, p + 1);
    }
  }

  /** A stretch with no `<name` in it contributes nothing. */
  lemma {:induction false} TextFromSkip(s: string, name: string, i: nat, j: nat)
    requires i <= j <= |s|
    requires NoOpen(s, name, i, j)
    ensures TextFrom(s, name, i) == TextFrom(s, name, j)
    decreases j - i
  {
    if i < j {
      TextFromSkip(s, name, i + 1, j);
    }
  }

  /** The `<` at `p` of `x` is followed, inside `x`, by a character that
      differs from `name`. */
  predicate Breaks(x: string, p: nat, name: string)
  {
    exists d :: 0 <= d < |name| && p + 1 + d < |x| && x[p + 1 + d] != name[d]
  }

  /** No `<name` can start in `x`, whatever follows `x`. */
  predicate Quiet(x: string, name: string)
  {
    forall p: nat :: p < |x| && x[p] == '<' ==> Breaks(x, p, name)
  }

  lemma QuietFree(x: string, name: string)
    requires Free(x, '<')
    ensures Quiet(x, name)
  {
  }

  /** A tag whose name departs from `name` at index `d`. */
  lemma QuietTag(x: string, name: string, d: nat)
    requires |x| > 0 && x[0] == '<' && NoneIn(x, '<', 1, |x|)
    requires d < |name| && 1 + d < |x| && x[1 + d] != name[d]
    ensures Quiet(x, name)
  {
    assert Breaks(x, 0, name);
  }

  lemma QuietConcat(x: string, y: string, name: string)
    requires Quiet(x, name) && Quiet(y, name)
    ensures Quiet(x + y, name)
  {
    forall p: nat | p < |x + y| && (x + y)[p] == '<'
      ensures Breaks(x + y, p, name)
    {
      if p < |x| {
        var d :| 0 <= d < |name| && p + 1 + d < |x| && x[p + 1 + d] != name[d];
        assert (x + y)[p + 1 + d] == x[p + 1 + d];
      } else {
        assert y[p - |x|] == '<';
        var d :| 0 <= d < |name| && p - |x| + 1 + d < |y| && y[p - |x| + 1 + d] != name[d];
        assert (x + y)[p + 1 + d] == y[p - |x| + 1 + d];
      }
    }
  }

  /** A tag `<body>` whose body holds no `<` and departs from `name` at
      index `d`. */
  lemma TagQuiet(body: string, name: string, d: nat)
    requires Free(body, '<') && d < |body| && d < |name| && body[d] != name[d]
    ensures Quiet("<" + body + ">", name)
  {
    var x := "<" + body + ">";
    assert x[1 + d] == body[d];
    forall p | 1 <= p < |x| ensures x[p] != '<' {
      if p < |x| - 1 { assert x[p] == body[p - 1]; }
    }
    QuietTag(x, name, d);
  }

  /** An end tag whose name holds no `<`, for a `name` not starting with `/`. */
  lemma CloseTagQuiet(tag: string, name: string)
    requires Free(tag, '<') && |name| > 0 && name[0] != '/'
    ensures Quiet(CloseTag(tag), name)
  {
    var x := CloseTag(tag);
    assert x[1] == '/';
    forall p | 1 <= p < |x| ensures x[p] != '<' {
      if 2 <= p < |x| - 1 { assert x[p] == tag[p - 2]; }
    }
    QuietTag(x, name, 0);
  }

  /** A block `head open payload </close> tail` of quiet pieces is quiet. */
  lemma QuietBlock(head: string, open: string, payload: string, close: string, tail: string, name: string)
    requires Quiet(head, name) && Quiet(open, name) && Quiet(payload, name)
    requires Quiet(CloseTag(close), name) && Quiet(tail, name)
    ensures Quiet(head + (open + (payload + (CloseTag(close) + tail))), name)
  {
    QuietConcat(CloseTag(close), tail, name);
    QuietConcat(payload, CloseTag(close) + tail, name);
    QuietConcat(open, payload + (CloseTag(close) + tail), name);
    QuietConcat(head, open + (payload + (CloseTag(close) + tail)), name);
  }

  /** No `<name` starts in `[i, j)`. */
  predicate NoOpen(s: string, name: string, i: nat, j: nat)
  {
    forall p: nat :: i <= p < j ==> !OpenAt(s, p, name)
  }

  /** A quiet piece placed at `i` holds no start of an element. */
  lemma QuietPlaced(s: string, name: string, i: nat, x: string)
    requires SameAt(s, i, x) && Quiet(x, name)
    ensures NoOpen(s, name, i, i + |x|)
  {
    forall p: nat | i <= p < i + |x|
      ensures !OpenAt(s, p, name)
    {
      assert s[i + (p - i)] == x[p - i];
      if s[p] == '<' {
        var d :| 0 <= d < |name| && p - i + 1 + d < |x| && x[p - i + 1 + d] != name[d];
        assert s[i + (p - i + 1 + d)] == x[p - i + 1 + d];
      }
    }
  }

  /** A quiet piece placed at `i` contributes nothing. */
  lemma QuietSkip(s: string, name: string, i: nat, x: string)
    requires SameAt(s, i, x) && Quiet(x, name)
    ensures i + |x| <= |s|
    ensures TextFrom(s, name, i) == TextFrom(s, name, i + |x|)
  {
    QuietPlaced(s, name, i, x);
    TextFromSkip(s, name, i, i + |x|);
  }

  /** A start tag `<name…>` whose attributes hold no `>`. */
  predicate IsOpenTag(open: string, name: string)
  {
    && |name| + 2 <= |open|
    && OpenAt(open, 0, name)
    && open[|open| - 1] == '>'
    && NoneIn(open, '>', |name| + 1, |open| - 1)
  }

  /** A start tag found in `s` is an `IsOpenTag` once cut out. */
  lemma OpenTagSlice(s: string, name: string, i: nat, k: nat)
    requires OpenAt(s, i, name) && i + |name| + 2 <= k <= |s| && s[k - 1] == '>'
    requires NoneIn(s, '>', i + |name| + 1, k - 1)
    ensures IsOpenTag(s[i..k], name)
  {
    var open := s[i..k];
    forall q | 0 <= q < |name| ensures open[1 + q] == name[q] {
      assert s[i + 1 + q] == name[q];
    }
  }

  lemma PlainOpenTag(name: string)
    requires '>' !in name
    ensures IsOpenTag(StartTag(name), name)
  {
    var open := StartTag(name);
    forall q | 0 <= q < |name| ensures open[1 + q] == name[q] { }
  }

  /** The start tag occupies `s[i..k]`. */
  lemma OpenTagPlaced(s: string, name: string, i: nat, open: string)
    requires IsOpenTag(open, name) && SameAt(s, i, open)
    ensures OpenAt(s, i, name)
    ensures s[i + |open| - 1] == '>'
    ensures NoneIn(s, '>', i + |name| + 1, i + |open| - 1)
  {
    assert s[i + 0] == open[0];
    forall q | 0 <= q < |name| ensures s[i + 1 + q] == name[q] {
      assert s[i + (1 + q)] == open[1 + q];
    }
    forall p | i + |name| + 1 <= p < i + |open| - 1 && p < |s| ensures s[p] != '>' {
      assert s[i + (p - i)] == open[p - i];
    }
  }

  /** `</name>` occupies `s[m..]`. */
  lemma CloseTagPlaced(s: string, name: string, m: nat)
    requires SameAt(s, m, CloseTag(name))
    ensures CloseAt(s, m, name)
  {
    var c := CloseTag(name);
    assert s[m + 0] == c[0] && s[m + 1] == c[1];
    assert s[m + (2 + |name|)] == c[2 + |name|];
    forall q | 0 <= q < |name| ensures s[m + 2 + q] == name[q] {
      assert s[m + (2 + q)] == c[2 + q];
    }
  }

  /** A start tag, a `<`-free payload and the end tag placed one after the
      other form an element. */
  lemma PiecesFormElement(s: string, name: string, i: nat, open: string, payload: string)
    requires IsOpenTag(open, name) && Free(payload, '<')
    requires SameAt(s, i, open)
    requires SameAt(s, i + |open|, payload)
    requires SameAt(s, i + |open| + |payload|, CloseTag(name))
    ensures IsElement(s, name, i, i + |open|, i + |open| + |payload|)
    ensures s[i + |open|..i + |open| + |payload|] == payload
  {
    PrefixSame(s, i + |open|, payload);
    OpenTagPlaced(s, name, i, open);
    FreePlaced(s, '<', i + |open|, payload);
    CloseTagPlaced(s, name, i + |open| + |payload|);
  }

  /** An element with a known payload contributes exactly that payload. */
  lemma ElementPayload(s: string, name: string, i: nat, k: nat, payload: string)
    requires IsElement(s, name, i, k, k + |payload|) && s[k..k + |payload|] == payload
    ensures k + |payload| + |name| + 3 <= |s|
    ensures TextFrom(s, name, i) == payload + TextFrom(s, name, k + |payload| + |name| + 3)
  {
    TextFromAtElement(s, name, i, k, k + |payload|);
  }

  /** Where the pieces of a block `head open payload </name> tail` placed at
      `i` lie: the head and the tail start no element, and the element in
      between holds the payload. */
  lemma BlockPlaced(s: string, name: string, i: nat, head: string, open: string, payload: string, tail: string)
    requires Quiet(head, name) && IsOpenTag(open, name) && Free(payload, '<') && Quiet(tail, name)
    requires SameAt(s, i, head + (open + (payload + (CloseTag(name) + tail))))
    ensures NoOpen(s, name, i, i + |head|)
    ensures IsElement(s, name, i + |head|, i + |head| + |open|, i + |head| + |open| + |payload|)
    ensures s[i + |head| + |open|..i + |head| + |open| + |payload|] == payload
    ensures NoOpen(s, name, i + |head| + |open| + |payload| + |name| + 3,
                   i + |head| + |open| + |payload| + |name| + 3 + |tail|)
    ensures i + |head| + |open| + |payload| + |name| + 3 + |tail| <= |s|
  {
    var j := i + |head|;
    SameSplit(s, i, head, open + (payload + (CloseTag(name) + tail)));
    SameSplit(s, j, open, payload + (CloseTag(name) + tail));
    SameSplit(s, j + |open|, payload, CloseTag(name) + tail);
    SameSplit(s, j + |open| + |payload|, CloseTag(name), tail);
    BlockLayout(s, name, i, head, open, payload, tail);
  }

  /** Where the pieces of a block lie: no element starts in the head or the
      tail, and the element in between holds the payload. */
  lemma BlockLayout(s: string, name: string, i: nat, head: string, open: string, payload: string, tail: string)
    requires Quiet(head, name) && IsOpenTag(open, name) && Free(payload, '<') && Quiet(tail, name)
    requires SameAt(s, i, head) && SameAt(s, i + |head|, open)
    requires SameAt(s, i + |head| + |open|, payload)
    requires SameAt(s, i + |head| + |open| + |payload|, CloseTag(name))
    requires SameAt(s, i + |head| + |open| + |payload| + |CloseTag(name)|, tail)
    ensures NoOpen(s, name, i, i + |head|)
    ensures IsElement(s, name, i + |head|, i + |head| + |open|, i + |head| + |open| + |payload|)
    ensures s[i + |head| + |open|..i + |head| + |open| + |payload|] == payload
    ensures NoOpen(s, name, i + |head| + |open| + |payload| + |name| + 3,
                   i + |head| + |open| + |payload| + |name| + 3 + |tail|)
    ensures i + |head| + |open| + |payload| + |name| + 3 + |tail| <= |s|
  {
    QuietPlaced(s, name, i, head);
    PiecesFormElement(s, name, i + |head|, open, payload);
    QuietPlaced(s, name, i + |head| + |open| + |payload| + |name| + 3, tail);
  }

  /** What the scanner reads over such a layout. */
  lemma BlockRead(s: string, name: string, i: nat, j: nat, k: nat, payload: string, r: nat)
    requires i <= j && NoOpen(s, name, i, j)
    requires IsElement(s, name, j, k, k + |payload|) && s[k..k + |payload|] == payload
    requires k + |payload| + |name| + 3 <= r <= |s| && NoOpen(s, name, k + |payload| + |name| + 3, r)
    ensures TextFrom(s, name, i) == payload + TextFrom(s, name, r)
  {
    TextFromSkip(s, name, i, j);
    TextFromAtElement(s, name, j, k, k + |payload|);
    TextFromSkip(s, name, k + |payload| + |name| + 3, r);
  }

  // ---- reading placed pieces ---------------------------------------------

  /** Scanning from `i`, where `x` is placed, collects `text` for `x` and
      then goes on after it. */
  predicate ReadsAt(s: string, name: string, i: nat, x: string, text: string)
  {
    i + |x| <= |s| && TextFrom(s, name, i) == text + TextFrom(s, name, i + |x|)
  }

  /** `x` reads as `text` wherever it is placed. */
  ghost predicate ReadsAnywhere(name: string, x: string, text: string)
  {
    forall s: string, i: nat :: SameAt(s, i, x) ==> ReadsAt(s, name, i, x, text)
  }

  /** A quiet piece reads as nothing. */
  lemma ReadsQuiet(s: string, name: string, i: nat, x: string)
    requires SameAt(s, i, x) && Quiet(x, name)
    ensures ReadsAt(s, name, i, x, [])
  {
    QuietSkip(s, name, i, x);
    assert [] + TextFrom(s, name, i + |x|) == TextFrom(s, name, i + |x|);
  }

  /** Readings of adjacent pieces compose. */
  lemma ReadsConcat(s: string, name: string, i: nat, x: string, y: string, tx: string, ty: string)
    requires ReadsAt(s, name, i, x, tx) && ReadsAt(s, name, i + |x|, y, ty)
    ensures ReadsAt(s, name, i, x + y, tx + ty)
  {
    assert i + |x| + |y| == i + |x + y|;
    assert tx + (ty + TextFrom(s, name, i + |x + y|)) == (tx + ty) + TextFrom(s, name, i + |x + y|);
  }

  /** What the scanner reads over a block `head open payload </name> tail`
      placed at `i`. */
  lemma BlockText(s: string, name: string, i: nat, head: string, open: string, payload: string, tail: string)
    requires Quiet(head, name) && IsOpenTag(open, name) && Free(payload, '<') && Quiet(tail, name)
    requires SameAt(s, i, head + (open + (payload + (CloseTag(name) + tail))))
    ensures i + |head| + |open| + |payload| + |name| + 3 + |tail| <= |s|
    ensures TextFrom(s, name, i)
            == payload + TextFrom(s, name, i + |head| + |open| + |payload| + |name| + 3 + |tail|)
  {
    BlockPlaced(s, name, i, head, open, payload, tail);
    BlockRead(s, name, i, i + |head|, i + |head| + |open|, payload,
      i + |head| + |open| + |payload| + |name| + 3 + |tail|);
  }

  /** A block `head open payload </name> tail` reads as its payload. */
  lemma ReadsBlock(s: string, name: string, i: nat, head: string, open: string, payload: string, tail: string)
    requires Quiet(head, name) && IsOpenTag(open, name) && Free(payload, '<') && Quiet(tail, name)
    requires SameAt(s, i, head + (open + (payload + (CloseTag(name) + tail))))
    ensures ReadsAt(s, name, i, head + (open + (payload + (CloseTag(name) + tail))), payload)
  {
    var x := head + (open + (payload + (CloseTag(name) + tail)));
    assert |CloseTag(name)| == |name| + 3;
    assert i + |x| == i + |head| + |open| + |payload| + |name| + 3 + |tail|;
    BlockText(s, name, i, head, open, payload, tail);
  }

  /** The empty piece reads as nothing. */
  lemma ReadsNothing(s: string, name: string, i: nat)
    requires i <= |s|
    ensures ReadsAt(s, name, i, [], [])
  {
    assert [] + TextFrom(s, name, i) == TextFrom(s, name, i);
  }

  /** A lone element `open payload </name>` reads as its payload. */
  lemma ReadsElement(s: string, name: string, i: nat, open: string, payload: string)
    requires IsOpenTag(open, name) && Free(payload, '<')
    requires SameAt(s, i, open + (payload + CloseTag(name)))
    ensures ReadsAt(s, name, i, open + (payload + CloseTag(name)), payload)
  {
    var x := open + (payload + CloseTag(name));
    assert [] + (open + (payload + (CloseTag(name) + []))) == x;
    ReadsBlock(s, name, i, [], open, payload, []);
  }
}
