/** The pure steps of the analysis service around the model call: the
    length check on the contract text, cutting the JSON array out of the
    model's reply, giving every analysis an id, and the severity summary.
    The model's reply is a parameter, and so is the JSON parser. */
module Analyzer {
  import opened Results
  import opened Strings
  import opened Analyses

  // ---- the contract text -------------------------------------------------

  const MinContractLength: nat := 100

  /** The contract is refused when it is empty or its trimmed text is
      shorter than 100 characters (an empty text is also short). */
  predicate ContractTextAccepted(text: string)
  {
    |Trim(text)| >= MinContractLength
  }

  /** `text[i]` and `text[j - 1]` are both non-space. */
  predicate NonSpaceEnds(text: string, i: nat, j: nat)
  {
    i < j <= |text| && !IsSpace(text[i]) && !IsSpace(text[j - 1])
  }

  /** A text is accepted exactly when its first and last non-space
      characters are at least 100 characters apart, counting both. */
  lemma ContractTextAcceptedIff(text: string)
    ensures ContractTextAccepted(text) <==>
              exists i: nat, j: nat :: NonSpaceEnds(text, i, j) && j - i >= MinContractLength
  {
    var a := SkipSpace(text, 0);
    var b := SkipSpaceBack(text, a, |text|);
    assert Trim(text) == text[a..b];
    if ContractTextAccepted(text) {
      assert !IsSpace(text[a]) && !IsSpace(text[b - 1]);
    }
    if ContractTextAccepted(text) {
      assert NonSpaceEnds(text, a, b);
    }
    if exists i: nat, j: nat :: NonSpaceEnds(text, i, j) && j - i >= MinContractLength {
      var i: nat, j: nat :| NonSpaceEnds(text, i, j) && j - i >= MinContractLength;
      assert a <= i && j <= b;
    }
  }

  // ---- the model's reply -------------------------------------------------

  /** `[` at `i` and `]` at `j`, later: a match of `\[[\s\S]*\]` spans
      exactly such a pair. */
  predicate BracketPair(s: string, i: nat, j: nat)
  {
    i < j < |s| && s[i] == '[' && s[j] == ']'
  }

  /** Index of the last `c` at or after `lo`, if any. */
  function LastIndexOfChar(s: string, c: char, lo: nat): (r: Option<nat>)
    requires lo <= |s|
    ensures r.Some? ==> lo <= r.value < |s| && s[r.value] == c && NoneIn(s, c, r.value + 1, |s|)
    ensures r.None? ==> NoneIn(s, c, lo, |s|)
    decreases |s| - lo
  {
    if lo == |s| then None
    else match LastIndexOfChar(s, c, lo + 1)
      case Some(j) => Some(j)
      case None => if s[lo] == c then Some(lo) else None
  }

  /** The text `/\[[\s\S]*\]/` matches in the reply: the regular expression
      has no `g` flag, so the match starts at the leftmost `[` that has a
      `]` after it, and the greedy middle runs to the last `]`. */
  function BracketedSpan(s: string): (r: Option<string>)
    ensures r.None? <==> forall i: nat, j: nat :: !BracketPair(s, i, j)
    ensures r.Some? ==>
              exists i: nat, j: nat ::
                && BracketPair(s, i, j) && r.value == s[i..j + 1]
                && (forall i': nat, j': nat :: BracketPair(s, i', j') ==> i <= i' && j' <= j)
  {
    var i := FindChar(s, '[', 0);
    FindCharSkips(s, '[', 0);
    if i == |s| then None
    else match LastIndexOfChar(s, ']', i + 1)
      case None => None
      case Some(j) =>
        assert BracketPair(s, i, j);
        Some(s[i..j + 1])
  }

  datatype ParseError = NoJsonArray | InvalidJson

  /** `parseAnalysisResponse`: cut out the bracketed span and hand it to the
      JSON parser `parse` (`None` when `JSON.parse` throws). */
  function ParseAnalysisResponse(reply: string, parse: string -> Option<seq<Analysis>>)
    : (r: Result<seq<Analysis>, ParseError>)
    ensures r == Failure(NoJsonArray) <==> BracketedSpan(reply).None?
    ensures r == Failure(InvalidJson) <==>
              BracketedSpan(reply).Some? && parse(BracketedSpan(reply).value).None?
    ensures r.Success? ==> Some(r.value) == parse(BracketedSpan(reply).value)
  {
    match BracketedSpan(reply)
    case None => Failure(NoJsonArray)
    case Some(candidate) =>
      match parse(candidate)
      case None => Failure(InvalidJson)
      case Some(list) => Success(list)
  }

  // ---- ids and summary ---------------------------------------------------

  /** The id given to the analysis at `index` when it has none. */
  function DefaultId(index: nat): string
  {
    "clause-" + NatToString(index + 1)
  }

  /** The analysis at `index` after id defaulting: `{...analysis, id:
      analysis.id || `clause-${index + 1}`}`. */
  function Identify(a: Analysis, index: nat): (r: Analysis)
    ensures Truthy(r.id)
    ensures r == a.(id := r.id)
  {
    a.(id := if Truthy(a.id) then a.id else DefaultId(index))
  }

  /** `analyses.map(...)` with the index. */
  function WithIds(list: seq<Analysis>): (r: seq<Analysis>)
    ensures |r| == |list|
    ensures forall k :: 0 <= k < |list| ==> r[k] == Identify(list[k], k)
  {
    seq(|list|, k requires 0 <= k < |list| => Identify(list[k], k))
  }

  /** Default ids never collide with one another. */
  lemma DefaultIdInjective(a: nat, b: nat)
    requires DefaultId(a) == DefaultId(b)
    ensures a == b
  {
    assert NatToString(a + 1) == DefaultId(a)[7..] == DefaultId(b)[7..] == NatToString(b + 1);
    NatToStringInjective(a + 1, b + 1);
  }

  /** Processing keeps the length, the order and every field but the id; a
      non-empty id is kept, an empty one becomes `clause-<index + 1>`; and
      when the reply gave no ids at all, the ids are pairwise distinct. */
  lemma WithIdsIdentify(list: seq<Analysis>)
    ensures |WithIds(list)| == |list|
    ensures forall k :: 0 <= k < |list| ==> WithIds(list)[k] == list[k].(id := WithIds(list)[k].id)
    ensures forall k :: 0 <= k < |list| && Truthy(list[k].id) ==> WithIds(list)[k].id == list[k].id
    ensures forall k :: 0 <= k < |list| && !Truthy(list[k].id) ==> WithIds(list)[k].id == DefaultId(k)
    ensures forall k :: 0 <= k < |list| ==> Truthy(WithIds(list)[k].id)
    ensures (forall k :: 0 <= k < |list| ==> !Truthy(list[k].id)) ==>
              forall k, l :: 0 <= k < l < |list| ==> WithIds(list)[k].id != WithIds(list)[l].id
  {
    var r := WithIds(list);
    if forall k :: 0 <= k < |list| ==> !Truthy(list[k].id) {
      forall k, l | 0 <= k < l < |list| ensures r[k].id != r[l].id {
        if r[k].id == r[l].id {
          DefaultIdInjective(k, l);
        }
      }
    }
  }

  /** Giving ids changes no severity, so no count. */
  lemma {:induction false} WithIdsCounts(list: seq<Analysis>, sev: string)
    ensures CountSeverity(WithIds(list), sev) == CountSeverity(list, sev)
  {
    if |list| > 0 {
      var r := WithIds(list);
      assert r[..|r| - 1] == WithIds(list[..|list| - 1]);
      WithIdsCounts(list[..|list| - 1], sev);
    }
  }

  /** The three severities the service counts. */
  predicate KnownSeverity(sev: string)
  {
    sev == "RED" || sev == "YELLOW" || sev == "GREEN"
  }

  /** The counts of the three severities never exceed the list length, and
      reach it exactly when every severity is one of the three. */
  lemma {:induction false} SeverityCountsBound(list: seq<Analysis>)
    ensures CountSeverity(list, "RED") + CountSeverity(list, "YELLOW") + CountSeverity(list, "GREEN") <= |list|
    ensures CountSeverity(list, "RED") + CountSeverity(list, "YELLOW") + CountSeverity(list, "GREEN") == |list|
            <==> forall k :: 0 <= k < |list| ==> KnownSeverity(list[k].severity)
  {
    if |list| > 0 {
      var init := list[..|list| - 1];
      SeverityCountsBound(init);
      assert forall k :: 0 <= k < |init| ==> init[k] == list[k];
    }
  }

  datatype Summary = Summary(red: nat, yellow: nat, green: nat, total: nat)

  /** The `summary` object of the result. */
  function Summarize(list: seq<Analysis>): (r: Summary)
    ensures r.total == |list|
    ensures r.red == CountSeverity(list, "RED") && r.yellow == CountSeverity(list, "YELLOW")
            && r.green == CountSeverity(list, "GREEN")
    ensures r.red + r.yellow + r.green <= r.total
    ensures r.red + r.yellow + r.green == r.total <==> forall k :: 0 <= k < |list| ==> KnownSeverity(list[k].severity)
  {
    SeverityCountsBound(list);
    Summary(CountSeverity(list, "RED"), CountSeverity(list, "YELLOW"), CountSeverity(list, "GREEN"), |list|)
  }

  // ---- the whole post-processing -----------------------------------------

  datatype AnalyzeError = ContractTooShort | BadResponse(reason: ParseError)

  datatype Analyzed = Analyzed(analyses: seq<Analysis>, summary: Summary)

  /** `analyzeContract` without the document extraction and the model call:
      `contractText` is the extracted text and `reply` the model's text. */
  function AnalyzeContract(contractText: string, reply: string, parse: string -> Option<seq<Analysis>>)
    : (r: Result<Analyzed, AnalyzeError>)
    ensures !ContractTextAccepted(contractText) <==> r == Failure(ContractTooShort)
    ensures ContractTextAccepted(contractText) && ParseAnalysisResponse(reply, parse).Failure? ==>
              r == Failure(BadResponse(ParseAnalysisResponse(reply, parse).error))
    ensures r.Success? ==>
              && ParseAnalysisResponse(reply, parse).Success?
              && r.value.analyses == WithIds(ParseAnalysisResponse(reply, parse).value)
              && |r.value.analyses| == |ParseAnalysisResponse(reply, parse).value|
              && r.value.summary.total == |r.value.analyses|
              && (forall k :: 0 <= k < |r.value.analyses| ==> Truthy(r.value.analyses[k].id))
              && r.value.summary.red == CountSeverity(ParseAnalysisResponse(reply, parse).value, "RED")
              && r.value.summary.yellow == CountSeverity(ParseAnalysisResponse(reply, parse).value, "YELLOW")
              && r.value.summary.green == CountSeverity(ParseAnalysisResponse(reply, parse).value, "GREEN")
  {
    if !ContractTextAccepted(contractText) then Failure(ContractTooShort)
    else match ParseAnalysisResponse(reply, parse)
      case Failure(e) => Failure(BadResponse(e))
      case Success(list) =>
        var processed := WithIds(list);
        WithIdsIdentify(list);
        WithIdsCounts(list, "RED");
        WithIdsCounts(list, "YELLOW");
        WithIdsCounts(list, "GREEN");
        Success(Analyzed(processed, Summarize(processed)))
  }
}
