/** The redline engine proper: applying one change to the document markup,
    switching on revision tracking in the settings part, and the loop of
    `generateRedline` that threads the document, the revision-id counter and
    the applied / failed lists through the change list. The `.docx` archive
    is a map from part name to the part's text. */
module Redline {
  import opened Results
  import opened Strings
  import opened Analyses
  import opened TextRuns
  import opened SpanReplacer

  // ---- applying one change -----------------------------------------------

  /** `change.location?.searchText || change.redline.delete`. */
  function SearchTextOf(a: Analysis): (r: string)
    ensures a.searchText.Some? && Truthy(a.searchText.value) ==> r == a.searchText.value
    ensures a.searchText.None? || !Truthy(a.searchText.value) ==> r == a.delete
  {
    match a.searchText
    case Some(t) => if Truthy(t) then t else a.delete
    case None => a.delete
  }

  /** The search text is missing only when both the location and the
      deletion are. */
  lemma SearchTextMissing(a: Analysis)
    ensures !Truthy(SearchTextOf(a)) <==>
              (a.searchText.None? || !Truthy(a.searchText.value)) && !Truthy(a.delete)
  {
  }

  datatype Applied = Applied(content: string, applied: bool)

  /** `applyChange`: skip a change without search text or whose search text
      the locator cannot find, otherwise replace and report whether the
      replace did anything. */
  function ApplyChange(xml: string, a: Analysis, changeIdBase: nat, date: string): (r: Applied)
    ensures !r.applied ==> r.content == xml
    ensures r.applied ==> Truthy(SearchTextOf(a)) && Contains(xml, SearchTextOf(a))
    ensures !Truthy(SearchTextOf(a)) ==> !r.applied
    ensures FindTextInXml(xml, SearchTextOf(a)) == NotFound ==> !r.applied
  {
    var searchText := SearchTextOf(a);
    if !Truthy(searchText) then Applied(xml, false)
    else if FindTextInXml(xml, searchText) == NotFound then Applied(xml, false)
    else
      var out := ReplaceTextWithTrackedChange(xml, searchText, a.delete, a.insert, changeIdBase, date);
      Applied(out.content, out.replaced)
  }

  /** The locator never changes the outcome: for a change with search text,
      applying it is exactly the replace, and `applied` is `replaced`. */
  lemma ApplyChangeIsReplace(xml: string, a: Analysis, changeIdBase: nat, date: string)
    requires Truthy(SearchTextOf(a))
    ensures ApplyChange(xml, a, changeIdBase, date).applied ==
              ReplaceTextWithTrackedChange(xml, SearchTextOf(a), a.delete, a.insert, changeIdBase, date).replaced
    ensures ApplyChange(xml, a, changeIdBase, date).content ==
              ReplaceTextWithTrackedChange(xml, SearchTextOf(a), a.delete, a.insert, changeIdBase, date).content
  {
  }

  /** For a search text without `<`, a change is applied exactly when some
      `<w:t>` element's payload contains it. */
  lemma AppliedIffRunContains(xml: string, a: Analysis, changeIdBase: nat, date: string)
    requires Truthy(SearchTextOf(a)) && Free(SearchTextOf(a), '<')
    ensures ApplyChange(xml, a, changeIdBase, date).applied <==>
              exists i: nat, k: nat, m: nat :: RunHolds(xml, SearchTextOf(a), i, k, m)
  {
    ApplyChangeIsReplace(xml, a, changeIdBase, date);
    ReplacedIffRunContains(xml, SearchTextOf(a),
      RevisionMarkup.RedlineXml(a.delete, a.insert, changeIdBase, date));
  }

  // ---- the settings part -------------------------------------------------

  const TrackRevisionsPrefix: string := "<w:trackRevisions"
  const TrackRevisions: string := "<w:trackRevisions/>"
  const SettingsClose: string := "</w:settings>"

  /** `enableTrackChanges`: unless the settings already mention
      `<w:trackRevisions`, put `<w:trackRevisions/>` in front of the first
      `</w:settings>` (JavaScript `replace` with a string pattern replaces
      only the first occurrence). */
  function EnableTrackChanges(settings: string): (r: string)
    ensures Contains(settings, TrackRevisionsPrefix) ==> r == settings
    ensures !Contains(settings, SettingsClose) ==> r == settings
    ensures !Contains(settings, TrackRevisionsPrefix) && Contains(settings, SettingsClose) ==>
              exists p: nat ::
                && HasPrefixAt(settings, p, SettingsClose)
                && (forall q: nat :: q < p ==> !HasPrefixAt(settings, q, SettingsClose))
                && r == settings[..p] + TrackRevisions + settings[p..]
  {
    if Contains(settings, TrackRevisionsPrefix) then settings
    else match IndexOf(settings, SettingsClose)
      case None => settings
      case Some(p) =>
        InsertBefore(settings, p, TrackRevisions, SettingsClose);
        settings[..p] + (TrackRevisions + SettingsClose) + settings[p + |SettingsClose|..]
  }

  /** Whenever the settings part has a closing tag, tracking is on afterwards. */
  lemma EnableTrackChangesEnables(settings: string)
    ensures Contains(settings, SettingsClose) ==> Contains(EnableTrackChanges(settings), TrackRevisionsPrefix)
  {
    if !Contains(settings, TrackRevisionsPrefix) && Contains(settings, SettingsClose) {
      var p: nat :| && HasPrefixAt(settings, p, SettingsClose) && p <= |settings|
                    && EnableTrackChanges(settings) == settings[..p] + TrackRevisions + settings[p..];
      assert HasPrefixAt(TrackRevisions, 0, TrackRevisionsPrefix);
      ContainsPiece(settings[..p], TrackRevisions, settings[p..], TrackRevisionsPrefix);
    }
  }

  /** Switching tracking on twice is the same as once. */
  lemma EnableTrackChangesIdempotent(settings: string)
    ensures EnableTrackChanges(EnableTrackChanges(settings)) == EnableTrackChanges(settings)
  {
    EnableTrackChangesEnables(settings);
  }

  // ---- the change loop ---------------------------------------------------

  /** The loop state: the document markup, the next free revision id, and the
      ids of the changes applied and failed so far. */
  datatype Progress = Progress(document: string, counter: nat, applied: seq<string>, failed: seq<string>)

  /** The state before the first change. */
  function Start(document: string): Progress
  {
    Progress(document, 1, [], [])
  }

  /** One turn of the loop: a change with neither deletion nor insertion is
      skipped; any other is applied with the current counter as its base id
      and lands in the applied list exactly when `applyChange` reports it
      applied, in the failed list otherwise. */
  function Step(p: Progress, a: Analysis, date: string): (r: Progress)
    ensures IsNoop(a) ==> r == p
    ensures !IsNoop(a) ==>
              || (r.applied == p.applied + [a.id] && r.failed == p.failed && r.counter == p.counter + 2)
              || (r.failed == p.failed + [a.id] && r.applied == p.applied && r.counter == p.counter)
    ensures !IsNoop(a) ==> (r.applied != p.applied <==> ApplyChange(p.document, a, p.counter, date).applied)
    ensures r.applied == p.applied ==> r.document == p.document
    ensures r.applied != p.applied ==>
              r.document == ReplaceTextWithTrackedChange(p.document, SearchTextOf(a), a.delete, a.insert,
                                                         p.counter, date).content
  {
    if IsNoop(a) then p
    else
      var out := ApplyChange(p.document, a, p.counter, date);
      if out.applied then Progress(out.content, p.counter + 2, p.applied + [a.id], p.failed)
      else Progress(out.content, p.counter, p.applied, p.failed + [a.id])
  }

  /** For a search text without `<`, a non-trivial change lands in the
      applied list exactly when some `<w:t>` element of the current document
      holds its search text. */
  lemma StepAppliedIffRunContains(p: Progress, a: Analysis, date: string)
    requires !IsNoop(a) && Truthy(SearchTextOf(a)) && Free(SearchTextOf(a), '<')
    ensures Step(p, a, date).applied != p.applied <==>
              exists i: nat, k: nat, m: nat :: RunHolds(p.document, SearchTextOf(a), i, k, m)
  {
    AppliedIffRunContains(p.document, a, p.counter, date);
  }

  /** The loop over `changes`, in order. */
  function Steps(p: Progress, changes: seq<Analysis>, date: string): Progress
  {
    if |changes| == 0 then p
    else Step(Steps(p, changes[..|changes| - 1], date), changes[|changes| - 1], date)
  }

  /** The ids `want`-flagged changes contribute, in order; changes with
      neither deletion nor insertion contribute nothing. */
  function Pick(changes: seq<Analysis>, ok: seq<bool>, want: bool): seq<string>
    requires |ok| == |changes|
  {
    if |changes| == 0 then []
    else
      Pick(changes[..|changes| - 1], ok[..|ok| - 1], want)
      + (if !IsNoop(changes[|changes| - 1]) && ok[|ok| - 1] == want then [changes[|changes| - 1].id] else [])
  }

  /** The counter advances by two per applied change, so from the start
      state it is always `1 + 2 * |applied|`: the k-th applied change (from
      0) gets the ids `2k + 1` and `2k + 2`, and no two share one. */
  lemma {:induction false} StepsCounter(p: Progress, changes: seq<Analysis>, date: string)
    ensures |Steps(p, changes, date).applied| >= |p.applied|
    ensures Steps(p, changes, date).counter == p.counter + 2 * (|Steps(p, changes, date).applied| - |p.applied|)
    decreases |changes|
  {
    if |changes| > 0 {
      StepsCounter(p, changes[..|changes| - 1], date);
    }
  }

  /** The outcome of each change: whether `applyChange` applies it to the
      document the loop has built so far, with the counter as it stands. */
  function Outcomes(p: Progress, changes: seq<Analysis>, date: string): (ok: seq<bool>)
    ensures |ok| == |changes|
  {
    if |changes| == 0 then []
    else
      var q := Steps(p, changes[..|changes| - 1], date);
      Outcomes(p, changes[..|changes| - 1], date) + [ApplyChange(q.document, changes[|changes| - 1], q.counter, date).applied]
  }

  /** The outcome of the change at `k`, in terms of the loop before it. */
  lemma {:induction false} OutcomesAt(p: Progress, changes: seq<Analysis>, date: string, k: nat)
    requires k < |changes|
    ensures Outcomes(p, changes, date)[k] ==
              ApplyChange(Steps(p, changes[..k], date).document, changes[k], Steps(p, changes[..k], date).counter, date).applied
    decreases |changes|
  {
    var init := changes[..|changes| - 1];
    if k < |changes| - 1 {
      OutcomesAt(p, init, date, k);
      assert init[..k] == changes[..k];
    } else {
      assert changes[..k] == init;
    }
  }

  /** One step in terms of its outcome flag. */
  lemma StepLists(q: Progress, a: Analysis, date: string)
    ensures Step(q, a, date).applied ==
              q.applied + (if !IsNoop(a) && ApplyChange(q.document, a, q.counter, date).applied then [a.id] else [])
    ensures Step(q, a, date).failed ==
              q.failed + (if !IsNoop(a) && !ApplyChange(q.document, a, q.counter, date).applied then [a.id] else [])
  {
  }

  /** Every change is either skipped (neither list), applied or failed, and
      both lists keep input order: the applied list is the ids of the
      non-trivial changes `applyChange` applied and the failed list the ids
      of the others. */
  lemma {:induction false} StepsPartition(p: Progress, changes: seq<Analysis>, date: string)
    requires p.applied == [] && p.failed == []
    ensures Steps(p, changes, date).applied == Pick(changes, Outcomes(p, changes, date), true)
    ensures Steps(p, changes, date).failed == Pick(changes, Outcomes(p, changes, date), false)
    decreases |changes|
  {
    if |changes| > 0 {
      var init := changes[..|changes| - 1];
      var a := changes[|changes| - 1];
      var q := Steps(p, init, date);
      StepsPartition(p, init, date);
      StepLists(q, a, date);
      var ok := Outcomes(p, changes, date);
      assert ok[..|ok| - 1] == Outcomes(p, init, date);
      assert Steps(p, changes, date) == Step(q, a, date);
    }
  }

  /** A failed or skipped change leaves the document byte for byte: if
      nothing was applied, the document is what it was. */
  lemma {:induction false} StepsNothingApplied(p: Progress, changes: seq<Analysis>, date: string)
    ensures Steps(p, changes, date).applied == p.applied ==> Steps(p, changes, date).document == p.document
    decreases |changes|
  {
    if |changes| > 0 {
      var q := Steps(p, changes[..|changes| - 1], date);
      StepsCounter(p, changes[..|changes| - 1], date);
      StepsNothingApplied(p, changes[..|changes| - 1], date);
    }
  }

  // ---- the archive -------------------------------------------------------

  const DocumentPart: string := "word/document.xml"
  const SettingsPart: string := "word/settings.xml"

  datatype GenerateError = NoChanges | MissingDocument

  /** The updated archive `generateRedline` returns, together with its
      internal `appliedChanges` and `failedChanges` lists, which the source
      only logs as counts; they are kept here so that the outcome of every
      change can be stated. */
  datatype Redlined = Redlined(parts: map<string, string>, applied: seq<string>, failed: seq<string>)

  /** `generateRedline`: refuse an empty change list, then an archive without
      the document part; otherwise run the loop over the document and switch
      on tracking in the settings part when there is one. The timestamp of
      the revisions is the parameter `date`. */
  function GenerateRedline(parts: map<string, string>, changes: seq<Analysis>, date: string)
    : (r: Result<Redlined, GenerateError>)
    ensures |changes| == 0 <==> r == Failure(NoChanges)
    ensures r == Failure(MissingDocument) <==> |changes| > 0 && DocumentPart !in parts
    ensures r.Success? ==> r.value.parts.Keys == parts.Keys
    ensures r.Success? ==>
              forall name :: name in parts && name != DocumentPart && name != SettingsPart ==>
                r.value.parts[name] == parts[name]
    ensures r.Success? && SettingsPart in parts ==>
              r.value.parts[SettingsPart] == EnableTrackChanges(parts[SettingsPart])
    ensures r.Success? && |r.value.applied| == 0 ==> r.value.parts[DocumentPart] == parts[DocumentPart]
    ensures r.Success? ==>
              var done := Steps(Start(parts[DocumentPart]), changes, date);
              && r.value.parts[DocumentPart] == done.document
              && r.value.applied == done.applied && r.value.failed == done.failed
  {
    if |changes| == 0 then Failure(NoChanges)
    else if DocumentPart !in parts then Failure(MissingDocument)
    else
      var done := Steps(Start(parts[DocumentPart]), changes, date);
      StepsNothingApplied(Start(parts[DocumentPart]), changes, date);
      var withDocument := parts[DocumentPart := done.document];
      var withSettings :=
        if SettingsPart in parts then withDocument[SettingsPart := EnableTrackChanges(parts[SettingsPart])]
        else withDocument;
      Success(Redlined(withSettings, done.applied, done.failed))
  }

  /** The outcome of a successful run, change by change: the applied list
      holds, in input order, the ids of the non-trivial changes that
      `applyChange` applies to the document as the earlier changes left it,
      the failed list the ids of the other non-trivial changes, and the k-th
      applied change used revision ids `2k + 1` and `2k + 2`. */
  lemma GenerateRedlineOutcome(parts: map<string, string>, changes: seq<Analysis>, date: string)
    requires GenerateRedline(parts, changes, date).Success?
    ensures GenerateRedline(parts, changes, date).value.applied ==
              Pick(changes, Outcomes(Start(parts[DocumentPart]), changes, date), true)
    ensures GenerateRedline(parts, changes, date).value.failed ==
              Pick(changes, Outcomes(Start(parts[DocumentPart]), changes, date), false)
    ensures forall k :: 0 <= k < |changes| ==>
              Outcomes(Start(parts[DocumentPart]), changes, date)[k] ==
                ApplyChange(Steps(Start(parts[DocumentPart]), changes[..k], date).document, changes[k],
                            Steps(Start(parts[DocumentPart]), changes[..k], date).counter, date).applied
    ensures Steps(Start(parts[DocumentPart]), changes, date).counter ==
              1 + 2 * |GenerateRedline(parts, changes, date).value.applied|
  {
    var p := Start(parts[DocumentPart]);
    StepsPartition(p, changes, date);
    StepsCounter(p, changes, date);
    forall k | 0 <= k < |changes|
      ensures Outcomes(p, changes, date)[k] ==
                ApplyChange(Steps(p, changes[..k], date).document, changes[k], Steps(p, changes[..k], date).counter, date).applied
    {
      OutcomesAt(p, changes, date, k);
    }
  }
}
