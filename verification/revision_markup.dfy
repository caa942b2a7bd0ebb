/** Rendering of one proposed edit as WordprocessingML revision markup: a
    `<w:del>` block holding the removed text in `<w:delText>` and a `<w:ins>`
    block holding the added text in `<w:t>` (the revision elements of section
    17.13.5 of ECMA-376 Part 1), each attributed to a fixed author and dated. */
module RevisionMarkup {
  import opened Strings
  import opened XmlEscape
  import opened TextRuns
  import Analyses

  /** The author recorded on every tracked change. */
  const Author: string := "Claude"

  /** The attributes of a revision start tag: id, author and date. */
  function RevisionAttributes(id: nat, date: string): string
  {
    " w:id=\"" + NatToString(id) + "\" w:author=\"" + Author + "\" w:date=\"" + date + "\""
  }

  /** `<w:del …>` or `<w:ins …>` start tag with id, author and date. */
  function RevisionOpen(kind: string, id: nat, date: string): string
  {
    "<" + (kind + RevisionAttributes(id, date)) + ">"
  }

  /** `createDeletionXml`. */
  function DeletionXml(text: string, id: nat, date: string): string
  {
    (RevisionOpen("w:del", id, date) + StartTag("w:r"))
    + (StartTag("w:delText") + (EscapeXml(text) + (CloseTag("w:delText") + (CloseTag("w:r") + CloseTag("w:del")))))
  }

  /** `createInsertionXml`. */
  function InsertionXml(text: string, id: nat, date: string): string
  {
    (RevisionOpen("w:ins", id, date) + StartTag("w:r"))
    + (StartTag("w:t") + (EscapeXml(text) + (CloseTag("w:t") + (CloseTag("w:r") + CloseTag("w:ins")))))
  }

  /** The deletion part of `createRedlineXml`: present only when there is
      text to delete. */
  function DeletionPart(deleteText: string, baseId: nat, date: string): string
  {
    if Analyses.Truthy(deleteText) then DeletionXml(deleteText, baseId, date) else []
  }

  /** The insertion part of `createRedlineXml`: present only when there is
      text to insert, with the id after the deletion's. */
  function InsertionPart(insertText: string, baseId: nat, date: string): string
  {
    if Analyses.Truthy(insertText) then InsertionXml(insertText, baseId + 1, date) else []
  }

  /** `createRedlineXml`: the parts joined, deletion first. */
  function RedlineXml(deleteText: string, insertText: string, baseId: nat, date: string): string
  {
    DeletionPart(deleteText, baseId, date) + InsertionPart(insertText, baseId, date)
  }

  lemma PrefixOfAppends(a: string, b: string, c: string, d: string)
    ensures HasPrefixAt(((a + b) + c) + d, 0, a)
  {
    var x := ((a + b) + c) + d;
    forall q | 0 <= q < |a| ensures x[0 + q] == a[q] { }
    PrefixSame(x, 0, a);
  }

  /** The rendered change is empty exactly when there is nothing to delete
      or insert; otherwise it opens with the deletion, numbered `baseId`, or
      when nothing is deleted with the insertion, numbered `baseId + 1`. */
  lemma RedlineShape(deleteText: string, insertText: string, baseId: nat, date: string)
    ensures RedlineXml(deleteText, insertText, baseId, date) == []
            <==> !Analyses.Truthy(deleteText) && !Analyses.Truthy(insertText)
    ensures Analyses.Truthy(deleteText) ==>
              HasPrefixAt(RedlineXml(deleteText, insertText, baseId, date), 0, RevisionOpen("w:del", baseId, date))
    ensures !Analyses.Truthy(deleteText) && Analyses.Truthy(insertText) ==>
              HasPrefixAt(RedlineXml(deleteText, insertText, baseId, date), 0, RevisionOpen("w:ins", baseId + 1, date))
  {
    var tail := InsertionPart(insertText, baseId, date);
    if Analyses.Truthy(deleteText) {
      PrefixOfAppends(RevisionOpen("w:del", baseId, date), StartTag("w:r"),
        StartTag("w:delText") + (EscapeXml(deleteText) + (CloseTag("w:delText") + (CloseTag("w:r") + CloseTag("w:del")))),
        tail);
    } else if Analyses.Truthy(insertText) {
      assert RedlineXml(deleteText, insertText, baseId, date) == InsertionXml(insertText, baseId + 1, date) + [];
      PrefixOfAppends(RevisionOpen("w:ins", baseId + 1, date), StartTag("w:r"),
        StartTag("w:t") + (EscapeXml(insertText) + (CloseTag("w:t") + (CloseTag("w:r") + CloseTag("w:ins")))),
        []);
    }
  }

  // ---- what a reader of the markup sees ---------------------------------

  lemma AttributesFree(id: nat, date: string)
    requires Free(date, '<')
    ensures Free(RevisionAttributes(id, date), '<')
  {
    var n := NatToString(id);
    assert Free(" w:id=\"", '<') && Free("\" w:author=\"", '<') && Free(Author, '<');
    assert Free("\" w:date=\"", '<') && Free("\"", '<');
    FreeConcat(" w:id=\"", n, '<');
    FreeConcat(" w:id=\"" + n, "\" w:author=\"", '<');
    FreeConcat(" w:id=\"" + n + "\" w:author=\"", Author, '<');
    FreeConcat(" w:id=\"" + n + "\" w:author=\"" + Author, "\" w:date=\"", '<');
    FreeConcat(" w:id=\"" + n + "\" w:author=\"" + Author + "\" w:date=\"", date, '<');
    FreeConcat(" w:id=\"" + n + "\" w:author=\"" + Author + "\" w:date=\"" + date, "\"", '<');
  }

  /** A revision start tag starts no element of either text kind. */
  lemma RevisionOpenQuiet(kind: string, id: nat, date: string, name: string)
    requires kind == "w:del" || kind == "w:ins"
    requires name == "w:t" || name == "w:delText"
    requires Free(date, '<')
    ensures Quiet(RevisionOpen(kind, id, date), name)
  {
    var attrs := RevisionAttributes(id, date);
    AttributesFree(id, date);
    assert Free(kind, '<');
    FreeConcat(kind, attrs, '<');
    if kind == "w:del" && name == "w:delText" {
      assert (kind + attrs)[5] == attrs[0] == ' ';
      TagQuiet(kind + attrs, name, 5);
    } else {
      assert (kind + attrs)[2] == kind[2];
      TagQuiet(kind + attrs, name, 2);
    }
  }

  /** The run and revision end tags start no element of either text kind. */
  lemma EndTagsQuiet(name: string)
    requires name == "w:t" || name == "w:delText"
    ensures Quiet(CloseTag("w:r") + CloseTag("w:del"), name)
    ensures Quiet(CloseTag("w:r") + CloseTag("w:ins"), name)
  {
    CloseTagQuiet("w:r", name);
    CloseTagQuiet("w:del", name);
    CloseTagQuiet("w:ins", name);
    QuietConcat(CloseTag("w:r"), CloseTag("w:del"), name);
    QuietConcat(CloseTag("w:r"), CloseTag("w:ins"), name);
  }

  /** The pieces of a deletion block: a head and a tail holding no
      `<w:delText>` element, around one `<w:delText>` element holding the
      escaped text. */
  lemma DeletionParts(text: string, id: nat, date: string)
    requires Free(date, '<')
    ensures Quiet(RevisionOpen("w:del", id, date) + StartTag("w:r"), "w:delText")
    ensures Quiet(CloseTag("w:r") + CloseTag("w:del"), "w:delText")
    ensures IsOpenTag(StartTag("w:delText"), "w:delText") && Free(EscapeXml(text), '<')
  {
    var n := "w:delText";
    RevisionOpenQuiet("w:del", id, date, n);
    TagQuiet("w:r", n, 2);
    QuietConcat(RevisionOpen("w:del", id, date), StartTag("w:r"), n);
    EndTagsQuiet(n);
    EscapeXmlEscaped(text);
    PlainOpenTag(n);
  }

  /** The pieces of an insertion block, around one `<w:t>` element. */
  lemma InsertionParts(text: string, id: nat, date: string)
    requires Free(date, '<')
    ensures Quiet(RevisionOpen("w:ins", id, date) + StartTag("w:r"), "w:t")
    ensures Quiet(CloseTag("w:r") + CloseTag("w:ins"), "w:t")
    ensures IsOpenTag(StartTag("w:t"), "w:t") && Free(EscapeXml(text), '<')
  {
    var n := "w:t";
    RevisionOpenQuiet("w:ins", id, date, n);
    TagQuiet("w:r", n, 2);
    QuietConcat(RevisionOpen("w:ins", id, date), StartTag("w:r"), n);
    EndTagsQuiet(n);
    EscapeXmlEscaped(text);
    PlainOpenTag(n);
  }

  /** Deleted text lives in `<w:delText>`, never in `<w:t>`. */
  lemma DeletionInvisible(text: string, id: nat, date: string)
    requires Free(date, '<')
    ensures Quiet(DeletionXml(text, id, date), "w:t")
  {
    var n := "w:t";
    RevisionOpenQuiet("w:del", id, date, n);
    TagQuiet("w:r", n, 2);
    QuietConcat(RevisionOpen("w:del", id, date), StartTag("w:r"), n);
    TagQuiet("w:delText", n, 2);
    EscapeXmlEscaped(text);
    QuietFree(EscapeXml(text), n);
    CloseTagQuiet("w:delText", n);
    EndTagsQuiet(n);
    QuietBlock(RevisionOpen("w:del", id, date) + StartTag("w:r"), StartTag("w:delText"), EscapeXml(text),
      "w:delText", CloseTag("w:r") + CloseTag("w:del"), n);
  }

  /** Inserted text lives in `<w:t>`, never in `<w:delText>`. */
  lemma InsertionNotDeleted(text: string, id: nat, date: string)
    requires Free(date, '<')
    ensures Quiet(InsertionXml(text, id, date), "w:delText")
  {
    var n := "w:delText";
    RevisionOpenQuiet("w:ins", id, date, n);
    TagQuiet("w:r", n, 2);
    QuietConcat(RevisionOpen("w:ins", id, date), StartTag("w:r"), n);
    TagQuiet("w:t", n, 2);
    EscapeXmlEscaped(text);
    QuietFree(EscapeXml(text), n);
    CloseTagQuiet("w:t", n);
    EndTagsQuiet(n);
    QuietBlock(RevisionOpen("w:ins", id, date) + StartTag("w:r"), StartTag("w:t"), EscapeXml(text),
      "w:t", CloseTag("w:r") + CloseTag("w:ins"), n);
  }

  /** An insertion block reads as its escaped text in `<w:t>` and as nothing
      in `<w:delText>`. */
  lemma InsertionReads(text: string, id: nat, date: string, s: string, i: nat)
    requires Free(date, '<') && SameAt(s, i, InsertionXml(text, id, date))
    ensures ReadsAt(s, "w:t", i, InsertionXml(text, id, date), EscapeXml(text))
    ensures ReadsAt(s, "w:delText", i, InsertionXml(text, id, date), [])
  {
    InsertionParts(text, id, date);
    ReadsBlock(s, "w:t", i, RevisionOpen("w:ins", id, date) + StartTag("w:r"), StartTag("w:t"), EscapeXml(text),
      CloseTag("w:r") + CloseTag("w:ins"));
    InsertionNotDeleted(text, id, date);
    ReadsQuiet(s, "w:delText", i, InsertionXml(text, id, date));
  }

  /** A deletion block reads as its escaped text in `<w:delText>` and as
      nothing in `<w:t>`. */
  lemma DeletionReads(text: string, id: nat, date: string, s: string, i: nat)
    requires Free(date, '<') && SameAt(s, i, DeletionXml(text, id, date))
    ensures ReadsAt(s, "w:delText", i, DeletionXml(text, id, date), EscapeXml(text))
    ensures ReadsAt(s, "w:t", i, DeletionXml(text, id, date), [])
  {
    DeletionParts(text, id, date);
    ReadsBlock(s, "w:delText", i, RevisionOpen("w:del", id, date) + StartTag("w:r"), StartTag("w:delText"),
      EscapeXml(text), CloseTag("w:r") + CloseTag("w:del"));
    DeletionInvisible(text, id, date);
    ReadsQuiet(s, "w:t", i, DeletionXml(text, id, date));
  }

  /** The empty string reads as nothing. */
  lemma DeletionPartReads(deleteText: string, baseId: nat, date: string, s: string, i: nat)
    requires Free(date, '<') && SameAt(s, i, DeletionPart(deleteText, baseId, date))
    ensures ReadsAt(s, "w:delText", i, DeletionPart(deleteText, baseId, date), EscapeXml(deleteText))
    ensures ReadsAt(s, "w:t", i, DeletionPart(deleteText, baseId, date), [])
  {
    if Analyses.Truthy(deleteText) {
      DeletionReads(deleteText, baseId, date, s, i);
    } else {
      EscapeXmlIsCharwise(deleteText);
      ReadsNothing(s, "w:delText", i);
      ReadsNothing(s, "w:t", i);
    }
  }

  lemma InsertionPartReads(insertText: string, baseId: nat, date: string, s: string, i: nat)
    requires Free(date, '<') && SameAt(s, i, InsertionPart(insertText, baseId, date))
    ensures ReadsAt(s, "w:t", i, InsertionPart(insertText, baseId, date), EscapeXml(insertText))
    ensures ReadsAt(s, "w:delText", i, InsertionPart(insertText, baseId, date), [])
  {
    if Analyses.Truthy(insertText) {
      InsertionReads(insertText, baseId + 1, date, s, i);
    } else {
      EscapeXmlIsCharwise(insertText);
      ReadsNothing(s, "w:t", i);
      ReadsNothing(s, "w:delText", i);
    }
  }

  /** A rendered change placed at `i` reads as the escaped inserted text in
      `<w:t>` and as the escaped deleted text in `<w:delText>`. */
  lemma RedlineReads(deleteText: string, insertText: string, baseId: nat, date: string, s: string, i: nat)
    requires Free(date, '<') && SameAt(s, i, RedlineXml(deleteText, insertText, baseId, date))
    ensures ReadsAt(s, "w:t", i, RedlineXml(deleteText, insertText, baseId, date), EscapeXml(insertText))
    ensures ReadsAt(s, "w:delText", i, RedlineXml(deleteText, insertText, baseId, date), EscapeXml(deleteText))
  {
    var d := DeletionPart(deleteText, baseId, date);
    var ins := InsertionPart(insertText, baseId, date);
    SameSplit(s, i, d, ins);
    DeletionPartReads(deleteText, baseId, date, s, i);
    InsertionPartReads(insertText, baseId, date, s, i + |d|);
    ReadsConcat(s, "w:t", i, d, ins, [], EscapeXml(insertText));
    ReadsConcat(s, "w:delText", i, d, ins, EscapeXml(deleteText), []);
    assert [] + EscapeXml(insertText) == EscapeXml(insertText);
    assert EscapeXml(deleteText) + [] == EscapeXml(deleteText);
  }

  /** A reader of the rendered change shows exactly the inserted text (with
      typographic apostrophes) as document text, and exactly the deleted text
      as removed text: the escaping round trip of the rendered markup. */
  lemma RedlineReadsBack(deleteText: string, insertText: string, baseId: nat, date: string)
    requires Free(date, '<')
    ensures Unescape(VisibleText(RedlineXml(deleteText, insertText, baseId, date))) == Typographic(insertText)
    ensures Unescape(TextFrom(RedlineXml(deleteText, insertText, baseId, date), "w:delText", 0))
            == Typographic(deleteText)
  {
    var r := RedlineXml(deleteText, insertText, baseId, date);
    assert SameAt(r, 0, r);
    RedlineReads(deleteText, insertText, baseId, date, r, 0);
    assert EscapeXml(insertText) + [] == EscapeXml(insertText);
    assert EscapeXml(deleteText) + [] == EscapeXml(deleteText);
    UnescapeEscapeXml(insertText);
    UnescapeEscapeXml(deleteText);
  }

  /** `RedlineReads`, for every placement at once. */
  lemma RedlineReadsAnywhere(deleteText: string, insertText: string, baseId: nat, date: string)
    requires Free(date, '<')
    ensures ReadsAnywhere("w:t", RedlineXml(deleteText, insertText, baseId, date), EscapeXml(insertText))
  {
    forall s: string, i: nat | SameAt(s, i, RedlineXml(deleteText, insertText, baseId, date))
      ensures ReadsAt(s, "w:t", i, RedlineXml(deleteText, insertText, baseId, date), EscapeXml(insertText))
    {
      RedlineReads(deleteText, insertText, baseId, date, s, i);
    }
  }
}
