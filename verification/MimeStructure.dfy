/**
 * The rendered message, line by line, and what a reader finds when splitting it at its delimiter
 * lines: the parts that went in, nested last in, first out.
 */
module MimeStructure {
  import opened Text
  import opened Rendering
  import opened MimeLines
  import Base64

  const PLAIN_LINES := ["Content-Type: text/plain; " + "charset=\"utf-8\"", "Content-Transfer-Encoding: " + "quoted-printable", ""]
  const HTML_LINES := ["Content-Type: text/html; " + "charset=\"utf-8\"", "Content-Transfer-Encoding: " + "quoted-printable", ""]
  const MIXED_PREAMBLE :=
    ["Content-Type: multipart/mixed;", "\tboundary=\"----=_NextMixedPart\"", "", MIXED_NOTE, ""]
  const ALT_PREAMBLE := ["Content-Type: multipart/alternative;", "\tboundary=\"----=_NextAltPart\"", "", ""]
  const ALT_PREAMBLE_ALONE :=
    ["Content-Type: multipart/alternative;", "\tboundary=\"----=_NextAltPart\"", "",
     "This is a multi-part message " + "in MIME format.", ""]
  const RELATED_PREAMBLE := ["Content-Type: multipart/related;", "\tboundary=\"----=_NextRelatedPart\"", ""]

  /** The header lines of a part, with the empty line that ends them. */
  function HeaderLines(p: Part): seq<string> {
    ["Content-Type: " + p.contentType + ";", "\tname=\"" + p.fileName + "\"", "Content-Transfer-Encoding: base64"]
    + (if p.IsInline() then ["Content-ID: <" + p.contentId + ">", "Content-Disposition: " + "inline" + ";"]
       else ["Content-Disposition: " + "attachment" + ";"])
    + ["\tfilename=\"" + p.fileName + "\"", ""]
  }

  function ChunkLines(enc: string, pos: nat): seq<string>
    decreases |enc| - pos
  {
    if pos >= |enc| then []
    else if pos + LINE_MAX >= |enc| then [enc[pos..]]
    else [enc[pos..pos + LINE_MAX]] + ChunkLines(enc, pos + LINE_MAX)
  }

  /** The encoded content of a part: at least one line. */
  function ContentLines(p: Part): seq<string> {
    if p.Encoded() == "" then [""] else ChunkLines(p.Encoded(), 0)
  }

  function PartLines(p: Part): seq<string> {
    HeaderLines(p) + ContentLines(p) + ["", ""]
  }

  function AllPartLines(parts: seq<Part>): (ls: seq<seq<string>>)
    ensures |ls| == |parts| && forall i :: 0 <= i < |parts| ==> ls[i] == PartLines(parts[i])
  {
    if parts == [] then [] else [PartLines(parts[0])] + AllPartLines(parts[1..])
  }

  function PlainLines(m: Mail): seq<string> {
    if m.plain == "" then [] else PLAIN_LINES + Lines(m.plain)
  }

  function HtmlLines(m: Mail): seq<string> {
    if m.html == "" then [] else HTML_LINES + Lines(m.html)
  }

  /** Inline parts go with the HTML; without it their delimiters stand alone, nothing announcing them. */
  function RelatedLines(m: Mail): seq<string> {
    if m.RequiresRelated() && m.html != "" then
      RELATED_PREAMBLE + (Delimited([HtmlLines(m)] + AllPartLines(m.inlineParts), RELATED) + ([RELATED + "--"] + [""]))
    else if m.RequiresRelated() then
      Delimited(AllPartLines(m.inlineParts), RELATED) + ([RELATED + "--"] + [""])
    else HtmlLines(m)
  }

  function AltParts(m: Mail): seq<seq<string>> {
    [PlainLines(m), RelatedLines(m) + [""]]
  }

  function TextLines(m: Mail): seq<string> {
    if m.RequiresAlternative() then
      (if m.RequiresMixed() then ALT_PREAMBLE else ALT_PREAMBLE_ALONE)
      + (Delimited(AltParts(m), ALT) + ([ALT + "--"] + [""]))
    else PlainLines(m) + RelatedLines(m)
  }

  function MixedParts(m: Mail): seq<seq<string>> {
    [TextLines(m)] + AllPartLines(m.attachments)
  }

  /** All the lines of the body, when it has a multipart structure at all. */
  function BodyLines(m: Mail): seq<string> {
    if m.RequiresMixed() then
      MIXED_PREAMBLE + (Delimited(MixedParts(m), MIXED) + ([MIXED + "--"] + [""]))
    else TextLines(m)
  }

  predicate Multi(m: Mail) { m.RequiresMixed() || m.RequiresAlternative() || m.RequiresRelated() }

  lemma {:induction false} LinedChunks(enc: string, pos: nat)
    ensures Lined(ChunkLines(enc, pos)) == LinesFrom(enc, pos)
    decreases |enc| - pos
  {
    if pos < |enc| {
      if pos + LINE_MAX < |enc| {
        LinedChunks(enc, pos + LINE_MAX);
        LinedFirst(enc[pos..pos + LINE_MAX], ChunkLines(enc, pos + LINE_MAX));
      } else {
        LinedFirst(enc[pos..], []);
        assert [enc[pos..]] + [] == [enc[pos..]] && enc[pos..] + CRLF + "" == enc[pos..] + CRLF;
      }
    }
  }

  lemma LinedContent(p: Part)
    ensures Lined(ContentLines(p)) == BodyFrom(p.Encoded(), 0)
  {
    if p.Encoded() == "" {
      LinedFirst("", []);
      assert [""] + [] == [""] && "" + CRLF + "" == CRLF;
    } else {
      LinedChunks(p.Encoded(), 0);
    }
  }

  lemma Lined3(a: string, b: string, c: string)
    ensures Lined([a, b, c]) == a + CRLF + b + CRLF + c + CRLF
  {
    LinedOne(c);
    LinedFirst(b, [c]);
    LinedFirst(a, [b, c]);
    assert [b] + [c] == [b, c] && [a] + [b, c] == [a, b, c];
  }

  lemma Lined2(a: string, b: string)
    ensures Lined([a, b]) == a + CRLF + b + CRLF
  {
    LinedOne(b);
    LinedFirst(a, [b]);
    assert [a] + [b] == [a, b];
  }

  lemma LinedHeaders(p: Part)
    ensures Lined(HeaderLines(p)) == p.Headers()
  {
    var a, b, c := "Content-Type: " + p.contentType + ";", "\tname=\"" + p.fileName + "\"", "Content-Transfer-Encoding: base64";
    var d := if p.IsInline() then ["Content-ID: <" + p.contentId + ">", "Content-Disposition: " + "inline" + ";"]
             else ["Content-Disposition: " + "attachment" + ";"];
    var e := "\tfilename=\"" + p.fileName + "\"";
    hide Lined;
    Lined3(a, b, c);
    Lined2(e, "");
    if p.IsInline() {
      Lined2(d[0], d[1]);
    } else {
      LinedOne(d[0]);
      assert d == [d[0]];
    }
    LinedAppend([a, b, c] + d, [e, ""]);
    LinedAppend([a, b, c], d);
  }

  /** Parts in a row: delimiter, headers, content and two empty lines each, the last from what follows. */
  lemma {:induction false} LinedParts(parts: seq<Part>, d: string, k: nat)
    requires k < |parts|
    ensures PartsFrom(parts, d + CRLF, k) + CRLF == Lined(Delimited(AllPartLines(parts[k..]), d))
    decreases |parts| - k
  {
    hide Lined, Base64.Encode, PartsFrom, Delimited, AllPartLines, BodyFrom;
    var rest := if k + 1 < |parts| then Delimited(AllPartLines(parts[k + 1..]), d) else [];
    var h, b := parts[k].Headers(), BodyFrom(parts[k].Encoded(), 0);
    DelimitedStep(parts, d, k);
    PartsFromStep(parts, d + CRLF, k);
    LinedPart(parts[k], d, rest);
    if k + 1 < |parts| {
      LinedParts(parts, d, k + 1);
      Row(d + CRLF, h, b, CRLF, PartsFrom(parts, d + CRLF, k + 1));
    } else {
      LinedNone();
      Row1(d + CRLF, h, b, CRLF);
    }
  }

  lemma Row(a: string, b: string, c: string, e: string, t: string)
    ensures a + b + c + (e + (e + t)) + e == a + b + c + e + e + (t + e)
  {
  }

  lemma Row1(a: string, b: string, c: string, e: string)
    ensures a + b + c + (e + "") + e == a + b + c + e + e + ""
  {
  }

  lemma DelimitedStep(parts: seq<Part>, d: string, k: nat)
    requires k < |parts|
    ensures Delimited(AllPartLines(parts[k..]), d)
         == [d] + PartLines(parts[k]) + (if k + 1 < |parts| then Delimited(AllPartLines(parts[k + 1..]), d) else [])
  {
    hide HeaderLines, ContentLines;
    assert parts[k..][0] == parts[k] && parts[k..][1..] == parts[k + 1..];
    var lines := AllPartLines(parts[k..]);
    assert lines[0] == PartLines(parts[k]) && lines[1..] == AllPartLines(parts[k + 1..]);
  }

  lemma LinedNone()
    ensures Lined([]) == ""
  {
  }

  lemma LinedPart(p: Part, d: string, rest: seq<string>)
    ensures Lined([d] + PartLines(p) + rest)
         == (d + CRLF) + p.Headers() + BodyFrom(p.Encoded(), 0) + CRLF + CRLF + Lined(rest)
  {
    hide Lined, HeaderLines, ContentLines, Base64.Encode;
    var h, c := HeaderLines(p), ContentLines(p);
    LinedHeaders(p);
    LinedContent(p);
    LinedOne(d);
    Lined2("", "");
    LinedAppend([d] + PartLines(p), rest);
    LinedAppend([d], PartLines(p));
    LinedAppend(h + c, ["", ""]);
    LinedAppend(h, c);
    assert "" + CRLF + "" + CRLF == CRLF + CRLF;
    Group(d + CRLF, p.Headers(), BodyFrom(p.Encoded(), 0), CRLF, CRLF);
  }

  lemma Group(a: string, b: string, c: string, d: string, e: string)
    ensures a + (b + c + (d + e)) == a + b + c + d + e
  {
  }

  lemma LinedText(header: seq<string>, t: string)
    ensures Lined(header + Lines(t)) == Lined(header) + t + CRLF
  {
    LinedAppend(header, Lines(t));
    LinedLines(t);
  }

  lemma LinedPlain(m: Mail)
    requires m.plain != "" ==> m.html != "" || m.RequiresRelated() || m.RequiresMixed()
    ensures PlainPart(m) == Lined(PlainLines(m))
  {
    hide Lined;
    LinedNone();
    if m.plain != "" {
      Lined3(PLAIN_LINES[0], PLAIN_LINES[1], "");
      LinedText(PLAIN_LINES, m.plain);
      QpHeaderText("Content-Type: text/plain; ");
    }
  }

  lemma LinedHtml(m: Mail)
    requires m.html != "" ==> m.RequiresAlternative() || m.RequiresRelated() || m.RequiresMixed()
    ensures HtmlPart(m) == Lined(HtmlLines(m))
  {
    hide Lined;
    LinedNone();
    if m.html != "" {
      Lined3(HTML_LINES[0], HTML_LINES[1], "");
      LinedText(HTML_LINES, m.html);
      QpHeaderText("Content-Type: text/html; ");
    }
  }

  lemma QpHeaderText(ct: string)
    ensures ct + QP_HEADER == (ct + "charset=\"utf-8\"") + CRLF + ("Content-Transfer-Encoding: " + "quoted-printable") + CRLF + "" + CRLF
  {
    QpGroup(ct, "charset=\"utf-8\"", "Content-Transfer-Encoding: ", "quoted-printable");
  }

  lemma QpGroup(ct: string, a: string, b: string, c: string)
    ensures ct + (a + CRLF + b + c + CRLF + "" + CRLF) == (ct + a) + CRLF + (b + c) + CRLF + "" + CRLF
  {
  }

  /** A multipart text around parts: preamble, delimited parts, closing line, empty line. */
  lemma LinedMultipart(preamble: seq<string>, first: seq<string>, rest: seq<seq<string>>, d: string)
    ensures Lined(preamble + (Delimited([first] + rest, d) + ([d + "--"] + [""])))
         == Lined(preamble) + (d + CRLF) + Lined(first) + Lined(Delimited(rest, d)) + (d + "--" + CRLF + CRLF)
  {
    assert ([first] + rest)[1..] == rest;
    assert Delimited([first] + rest, d) == [d] + first + Delimited(rest, d);
    hide Lined, Delimited;
    LinedAppend(preamble, Delimited([first] + rest, d) + ([d + "--"] + [""]));
    LinedAppend(Delimited([first] + rest, d), [d + "--"] + [""]);
    LinedAppend([d] + first, Delimited(rest, d));
    LinedAppend([d], first);
    LinedOne(d);
    assert [d + "--"] + [""] == [d + "--", ""];
    Lined2(d + "--", "");
    assert d + "--" + CRLF + "" + CRLF == d + "--" + CRLF + CRLF;
    Group5(Lined(preamble), d + CRLF, Lined(first), Lined(Delimited(rest, d)), d + "--" + CRLF + CRLF);
  }

  lemma Group5(a: string, b: string, c: string, d: string, e: string)
    ensures a + (b + c + d + e) == a + b + c + d + e
  {
  }

  lemma LinedRelated(m: Mail)
    requires m.html != "" ==> Multi(m)
    ensures RelatedPart(m) == Lined(RelatedLines(m))
  {
    hide Lined, PartsFrom, HtmlPart, HtmlLines, Delimited;
    LinedHtml(m);
    if m.RequiresRelated() && m.html == "" {
      LinedInlineOnly(m);
    } else if m.RequiresRelated() {
      LinedMultipart(RELATED_PREAMBLE, HtmlLines(m), AllPartLines(m.inlineParts), RELATED);
      Lined3(RELATED_PREAMBLE[0], RELATED_PREAMBLE[1], "");
      LinedParts(m.inlineParts, RELATED, 0);
      assert m.inlineParts[0..] == m.inlineParts;
      RelatedGroup(RELATED_PREAMBLE[0], RELATED_PREAMBLE[1], RELATED, HtmlPart(m), PartsFrom(m.inlineParts, START_INLINE, 0));
    } else {
      NoParts(m.inlineParts, START_INLINE);
      assert "" + HtmlPart(m) + "" + "" == HtmlPart(m);
    }
  }

  lemma LinedInlineOnly(m: Mail)
    requires m.RequiresRelated() && m.html == ""
    ensures RelatedPart(m) == Lined(Delimited(AllPartLines(m.inlineParts), RELATED) + ([RELATED + "--"] + [""]))
  {
    hide Lined, PartsFrom, Delimited;
    LinedParts(m.inlineParts, RELATED, 0);
    assert m.inlineParts[0..] == m.inlineParts;
    LinedAppend(Delimited(AllPartLines(m.inlineParts), RELATED), [RELATED + "--"] + [""]);
    assert [RELATED + "--"] + [""] == [RELATED + "--", ""];
    Lined2(RELATED + "--", "");
    InlineGroup(PartsFrom(m.inlineParts, START_INLINE, 0), RELATED);
  }

  lemma InlineGroup(p: string, d: string)
    ensures "" + "" + p + (CRLF + d + "--" + CRLF + CRLF) == (p + CRLF) + (d + "--" + CRLF + "" + CRLF)
  {
  }

  lemma NoParts(parts: seq<Part>, start: string)
    requires parts == []
    ensures PartsFrom(parts, start, 0) == ""
  {
  }

  lemma RelatedGroup(a: string, b: string, d: string, h: string, p: string)
    ensures (a + CRLF + b + CRLF + "" + CRLF + d + CRLF) + h + p + (CRLF + d + "--" + CRLF + CRLF)
         == (a + CRLF + b + CRLF + "" + CRLF) + (d + CRLF) + h + (p + CRLF) + (d + "--" + CRLF + CRLF)
  {
  }

  lemma LinedTexts(m: Mail)
    requires Multi(m)
    ensures Content(m) == Lined(TextLines(m))
  {
    hide Lined, PlainPart, RelatedPart, PlainLines, RelatedLines, Delimited;
    LinedPlain(m);
    LinedRelated(m);
    var p, r := PlainLines(m), RelatedLines(m);
    if m.RequiresAlternative() {
      var preamble := if m.RequiresMixed() then ALT_PREAMBLE else ALT_PREAMBLE_ALONE;
      assert [p] + [r + [""]] == AltParts(m);
      LinedMultipart(preamble, p, [r + [""]], ALT);
      LinedDelimited(r + [""], ALT);
      LinedAppend(r, [""]);
      LinedOne("");
      AltPreambles();
      var start := if m.RequiresMixed() then START_ALT else START_ALT_NO_MULTI;
      AltGroup(Lined(preamble), ALT, PlainPart(m), RelatedPart(m));
    } else {
      LinedAppend(p, r);
    }
  }

  lemma LinedDelimited(ls: seq<string>, d: string)
    ensures Lined(Delimited([ls], d)) == (d + CRLF) + Lined(ls)
  {
    assert Delimited([ls], d) == [d] + ls + [] == [d] + ls;
    LinedAppend([d], ls);
    LinedOne(d);
  }

  lemma AltPreambles()
    ensures Lined(ALT_PREAMBLE) + (ALT + CRLF) == START_ALT
    ensures Lined(ALT_PREAMBLE_ALONE) + (ALT + CRLF) == START_ALT_NO_MULTI
  {
    hide Lined;
    var a, b, n := ALT_PREAMBLE[0], ALT_PREAMBLE[1], "This is a multi-part message " + "in MIME format.";
    Lined3(a, b, "");
    LinedOne("");
    Lined2(n, "");
    assert ALT_PREAMBLE == [a, b, ""] + [""] && ALT_PREAMBLE_ALONE == [a, b, ""] + [n, ""];
    LinedAppend([a, b, ""], [""]);
    LinedAppend([a, b, ""], [n, ""]);
    AltStart(a + CRLF + b + CRLF + "" + CRLF, n, ALT);
    NoteGroup(a + CRLF + b + CRLF + "" + CRLF, "This is a multi-part message ", "in MIME format.", ALT);
  }

  lemma AltStart(h: string, n: string, d: string)
    ensures h + ("" + CRLF) + (d + CRLF) == h + "" + CRLF + d + CRLF
    ensures h + (n + CRLF + "" + CRLF) + (d + CRLF) == h + n + CRLF + "" + CRLF + d + CRLF
  {
  }

  lemma NoteGroup(h: string, a: string, b: string, d: string)
    ensures h + (a + b) + CRLF + "" + CRLF + d + CRLF == h + a + b + CRLF + "" + CRLF + d + CRLF
  {
  }

  lemma AltGroup(s: string, d: string, p: string, r: string)
    ensures (s + (d + CRLF)) + p + (d + CRLF) + r + (CRLF + d + "--" + CRLF + CRLF)
         == s + (d + CRLF) + p + ((d + CRLF) + (r + ("" + CRLF))) + (d + "--" + CRLF + CRLF)
  {
  }

  /** The body is exactly its lines, each ended by CRLF, once it has any multipart structure. */
  lemma BodyIsLined(m: Mail)
    requires Multi(m)
    ensures Body(m) == Lined(BodyLines(m))
  {
    hide Lined, Content, TextLines, PartsFrom, Delimited;
    LinedTexts(m);
    if m.RequiresMixed() {
      LinedMultipart(MIXED_PREAMBLE, TextLines(m), AllPartLines(m.attachments), MIXED);
      LinedParts(m.attachments, MIXED, 0);
      assert m.attachments[0..] == m.attachments;
      MixedPreamble();
      MixedGroup(Lined(MIXED_PREAMBLE), MIXED, Content(m), PartsFrom(m.attachments, START_ATTACHMENT, 0));
    }
  }

  lemma MixedPreamble()
    ensures Lined(MIXED_PREAMBLE) + (MIXED + CRLF) == START_MIXED
  {
    hide Lined;
    var a, b := MIXED_PREAMBLE[0], MIXED_PREAMBLE[1];
    Lined3(a, b, "");
    Lined2(MIXED_NOTE, "");
    assert MIXED_PREAMBLE == [a, b, ""] + [MIXED_NOTE, ""];
    LinedAppend([a, b, ""], [MIXED_NOTE, ""]);
    AltStart(a + CRLF + b + CRLF + "" + CRLF, MIXED_NOTE, MIXED);
  }

  lemma MixedGroup(s: string, d: string, c: string, p: string)
    ensures (s + (d + CRLF)) + c + p + (CRLF + d + "--" + CRLF + CRLF)
         == s + (d + CRLF) + c + (p + CRLF) + (d + "--" + CRLF + CRLF)
  {
  }
}
