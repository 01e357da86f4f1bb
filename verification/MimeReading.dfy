/**
 * Boundaries are unambiguous: splitting a rendered message at its delimiter lines gives back the
 * parts, and decoding these gives back what was to be sent.
 */
module MimeReading {
  import opened Text
  import opened Rendering
  import opened MimeLines
  import opened MimeStructure
  import opened QpContent
  import opened QpLines
  import Base64
  import B64 = Base64RoundTrip

  /** What the three delimiters start with. */
  const PREFIX := "------=_Next"

  /** A line that neither breaks in two nor starts like a delimiter. */
  predicate Safe(l: string) { '\r' !in l && !(PREFIX <= l) }

  predicate AllSafe(ls: seq<string>) { forall l :: l in ls ==> Safe(l) }

  predicate Delimiter(d: string) { d == MIXED || d == ALT || d == RELATED }

  /** The fields that end up in part headers hold no line break. */
  predicate PlainFields(p: Part) {
    '\r' !in p.contentType && '\r' !in p.fileName && '\r' !in p.contentId
  }

  /**
   * The message was made from these two texts, the encoder having had room for both; part headers
   * are single lines.
   */
  ghost predicate MadeFrom(m: Mail, plain: Bytes, html: Bytes) {
    && Encodable(plain) && m.plain == Encoded(plain)
    && Encodable(html) && m.html == Encoded(html)
    && (forall p :: p in m.inlineParts + m.attachments ==> PlainFields(p))
  }

  lemma DelimiterPrefixes(d: string)
    requires Delimiter(d)
    ensures PREFIX <= d && '\r' !in d && '\r' !in d + "--"
    ensures forall e :: Delimiter(e) && e != d ==> !IsDelimiter(d, e) && !IsDelimiter(d + "--", e)
  {
    assert MIXED[12] == 'M' && ALT[12] == 'A' && RELATED[12] == 'R';
    assert d[12] == (d + "--")[12];
  }

  lemma SafeIsFree(ls: seq<string>, d: string)
    requires AllSafe(ls) && Delimiter(d)
    ensures Free(ls, d) && NoCr(ls)
  {
    DelimiterPrefixes(d);
    forall l | l in ls ensures !IsDelimiter(l, d) {
      PrefixOfPrefix(PREFIX, d, l);
    }
  }

  lemma PrefixOfPrefix(a: string, b: string, c: string)
    requires a <= b
    ensures b <= c ==> a <= c
  {
  }

  lemma SafeNot(l: string)
    requires '\r' !in l && (l == "" || l[0] != '-')
    ensures Safe(l)
  {
    PrefixAt();
  }

  lemma PrefixAt()
    ensures |PREFIX| == 12 && PREFIX[0] == '-' && PREFIX[6] == '=' && PREFIX[7] == '_'
  {
  }

  lemma CleanIsSafe(l: string)
    requires CleanLine(l)
    ensures Safe(l)
  {
    PrefixAt();
  }

  lemma EncodedLinesSafe(content: Bytes)
    requires Encodable(content)
    ensures AllSafe(Lines(Encoded(content)))
  {
    EncodedContentLines(content);
    var ls := Lines(Encoded(content));
    forall l | l in ls ensures Safe(l) {
      var i :| 0 <= i < |ls| && ls[i] == l;
      CleanIsSafe(l);
    }
  }

  lemma {:induction false} ChunksSafe(enc: string, pos: nat)
    requires forall c :: c in enc ==> Base64.Dec(c) < 64 || c == '='
    ensures AllSafe(ChunkLines(enc, pos))
    decreases |enc| - pos
  {
    if pos < |enc| {
      var end := if pos + LINE_MAX < |enc| then pos + LINE_MAX else |enc|;
      var l := enc[pos..end];
      assert end == |enc| ==> l == enc[pos..];
      assert Safe(l) by {
        assert forall c :: c in l ==> c in enc;
        assert Base64.Dec('_') == Base64.B64NOP && Base64.Dec('\r') == Base64.B64NOP;
        PrefixAt();
      }
      if end < |enc| { ChunksSafe(enc, end); }
    }
  }

  lemma PartLinesSafe(p: Part)
    requires PlainFields(p)
    ensures AllSafe(PartLines(p))
  {
    HeaderLinesSafe(p);
    SafeNot("");
    if p.Encoded() != "" {
      B64.EncodeAlphabet(p.data);
      ChunksSafe(p.Encoded(), 0);
    }
    var h, c := HeaderLines(p), ContentLines(p);
    hide HeaderLines, ContentLines;
    assert PartLines(p) == h + c + ["", ""];
  }

  lemma HeaderLinesSafe(p: Part)
    requires PlainFields(p)
    ensures AllSafe(HeaderLines(p))
  {
    hide Safe, HeaderLines;
    SafeHeader("Content-Type: ", p.contentType, ";");
    SafeHeader("\tname=\"", p.fileName, "\"");
    SafeNot("Content-Transfer-Encoding: base64");
    SafeHeader("Content-ID: <", p.contentId, ">");
    SafeHeader("Content-Disposition: ", "inline", ";");
    SafeHeader("Content-Disposition: ", "attachment", ";");
    SafeHeader("\tfilename=\"", p.fileName, "\"");
    SafeNot("");
    ListHeaders(p);
  }

  /** The header lines, one by one. */
  lemma ListHeaders(p: Part)
    ensures forall l :: l in HeaderLines(p) ==>
      l in {"Content-Type: " + p.contentType + ";", "\tname=\"" + p.fileName + "\"", "Content-Transfer-Encoding: base64",
            "Content-ID: <" + p.contentId + ">", "Content-Disposition: " + "inline" + ";",
            "Content-Disposition: " + "attachment" + ";", "\tfilename=\"" + p.fileName + "\"", ""}
  {
  }

  lemma SafeHeader(a: string, v: string, b: string)
    requires a != "" && a[0] != '-' && '\r' !in a && '\r' !in v && '\r' !in b
    ensures Safe(a + v + b)
  {
    SafeNot(a + v + b);
  }

  /** Delimited parts are free of another delimiter, and of stray CRs, if the parts are. */
  lemma {:induction false} DelimitedFree(parts: seq<seq<string>>, d: string, e: string)
    requires Delimiter(d) && Delimiter(e) && d != e
    requires forall p :: p in parts ==> Free(p, e) && NoCr(p)
    ensures Free(Delimited(parts, d), e) && NoCr(Delimited(parts, d))
  {
    DelimiterPrefixes(d);
    if parts == [] {
    } else {
      hide Delimiter, IsDelimiter;
      DelimitedFree(parts[1..], d, e);
      assert parts[0] in parts;
      FreeAppend([d], parts[0], e);
      FreeAppend([d] + parts[0], Delimited(parts[1..], d), e);
    }
  }

  lemma FreeAppend(a: seq<string>, b: seq<string>, e: string)
    requires Free(a, e) && NoCr(a) && Free(b, e) && NoCr(b)
    ensures Free(a + b, e) && NoCr(a + b)
  {
  }

  lemma NoPartsCr(parts: seq<seq<string>>, d: string)
    requires Delimiter(d) && forall p :: p in parts ==> NoCr(p)
    ensures NoCr(Delimited(parts, d))
  {
    DelimiterPrefixes(d);
    if parts != [] {
      NoPartsCr(parts[1..], d);
      assert parts[0] in parts;
    }
  }

  lemma PartsSafe(parts: seq<Part>)
    requires forall p :: p in parts ==> PlainFields(p)
    ensures forall ls :: ls in AllPartLines(parts) ==> AllSafe(ls)
  {
    forall ls | ls in AllPartLines(parts) ensures AllSafe(ls) {
      var i :| 0 <= i < |parts| && AllPartLines(parts)[i] == ls;
      assert parts[i] in parts;
      PartLinesSafe(parts[i]);
    }
  }

  lemma TextsSafe(m: Mail, plain: Bytes, html: Bytes)
    requires MadeFrom(m, plain, html)
    ensures AllSafe(PlainLines(m)) && AllSafe(HtmlLines(m))
  {
    hide Encoded, Encodable, Lines;
    EncodedLinesSafe(plain);
    EncodedLinesSafe(html);
    hide AllSafe;
    HeaderSafe();
    SafeAppend(PLAIN_LINES, Lines(m.plain));
    SafeAppend(HTML_LINES, Lines(m.html));
    SafeNone();
  }

  lemma SafeNone() ensures AllSafe([]) { }

  lemma SafeAppend(a: seq<string>, b: seq<string>)
    requires AllSafe(a) && AllSafe(b)
    ensures AllSafe(a + b)
  {
  }

  lemma HeaderSafe()
    ensures AllSafe(PLAIN_LINES) && AllSafe(HTML_LINES)
  {
    hide Safe;
    SafeHeader("Content-Type: text/plain; ", "charset=\"utf-8\"", "");
    SafeHeader("Content-Type: text/html; ", "charset=\"utf-8\"", "");
    SafeHeader("Content-Transfer-Encoding: ", "quoted-printable", "");
    SafeNot("");
    assert PLAIN_LINES[0] + "" == PLAIN_LINES[0] && HTML_LINES[0] + "" == HTML_LINES[0] && PLAIN_LINES[1] + "" == PLAIN_LINES[1];
  }

  /** Related content: its own delimiters apart, nothing in it looks like another one's. */
  lemma RelatedFree(m: Mail, plain: Bytes, html: Bytes, e: string)
    requires MadeFrom(m, plain, html) && (e == MIXED || e == ALT)
    ensures Free(RelatedLines(m), e) && NoCr(RelatedLines(m))
  {
    hide HtmlLines, AllPartLines, Delimited, AllSafe, PartLines, Delimiter, IsDelimiter;
    TextsSafe(m, plain, html);
    PartsSafe(m.inlineParts);
    SafeIsFreeAt(HtmlLines(m), e);
    if m.RequiresRelated() {
      var parts := (if m.html != "" then [HtmlLines(m)] else []) + AllPartLines(m.inlineParts);
      assert m.html == "" ==> parts == AllPartLines(m.inlineParts);
      forall p | p in parts ensures Free(p, e) && NoCr(p) { SafeIsFreeAt(p, e); }
      ThreeDelimiters();
      DelimitedFree(parts, RELATED, e);
      PreamblesSafe();
      SafeIsFreeAt(RELATED_PREAMBLE, e);
      CloseFree(RELATED, e);
      FreeAppend(Delimited(parts, RELATED), [RELATED + "--"] + [""], e);
      FreeAppend(RELATED_PREAMBLE, Delimited(parts, RELATED) + ([RELATED + "--"] + [""]), e);
    }
  }

  lemma ThreeDelimiters()
    ensures Delimiter(MIXED) && Delimiter(ALT) && Delimiter(RELATED) && MIXED != ALT && ALT != RELATED && MIXED != RELATED
  {
    assert |MIXED| == 21 && |ALT| == 19 && |RELATED| == 23;
  }

  lemma SafeIsFreeAt(ls: seq<string>, d: string)
    requires AllSafe(ls) && (d == MIXED || d == ALT || d == RELATED)
    ensures Free(ls, d) && NoCr(ls)
  {
    SafeIsFree(ls, d);
  }

  lemma CloseFree(d: string, e: string)
    requires Delimiter(d) && Delimiter(e) && d != e
    ensures Free([d + "--"] + [""], e) && NoCr([d + "--"] + [""])
  {
    DelimiterPrefixes(d);
    DelimiterPrefixes(e);
  }

  lemma PreambleSafe(a: string, b: string, rest: seq<string>)
    requires Safe(a) && Safe(b) && AllSafe(rest)
    ensures AllSafe([a, b, ""] + rest)
  {
    SafeNot("");
  }

  lemma PreamblesSafe()
    ensures AllSafe(RELATED_PREAMBLE) && AllSafe(ALT_PREAMBLE) && AllSafe(ALT_PREAMBLE_ALONE) && AllSafe(MIXED_PREAMBLE)
  {
    hide Safe, AllSafe;
    SafeNot(RELATED_PREAMBLE[0]);
    SafeNot(RELATED_PREAMBLE[1]);
    SafeNot(ALT_PREAMBLE[0]);
    SafeNot(ALT_PREAMBLE[1]);
    SafeNot(MIXED_PREAMBLE[0]);
    SafeNot(MIXED_PREAMBLE[1]);
    NoteSafe();
    RestsSafe();
    PreambleSafe(RELATED_PREAMBLE[0], RELATED_PREAMBLE[1], []);
    PreambleSafe(ALT_PREAMBLE[0], ALT_PREAMBLE[1], [""]);
    PreambleSafe(ALT_PREAMBLE[0], ALT_PREAMBLE[1], ["This is a multi-part message " + "in MIME format.", ""]);
    PreambleSafe(MIXED_PREAMBLE[0], MIXED_PREAMBLE[1], [MIXED_NOTE, ""]);
    assert RELATED_PREAMBLE == [RELATED_PREAMBLE[0], RELATED_PREAMBLE[1], ""] + [];
    assert ALT_PREAMBLE == [ALT_PREAMBLE[0], ALT_PREAMBLE[1], ""] + [""];
    assert ALT_PREAMBLE_ALONE ==
      [ALT_PREAMBLE[0], ALT_PREAMBLE[1], ""] + ["This is a multi-part message " + "in MIME format.", ""];
    assert MIXED_PREAMBLE == [MIXED_PREAMBLE[0], MIXED_PREAMBLE[1], ""] + [MIXED_NOTE, ""];
  }

  lemma RestsSafe()
    ensures AllSafe([]) && AllSafe([""])
    ensures AllSafe(["This is a multi-part message " + "in MIME format.", ""]) && AllSafe([MIXED_NOTE, ""])
  {
    hide Safe;
    SafeNot("");
    NoteSafe();
    SafeNot("This is a multi-part message " + "in MIME format.");
  }

  lemma NoteSafe()
    ensures Safe(MIXED_NOTE)
  {
    hide Safe;
    var a, b, c := "This is a message in multipart ", "MIME format. Your mail client ", "should not be displaying this. ";
    var d, e, f := "Consider upgrading your mail ", "client to view this message ", "correctly.";
    SafeHeader(a, b, c);
    assert '\r' !in d && '\r' !in e && '\r' !in f;
    NoteParts(a, b, c, d, e, f);
  }

  lemma NoteParts(a: string, b: string, c: string, d: string, e: string, f: string)
    requires a != "" && a[0] != '-' && '\r' !in a && '\r' !in b && '\r' !in c && '\r' !in d && '\r' !in e && '\r' !in f
    ensures Safe(a + b + c + d + e + f)
  {
    SafeNot(a + b + c + d + e + f);
  }

  lemma TextsFree(m: Mail, plain: Bytes, html: Bytes)
    requires MadeFrom(m, plain, html)
    ensures Free(TextLines(m), MIXED) && NoCr(TextLines(m))
    ensures forall p :: p in AltParts(m) ==> Free(p, ALT)
  {
    hide PlainLines, RelatedLines, Delimited, AllSafe, Delimiter, IsDelimiter, HtmlLines;
    var p, r := PlainLines(m), RelatedLines(m);
    TextsSafe(m, plain, html);
    SafeIsFreeAt(p, MIXED);
    SafeIsFreeAt(p, ALT);
    RelatedFree(m, plain, html, MIXED);
    RelatedFree(m, plain, html, ALT);
    RestsSafe();
    SafeIsFreeAt([""], MIXED);
    SafeIsFreeAt([""], ALT);
    FreeAppend(r, [""], ALT);
    FreeAppend(r, [""], MIXED);
    FreeAppend(p, r, MIXED);
    if m.RequiresAlternative() {
      var preamble := if m.RequiresMixed() then ALT_PREAMBLE else ALT_PREAMBLE_ALONE;
      PreamblesSafe();
      SafeIsFreeAt(preamble, MIXED);
      ThreeDelimiters();
      DelimitedFree(AltParts(m), ALT, MIXED);
      CloseFree(ALT, MIXED);
      FreeAppend(Delimited(AltParts(m), ALT), [ALT + "--"] + [""], MIXED);
      FreeAppend(preamble, Delimited(AltParts(m), ALT) + ([ALT + "--"] + [""]), MIXED);
    }
  }

  /**
   * A related part split at its delimiter lines, whatever follows it: the HTML, then the inline
   * parts, each once and in order.
   */
  lemma ReadRelated(m: Mail, plain: Bytes, html: Bytes, after: seq<string>)
    requires MadeFrom(m, plain, html) && m.RequiresRelated() && m.html != ""
    ensures ReadMultipart(RelatedLines(m) + after, RELATED)
         == Some(Multipart(RELATED_PREAMBLE, [HtmlLines(m)] + AllPartLines(m.inlineParts), [""] + after))
  {
    hide HtmlLines, AllPartLines, Delimited, AllSafe, PartLines, Delimiter, IsDelimiter, ReadMultipart;
    var parts := [HtmlLines(m)] + AllPartLines(m.inlineParts);
    TextsSafe(m, plain, html);
    PartsSafe(m.inlineParts);
    forall p | p in parts ensures Free(p, RELATED) { SafeIsFreeAt(p, RELATED); }
    PreamblesSafe();
    SafeIsFreeAt(RELATED_PREAMBLE, RELATED);
    ReadWhole(RELATED_PREAMBLE, parts, RELATED, [""] + after);
    AfterClose(RELATED_PREAMBLE, Delimited(parts, RELATED), [RELATED + "--"], [""], after);
  }

  lemma AfterClose(a: seq<string>, b: seq<string>, c: seq<string>, d: seq<string>, after: seq<string>)
    ensures a + (b + (c + d)) + after == a + (b + (c + (d + after)))
  {
  }

  /** Alternative content split at its delimiter lines: the plain text, then the HTML side. */
  lemma ReadAlternative(m: Mail, plain: Bytes, html: Bytes, after: seq<string>)
    requires MadeFrom(m, plain, html) && m.RequiresAlternative()
    ensures ReadMultipart(TextLines(m) + after, ALT)
         == Some(Multipart(if m.RequiresMixed() then ALT_PREAMBLE else ALT_PREAMBLE_ALONE, AltParts(m), [""] + after))
  {
    hide PlainLines, RelatedLines, AltParts, Delimited, AllSafe, Delimiter, IsDelimiter, ReadMultipart;
    var preamble := if m.RequiresMixed() then ALT_PREAMBLE else ALT_PREAMBLE_ALONE;
    TextsFree(m, plain, html);
    PreamblesSafe();
    SafeIsFreeAt(preamble, ALT);
    TwoParts(m);
    ReadWhole(preamble, AltParts(m), ALT, [""] + after);
    AfterClose(preamble, Delimited(AltParts(m), ALT), [ALT + "--"], [""], after);
  }

  lemma TwoParts(m: Mail)
    ensures |AltParts(m)| == 2
  {
  }

  /** The lines of a whole body are those that went in: nothing in them breaks a line. */
  lemma LinesOfBody(m: Mail, plain: Bytes, html: Bytes)
    requires MadeFrom(m, plain, html) && Multi(m)
    ensures Lines(Body(m)) == BodyLines(m) + [""]
  {
    hide TextLines, AllPartLines, Delimited, AllSafe, PartLines, Delimiter, IsDelimiter, Lined, Body, Lines;
    BodyIsLined(m);
    TextsFree(m, plain, html);
    if m.RequiresMixed() {
      PartsSafe(m.attachments);
      forall p | p in MixedParts(m) ensures NoCr(p) {
        if p in AllPartLines(m.attachments) { SafeIsFreeAt(p, MIXED); }
      }
      ThreeDelimiters();
      NoPartsCr(MixedParts(m), MIXED);
      PreamblesSafe();
      SafeIsFreeAt(MIXED_PREAMBLE, MIXED);
      CloseFree(MIXED, ALT);
    }
    LinesOfLined(BodyLines(m), "");
    LinesNoBreak("");
    assert Lined(BodyLines(m)) + "" == Lined(BodyLines(m));
  }

  /**
   * A message with attachments split at its delimiter lines: the text content, then the
   * attachments, each once and in order, and nothing else.
   */
  lemma ReadMixed(m: Mail, plain: Bytes, html: Bytes)
    requires MadeFrom(m, plain, html) && m.RequiresMixed()
    ensures ReadMultipart(Lines(Body(m)), MIXED)
         == Some(Multipart(MIXED_PREAMBLE, [TextLines(m)] + AllPartLines(m.attachments), ["", ""]))
  {
    hide TextLines, AllPartLines, Delimited, AllSafe, PartLines, Delimiter, IsDelimiter, Body, Lines, ReadMultipart;
    LinesOfBody(m, plain, html);
    TextsFree(m, plain, html);
    PartsSafe(m.attachments);
    forall p | p in MixedParts(m) ensures Free(p, MIXED) {
      if p in AllPartLines(m.attachments) { SafeIsFreeAt(p, MIXED); }
    }
    PreamblesSafe();
    SafeIsFreeAt(MIXED_PREAMBLE, MIXED);
    ReadWhole(MIXED_PREAMBLE, MixedParts(m), MIXED, [""] + [""]);
    AfterClose(MIXED_PREAMBLE, Delimited(MixedParts(m), MIXED), [MIXED + "--"], [""], [""]);
    assert [""] + [""] == ["", ""];
  }

  /** A message of one text, without parts: its lines, no multipart structure around them. */
  lemma LinesOfSingle(m: Mail, plain: Bytes, html: Bytes)
    requires MadeFrom(m, plain, html) && !Multi(m) && (m.plain != "" || m.html != "")
    ensures Lines(Body(m)) == TextLines(m)
  {
    hide Lines, Lined, AllSafe, Body, PLAIN_LINES, HTML_LINES, START_PLAIN, START_HTML;
    HeaderSafe();
    SafeIsFreeAt(PLAIN_LINES, MIXED);
    SafeIsFreeAt(HTML_LINES, MIXED);
    TextStarts();
    SingleTextLines(m);
    if m.plain != "" {
      SingleBody(m, START_PLAIN, m.plain);
      LinesOfLined(PLAIN_LINES, m.plain);
    } else {
      SingleBody(m, START_HTML, m.html);
      LinesOfLined(HTML_LINES, m.html);
    }
  }

  lemma SingleTextLines(m: Mail)
    requires !Multi(m)
    ensures TextLines(m) == if m.plain != "" then PLAIN_LINES + Lines(m.plain)
                            else if m.html != "" then HTML_LINES + Lines(m.html) else []
  {
    hide Lines;
  }

  lemma TextStarts()
    ensures START_PLAIN == Lined(PLAIN_LINES) && START_HTML == Lined(HTML_LINES)
  {
    hide Lined;
    Lined3(PLAIN_LINES[0], PLAIN_LINES[1], "");
    Lined3(HTML_LINES[0], HTML_LINES[1], "");
    QpHeaderText("Content-Type: text/plain; ");
    QpHeaderText("Content-Type: text/html; ");
    assert PLAIN_LINES == [PLAIN_LINES[0], PLAIN_LINES[1], ""] && HTML_LINES == [HTML_LINES[0], HTML_LINES[1], ""];
  }

  lemma SingleBody(m: Mail, start: string, text: string)
    requires !Multi(m) && (m.plain != "" || m.html != "")
    requires if m.plain != "" then start == START_PLAIN && text == m.plain else start == START_HTML && text == m.html
    ensures Body(m) == start + text
  {
    hide START_PLAIN, START_HTML;
    assert Body(m) == PlainPart(m) + RelatedPart(m);
    assert RelatedPart(m) == "" + HtmlPart(m) + "" + "";
  }
}
