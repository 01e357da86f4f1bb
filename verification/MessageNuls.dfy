/** Which messages hold a NUL: those with one in a field, the rest of the text having none. */
module MessageNuls {
  import opened Text
  import opened Rendering
  import Base64
  import B64 = Base64RoundTrip

  predicate Clean(s: string) { NUL !in s }

  predicate PartNulFree(p: Part) {
    Clean(p.contentType) && Clean(p.fileName) && Clean(p.contentId)
  }

  /** No NUL in the headers, the texts, or the types, names and ids of parts. */
  predicate NulFree(m: Mail) {
    && Clean(m.headers) && Clean(m.plain) && Clean(m.html)
    && forall p :: p in m.inlineParts + m.attachments ==> PartNulFree(p)
  }

  lemma CleanParts()
    ensures forall a: string, b: string :: Clean(a + b) <==> Clean(a) && Clean(b)
    ensures Clean("") && Clean(CRLF)
  {
    forall a: string, b: string ensures Clean(a + b) <==> Clean(a) && Clean(b) {
      assert NUL in a + b <==> NUL in a || NUL in b;
    }
  }

  lemma Clean3(a: string, b: string, c: string)
    ensures Clean(a + b + c) <==> Clean(a) && Clean(b) && Clean(c)
  {
    hide Clean;
    CleanParts();
  }

  lemma CleanLines(a: string, b: string, c: string, d: string, e: string)
    ensures Clean(a + CRLF + b + CRLF + c + CRLF + (d + CRLF) + (e + CRLF + "" + CRLF))
       <==> Clean(a) && Clean(b) && Clean(c) && Clean(d) && Clean(e)
  {
    hide Clean, CRLF;
    CleanParts();
  }

  lemma CleanWords()
    ensures Clean("Content-Type: ") && Clean(";") && Clean("\tname=\"") && Clean("\"") && Clean("\tfilename=\"")
    ensures Clean("Content-Transfer-Encoding: base64") && Clean("Content-ID: <") && Clean(">")
    ensures Clean("Content-Disposition: " + "inline" + ";") && Clean("Content-Disposition: " + "attachment" + ";")
    ensures Clean(CRLF)
  {
  }

  lemma HeadersNulIff(p: Part)
    ensures Clean(p.Headers()) <==> PartNulFree(p)
  {
    var a, b, c := "Content-Type: " + p.contentType + ";", "\tname=\"" + p.fileName + "\"", "Content-Transfer-Encoding: base64";
    var d := if p.IsInline() then ("Content-ID: <" + p.contentId + ">") + CRLF + ("Content-Disposition: " + "inline" + ";")
             else "Content-Disposition: " + "attachment" + ";";
    var e := "\tfilename=\"" + p.fileName + "\"";
    hide Clean;
    CleanWords();
    Clean3("Content-Type: ", p.contentType, ";");
    Clean3("\tname=\"", p.fileName, "\"");
    Clean3("\tfilename=\"", p.fileName, "\"");
    Clean3("Content-ID: <", p.contentId, ">");
    Clean3("Content-ID: <" + p.contentId + ">", CRLF, "Content-Disposition: " + "inline" + ";");
    CleanLines(a, b, c, d, e);
    CleanIs(p.contentId);
    assert p.Headers() == a + CRLF + b + CRLF + c + CRLF + (d + CRLF) + (e + CRLF + "" + CRLF);
  }

  lemma CleanIs(s: string)
    ensures Clean(s) <==> NUL !in s
  {
  }

  lemma {:induction false} LinesNulFree(enc: string, pos: nat)
    requires Clean(enc)
    ensures Clean(LinesFrom(enc, pos))
    decreases |enc| - pos
  {
    if pos >= |enc| {
    } else {
      LinesNulFree(enc, pos + LINE_MAX);
    }
  }

  lemma EncodedNulFree(p: Part)
    ensures Clean(BodyFrom(p.Encoded(), 0))
  {
    hide LinesFrom, Base64.Encode;
    B64.EncodeAlphabet(p.data);
    assert Base64.Dec(NUL) == Base64.B64EOF;
    LinesNulFree(p.Encoded(), 0);
  }

  ghost predicate AllNulFree(parts: seq<Part>, k: nat) {
    forall i :: k <= i < |parts| ==> PartNulFree(parts[i])
  }

  lemma {:induction false} PartsNulIff(parts: seq<Part>, start: string, k: nat)
    requires Clean(start)
    ensures Clean(PartsFrom(parts, start, k)) <==> AllNulFree(parts, k)
    decreases |parts| - k
  {
    hide PartNulFree, BodyFrom, Base64.Encode, Clean, PartsFrom, EndRemaining;
    CleanParts();
    PartsEnd(parts, start, k);
    if k >= |parts| {
    } else {
      PartsNulIff(parts, start, k + 1);
      PartsFromStep(parts, start, k);
      HeadersNulIff(parts[k]);
      EncodedNulFree(parts[k]);
      assert AllNulFree(parts, k) <==> PartNulFree(parts[k]) && AllNulFree(parts, k + 1);
    }
  }

  lemma PartsEnd(parts: seq<Part>, start: string, k: nat)
    ensures k >= |parts| ==> PartsFrom(parts, start, k) == ""
    ensures EndRemaining(parts, start, k) == CRLF + (if k + 1 < |parts| then CRLF + PartsFrom(parts, start, k + 1) else "")
  {
  }

  lemma CleanDelimiters()
    ensures Clean(MIXED) && Clean(ALT) && Clean(RELATED) && Clean("--")
  {
  }

  lemma CleanBoundaries()
    ensures Clean("\tboundary=\"----=_NextMixedPart\"") && Clean("\tboundary=\"----=_NextAltPart\"")
    ensures Clean("\tboundary=\"----=_NextRelatedPart\"")
  {
  }

  lemma CleanMultipartTypes()
    ensures Clean("Content-Type: multipart/mixed;") && Clean("Content-Type: multipart/alternative;")
    ensures Clean("Content-Type: multipart/related;")
  {
  }

  lemma CleanTextHeaders()
    ensures Clean("Content-Type: text/plain; ") && Clean("Content-Type: text/html; ") && Clean("charset=\"utf-8\"")
    ensures Clean("Content-Transfer-Encoding: ") && Clean("quoted-printable")
  {
  }

  lemma CleanShortNote()
    ensures Clean("This is a multi-part message ") && Clean("in MIME format.")
  {
  }

  lemma CleanNoteStart()
    ensures Clean("This is a message in multipart ") && Clean("MIME format. Your mail client ")
    ensures Clean("should not be displaying this. ")
  {
  }

  lemma CleanNoteEnd()
    ensures Clean("Consider upgrading your mail ") && Clean("client to view this message ") && Clean("correctly.")
  {
  }

  lemma CleanNote()
    ensures Clean(MIXED_NOTE)
  {
    hide Clean;
    CleanNoteStart();
    CleanNoteEnd();
    Clean6("This is a message in multipart ", "MIME format. Your mail client ", "should not be displaying this. ",
           "Consider upgrading your mail ", "client to view this message ", "correctly.");
  }

  lemma Clean6(a: string, b: string, c: string, d: string, e: string, f: string)
    requires Clean(a) && Clean(b) && Clean(c) && Clean(d) && Clean(e) && Clean(f)
    ensures Clean(a + b + c + d + e + f)
  {
  }

  lemma CleanStartMixed()
    ensures Clean(START_MIXED)
  {
    hide Clean, MIXED, MIXED_NOTE, CRLF;
    CleanParts();
    CleanDelimiters();
    CleanBoundaries();
    CleanMultipartTypes();
    CleanNote();
  }

  lemma CleanAltHeader()
    ensures Clean(ALT_HEADER)
  {
    hide Clean;
    CleanParts();
    CleanBoundaries();
    CleanMultipartTypes();
    Clean6("Content-Type: multipart/alternative;", CRLF, "\tboundary=\"----=_NextAltPart\"", CRLF, "", CRLF);
  }

  lemma CleanStartAlt()
    ensures Clean(START_ALT) && Clean(START_ALT_NO_MULTI)
  {
    hide Clean, ALT, CRLF, ALT_HEADER;
    CleanParts();
    CleanDelimiters();
    CleanAltHeader();
    CleanShortNote();
  }

  lemma CleanStartRelated()
    ensures Clean(START_RELATED)
  {
    hide Clean, RELATED, CRLF;
    CleanParts();
    CleanDelimiters();
    CleanBoundaries();
    CleanMultipartTypes();
  }

  lemma CleanStartTexts()
    ensures Clean(START_PLAIN) && Clean(START_HTML)
  {
    hide Clean, CRLF;
    CleanParts();
    CleanTextHeaders();
  }

  lemma CleanDelimiterLines()
    ensures Clean(ALT_TRANSITION) && Clean(START_INLINE) && Clean(START_ATTACHMENT) && Clean(EXTRA_LINE)
    ensures Clean(END_RELATED) && Clean(END_ALT) && Clean(END_MIXED)
  {
    hide Clean, MIXED, ALT, RELATED, CRLF;
    CleanParts();
    CleanDelimiters();
  }

  lemma TextsNulIff(m: Mail)
    ensures Clean(PlainPart(m)) <==> Clean(m.plain)
    ensures Clean(HtmlPart(m)) <==> Clean(m.html)
  {
    hide Clean, START_PLAIN, START_HTML, EXTRA_LINE;
    CleanParts();
    CleanStartTexts();
    CleanDelimiterLines();
  }

  lemma RelatedNulIff(m: Mail)
    ensures Clean(RelatedPart(m)) <==> Clean(m.html) && AllNulFree(m.inlineParts, 0)
  {
    hide Clean, HtmlPart, PartsFrom, AllNulFree, START_RELATED, START_INLINE, END_RELATED;
    CleanParts();
    CleanStartRelated();
    CleanDelimiterLines();
    TextsNulIff(m);
    PartsNulIff(m.inlineParts, START_INLINE, 0);
  }

  lemma ContentNulIff(m: Mail)
    ensures Clean(Content(m)) <==> Clean(m.plain) && Clean(m.html) && AllNulFree(m.inlineParts, 0)
  {
    hide Clean, PlainPart, RelatedPart, AllNulFree, START_ALT, START_ALT_NO_MULTI, ALT_TRANSITION, END_ALT;
    CleanParts();
    CleanStartAlt();
    CleanDelimiterLines();
    TextsNulIff(m);
    RelatedNulIff(m);
  }

  /** The rendering has no NUL exactly when no field of the message has one. */
  lemma RenderNulIff(m: Mail)
    ensures NUL !in Render(m) <==> NulFree(m)
  {
    CleanIs(Render(m));
    hide Clean, Content, PartsFrom, PartNulFree, AllNulFree, START_MIXED, START_ATTACHMENT, END_MIXED;
    CleanParts();
    CleanStartMixed();
    CleanDelimiterLines();
    ContentNulIff(m);
    PartsNulIff(m.attachments, START_ATTACHMENT, 0);
    AllOfBoth(m);
  }

  lemma AllOfBoth(m: Mail)
    ensures (forall p :: p in m.inlineParts + m.attachments ==> PartNulFree(p))
       <==> AllNulFree(m.inlineParts, 0) && AllNulFree(m.attachments, 0)
    ensures m.inlineParts == [] ==> AllNulFree(m.inlineParts, 0)
    ensures m.attachments == [] ==> AllNulFree(m.attachments, 0)
  {
    hide PartNulFree;
    forall i | 0 <= i < |m.inlineParts| ensures m.inlineParts[i] in m.inlineParts + m.attachments {}
    forall i | 0 <= i < |m.attachments| ensures m.attachments[i] in m.inlineParts + m.attachments {}
  }
}
