/** A reader of whole messages, and what it recovers from the chunks of one. */
module MimeMessage {
  import opened Text
  import opened Rendering
  import opened MimeLines
  import opened MimeStructure
  import opened MimeReading
  import opened MimeContent
  import opened MimeFields
  import opened MimeHeaders
  import opened QpContent
  import QuotedPrintable
  import LibESMTPMessage

  datatype Found = Found(plain: Entity, html: Entity, inlineParts: seq<Entity>, attachments: seq<Entity>)

  /** The parts between the delimiter lines that the header announces for a kind, or everything if it announces none. */
  function Split(ls: seq<string>, k: Kind): (parts: seq<seq<string>>)
    ensures parts != []
  {
    var boundary := Announced(ls, k);
    if boundary.None? then [ls]
    else
      var r := ReadMultipart(ls, "--" + boundary.value);
      if r.Some? && r.value.parts != [] then r.value.parts else [ls]
  }

  function Entities(parts: seq<seq<string>>): (r: seq<Entity>)
    ensures |r| == |parts| && forall i :: 0 <= i < |r| ==> r[i] == ReadEntity(parts[i])
  {
    if parts == [] then [] else [ReadEntity(parts[0])] + Entities(parts[1..])
  }

  /** Attachments from the outside in: what is mixed, what is alternative to the plain text, what is related to the HTML. */
  function ReadMail(ls: seq<string>): Found {
    var mixed := Split(ls, Mixed);
    var texts := Split(mixed[0], Alternative);
    var related := Split(texts[|texts| - 1], Related);
    Found(ReadEntity(texts[0]), ReadEntity(related[0]), Entities(related[1..]), Entities(mixed[1..]))
  }

  /** As many parts read as were to be sent, each as it was to be. */
  ghost predicate AllDescribed(es: seq<Entity>, parts: seq<Part>) {
    |es| == |parts| && forall i :: 0 <= i < |es| ==> Describes(es[i], parts[i])
  }

  /** Headers as lines, none of them empty, like a delimiter, or about the content. */
  predicate HeaderSection(hs: seq<string>) { AllSafe(hs) && NoFields(hs) }

  lemma HeaderSectionSilent(hs: seq<string>)
    requires HeaderSection(hs)
    ensures AllSafe(hs) && Silent(hs) && "" !in hs
  {
    forall l | l in hs ensures !GivesBoundary(l) { NotABoundary(l); }
  }

  /**
   * Headers added one by one are such lines, if no name starts with a dash, a tab or "Content-" and
   * nothing in them breaks the line.
   */
  lemma HeaderSectionGrows(hs: seq<string>, header: string, value: string, path: string)
    requires HeaderSection(hs) && header != "" && header[0] != '-' && header[0] != '\t'
    requires !("Content-" <= header)
    requires '\r' !in header && '\r' !in value && '\r' !in path
    ensures var l := LibESMTPMessage.HeaderLine(header, value, path);
      HeaderSection(hs + [l]) && Lined(hs + [l]) == Lined(hs) + (l + CRLF)
  {
    hide Lined;
    var l := LibESMTPMessage.HeaderLine(header, value, path);
    SafeNot(l);
    NotContent(header, l);
    LinedAppend(hs, [l]);
    LinedOne(l);
  }

  lemma NotContent(header: string, l: string)
    requires header != "" && !("Content-" <= header) && header + ":" <= l
    ensures !("Content-" <= l)
  {
    if |header| < 8 {
      assert (header + ":")[|header|] == l[|header|] && "Content-"[|header|] != ':';
    } else {
      assert header[..8] == l[..8];
    }
  }

  lemma {:induction false} FirstDelimiterAfter(hs: seq<string>, ls: seq<string>, d: string)
    requires Free(hs, d)
    ensures FirstDelimiter(hs + ls, d) == |hs| + FirstDelimiter(ls, d)
  {
    if hs == [] {
      assert hs + ls == ls;
    } else {
      assert (hs + ls)[0] == hs[0] && hs[0] in hs && (hs + ls)[1..] == hs[1..] + ls;
      FirstDelimiterAfter(hs[1..], ls, d);
    }
  }

  /** Lines in front of a multipart body that is announced join its preamble. */
  lemma SplitAfter(hs: seq<string>, ls: seq<string>, k: Kind)
    requires Free(hs, DelimiterOf(k)) && Announced(hs + ls, k) == Some(BoundaryOf(k))
    requires ReadMultipart(ls, DelimiterOf(k)).Some? && ReadMultipart(ls, DelimiterOf(k)).value.parts != []
    ensures Split(hs + ls, k) == ReadMultipart(ls, DelimiterOf(k)).value.parts
  {
    hide FirstDelimiter, ReadParts, Announced, BoundaryOf, DelimiterOf;
    var d := DelimiterOf(k);
    BoundaryIs(k);
    FirstDelimiterAfter(hs, ls, d);
    var i := FirstDelimiter(ls, d);
    assert (hs + ls)[|hs| + i] == ls[i] && (hs + ls)[|hs| + i + 1..] == ls[i + 1..];
  }

  lemma {:induction false} AfterHeaderSkips(hs: seq<string>, ls: seq<string>)
    requires "" !in hs
    ensures AfterHeader(hs + ls) == AfterHeader(ls)
  {
    if hs == [] {
      assert hs + ls == ls;
    } else {
      assert hs == [hs[0]] + hs[1..] && hs[0] in hs;
      assert hs + ls == [hs[0]] + (hs[1..] + ls);
      SkipLine(hs[0], hs[1..] + ls);
      AfterHeaderSkips(hs[1..], ls);
    }
  }

  /** Where the text part stands among what a reader has in hand: headers in front, an empty line behind. */
  ghost predicate Around(m: Mail, hs: seq<string>, pre: seq<string>, post: seq<string>) {
    && (pre == [] || pre == hs)
    && (post == [] || (post == [""] && !m.RequiresMixed() && (Multi(m) || (m.plain == "" && m.html == ""))))
  }

  lemma AroundSilent(m: Mail, hs: seq<string>, pre: seq<string>, post: seq<string>)
    requires Around(m, hs, pre, post) && HeaderSection(hs)
    ensures Silent(pre) && AllSafe(pre) && NoFields(pre) && (post == [] || post == [""])
  {
    HeaderSectionSilent(hs);
  }

  /** First the attachments, if any, and the text part. */
  lemma MixedStage(m: Mail, hs: seq<string>, plain: Bytes, html: Bytes) returns (pre: seq<string>, post: seq<string>)
    requires MadeFrom(m, plain, html) && m.headers == Lined(hs) && HeaderSection(hs)
    ensures Around(m, hs, pre, post)
    ensures Split(Lines(Render(m)), Mixed) == [pre + TextLines(m) + post] + AllPartLines(m.attachments)
  {
    hide Lines, Body, TextLines, AllPartLines, ReadMultipart, AllSafe, Lined, Announced, Silent, BoundaryOf, Delimited;
    HeaderSectionSilent(hs);
    SafeIsFreeAt(hs, MIXED);
    LinesOfLined(hs, Body(m));
    if m.RequiresMixed() {
      ReadMixed(m, plain, html);
      MixedAnnounced(m, hs, plain, html);
      SplitAfter(hs, Lines(Body(m)), Mixed);
      pre, post := [], [];
      assert pre + TextLines(m) + post == TextLines(m);
    } else {
      pre, post := hs, if Multi(m) || (m.plain == "" && m.html == "") then [""] else [];
      UnmixedLines(m, plain, html);
      AnnouncedTexts(m, hs, post, Mixed);
      NoAttached(m);
      assert Lines(Render(m)) == hs + (TextLines(m) + post) == pre + TextLines(m) + post;
      assert [pre + TextLines(m) + post] + [] == [pre + TextLines(m) + post];
    }
  }

  lemma MixedAnnounced(m: Mail, hs: seq<string>, plain: Bytes, html: Bytes)
    requires MadeFrom(m, plain, html) && m.RequiresMixed() && Silent(hs)
    ensures Announced(hs + Lines(Body(m)), Mixed) == Some(BoundaryOf(Mixed))
  {
    hide Lines, Body, MixedParts, Lined, Announced, Silent, BoundaryOf, Delimited, Opens;
    LinesOfBody(m, plain, html);
    PreamblesOpen();
    var rest := Delimited(MixedParts(m), MIXED) + ([MIXED + "--"] + [""]);
    assert BodyLines(m) + [""] == MIXED_PREAMBLE + (rest + [""]);
    PreambleAnnounces(hs, MIXED_PREAMBLE, Mixed, rest + [""], Mixed);
  }

  lemma NoAttached(m: Mail)
    requires !m.RequiresMixed()
    ensures AllPartLines(m.attachments) == []
  {
  }

  lemma UnmixedLines(m: Mail, plain: Bytes, html: Bytes)
    requires MadeFrom(m, plain, html) && !m.RequiresMixed()
    ensures Lines(Body(m)) == TextLines(m) + (if Multi(m) || (m.plain == "" && m.html == "") then [""] else [])
  {
    hide Lines, TextLines, PlainPart, RelatedPart;
    if Multi(m) {
      LinesOfBody(m, plain, html);
    } else if m.plain != "" || m.html != "" {
      LinesOfSingle(m, plain, html);
      assert TextLines(m) + [] == TextLines(m);
    } else {
      NothingToRead(m);
      LinesEmpty();
    }
  }

  lemma NothingToRead(m: Mail)
    requires !Multi(m) && m.plain == "" && m.html == ""
    ensures Body(m) == "" && TextLines(m) == []
  {
  }

  /** Then the plain text, next to the HTML side or alone. */
  lemma AlternativeStage(m: Mail, hs: seq<string>, pre: seq<string>, post: seq<string>, plain: Bytes, html: Bytes)
    requires MadeFrom(m, plain, html) && HeaderSection(hs) && Around(m, hs, pre, post)
    ensures Split(pre + TextLines(m) + post, Alternative)
         == if m.RequiresAlternative() then [PlainLines(m), RelatedLines(m) + [""]] else [pre + TextLines(m) + post]
  {
    hide TextLines, PlainLines, RelatedLines, ReadMultipart, AllSafe, Around, MadeFrom, Announced, Silent, BoundaryOf;
    AroundSilent(m, hs, pre, post);
    AnnouncedTexts(m, pre, post, Alternative);
    Assoc(pre, TextLines(m), post);
    if m.RequiresAlternative() {
      SafeIsFreeAt(pre, ALT);
      ReadAlternative(m, plain, html, post);
      SplitAfter(pre, TextLines(m) + post, Alternative);
    }
  }

  /** What a reader has in hand once the plain text is apart: the HTML side. */
  function HtmlSide(m: Mail, pre: seq<string>, post: seq<string>): seq<string> {
    if m.RequiresAlternative() then RelatedLines(m) + [""] else pre + TextLines(m) + post
  }

  /** Inline parts that no HTML goes with are not announced. */
  predicate Whole(m: Mail) { m.html != "" || !m.RequiresRelated() }

  /** Last the HTML and the inline parts, or neither apart from the other. */
  lemma RelatedStage(m: Mail, hs: seq<string>, pre: seq<string>, post: seq<string>, plain: Bytes, html: Bytes)
    requires MadeFrom(m, plain, html) && HeaderSection(hs) && Around(m, hs, pre, post)
    ensures Split(HtmlSide(m, pre, post), Related)
         == if m.RequiresRelated() && m.html != "" then [HtmlLines(m)] + AllPartLines(m.inlineParts) else [HtmlSide(m, pre, post)]
  {
    hide TextLines, RelatedLines, HtmlLines, AllPartLines, ReadMultipart, AllSafe, Around, MadeFrom, Announced, Silent, BoundaryOf;
    AroundSilent(m, hs, pre, post);
    NothingSilent();
    var front, back := if m.RequiresAlternative() then [] else pre, if m.RequiresAlternative() then [""] else post;
    if m.RequiresAlternative() {
      AnnouncedRelated(m, front, back, Related);
      assert HtmlSide(m, pre, post) == front + (RelatedLines(m) + back);
    } else {
      AnnouncedTexts(m, pre, post, Related);
      Assoc(pre, TextLines(m), post);
    }
    if m.RequiresRelated() && m.html != "" {
      RelatedSide(m, plain, html);
      SafeIsFreeAt(front, RELATED);
      ReadRelated(m, plain, html, back);
      SplitAfter(front, RelatedLines(m) + back, Related);
    }
  }

  lemma NothingSilent()
    ensures Silent([]) && AllSafe([])
  {
  }

  lemma RelatedSide(m: Mail, plain: Bytes, html: Bytes)
    requires MadeFrom(m, plain, html) && m.html != ""
    ensures !m.RequiresAlternative() ==> TextLines(m) == RelatedLines(m)
  {
    hide RelatedLines, Encoded, Encodable;
  }

  lemma NotEmptied(content: Bytes)
    requires Encodable(content)
    ensures Encoded(content) == "" <==> content == []
  {
    EncodeIsLonger(content, 0, false);
    RewrittenIsLonger(QuotedPrintable.Encode(content, 0, false));
  }

  lemma {:induction false} RewrittenIsLonger(t: string)
    ensures |t| <= |NlToCrlf(t)|
  {
    if t == "" {
    } else {
      RewrittenIsLonger(t[1..]);
    }
  }

  /** The HTML of alternative content without inline parts is read with the line end that was sent after it. */
  function HtmlAsRead(m: Mail, html: Bytes): string {
    if m.RequiresAlternative() && !m.RequiresRelated() then html + "\n" else html
  }

  /**
   * From the chunks of a message a reader recovers every attachment, in order and nothing else;
   * the inline parts exactly when there are none or HTML goes with them; and the plain text and the
   * HTML, labelled as what they are, each exactly when it does not end in white space, the plain
   * text only without such stray inline parts behind it.
   */
  lemma MessageReadBack(m: Mail, chunks: seq<string>, hs: seq<string>, plain: Bytes, html: Bytes)
    requires Concat(chunks) == Render(m) && MadeFrom(m, plain, html) && m.headers == Lined(hs) && HeaderSection(hs)
    ensures var found, stray := ReadMail(Lines(Concat(chunks))), html == [] && m.inlineParts != [];
      && AllDescribed(found.attachments, m.attachments)
      && (AllDescribed(found.inlineParts, m.inlineParts) <==> !stray)
      && (plain != [] ==>
            && found.plain.contentType == "text/plain" && found.plain.charset == "utf-8"
            && (found.plain.content == plain <==> !QuotedPrintable.LastWs(plain) && !stray))
      && (html != [] ==>
            && found.html.contentType == "text/html" && found.html.charset == "utf-8"
            && (found.html.content == HtmlAsRead(m, html) <==> !QuotedPrintable.LastWs(html)))
  {
    hide Render, Lines, Split, TextLines, RelatedLines, HtmlLines, PlainLines, AllPartLines, ReadEntity,
         Encoded, Encodable, AllSafe, Lined, PartLines, Around, NoFields, Describes;
    NotEmptied(plain);
    NotEmptied(html);
    var pre, post := MixedStage(m, hs, plain, html);
    AlternativeStage(m, hs, pre, post, plain, html);
    RelatedStage(m, hs, pre, post, plain, html);
    PartsReadBack([pre + TextLines(m) + post], m.attachments);
    if Whole(m) { PartsReadBack(if m.RequiresRelated() then [HtmlLines(m)] else [HtmlSide(m, pre, post)], m.inlineParts); }
    if plain != [] { PlainReadBack(m, hs, pre, post, plain, html); }
    if html != [] { HtmlReadBack(m, hs, pre, post, plain, html); }
  }

  lemma PartsReadBack(first: seq<seq<string>>, parts: seq<Part>)
    requires |first| == 1
    ensures AllDescribed(Entities((first + AllPartLines(parts))[1..]), parts)
    ensures parts == [] ==> first + AllPartLines(parts) == first
  {
    hide ReadEntity, PartLines, Describes;
    assert (first + AllPartLines(parts))[1..] == AllPartLines(parts);
    forall i | 0 <= i < |parts| ensures Describes(Entities(AllPartLines(parts))[i], parts[i]) { PartReadBack(parts[i]); }
  }

  lemma PlainReadBack(m: Mail, hs: seq<string>, pre: seq<string>, post: seq<string>, plain: Bytes, html: Bytes)
    requires MadeFrom(m, plain, html) && HeaderSection(hs) && Around(m, hs, pre, post) && m.plain != ""
    ensures var e := ReadEntity(if m.RequiresAlternative() then PlainLines(m) else pre + TextLines(m) + post);
      && e.contentType == "text/plain" && e.charset == "utf-8"
      && (e.content == plain <==> !QuotedPrintable.LastWs(plain) && Whole(m))
  {
    hide TextLines, RelatedLines, HtmlLines, AfterHeader, QpText, Encoded, Encodable, AllSafe, Lines, ReadEntity, NoFields;
    PlainTextReadBack(m, hs, pre, post, plain, html);
    AroundSilent(m, hs, pre, post);
    PlainHeader();
    if m.RequiresAlternative() {
      NoneAround();
      TextFields([], PLAIN_LINES, "text/plain", Lines(m.plain));
      assert [] + (PLAIN_LINES + Lines(m.plain)) == PlainLines(m);
    } else {
      PlainBehind(m);
      var rest := Lines(m.plain) + RelatedLines(m) + post;
      TextFields(pre, PLAIN_LINES, "text/plain", rest);
      assert pre + TextLines(m) + post == pre + (PLAIN_LINES + rest);
    }
  }

  lemma PlainHeader()
    ensures PLAIN_LINES == ["Content-Type: " + "text/plain" + "; charset=\"utf-8\"", "Content-Transfer-Encoding: quoted-printable", ""]
    ensures ';' !in "text/plain"
  {
    assert "Content-Type: " + "text/plain" + "; charset=\"utf-8\"" == "Content-Type: text/plain; " + "charset=\"utf-8\"";
    assert "Content-Transfer-Encoding: " + "quoted-printable" == "Content-Transfer-Encoding: quoted-printable";
  }

  lemma HtmlHeader()
    ensures HTML_LINES == ["Content-Type: " + "text/html" + "; charset=\"utf-8\"", "Content-Transfer-Encoding: quoted-printable", ""]
    ensures ';' !in "text/html"
  {
    assert "Content-Type: " + "text/html" + "; charset=\"utf-8\"" == "Content-Type: text/html; " + "charset=\"utf-8\"";
    assert "Content-Transfer-Encoding: " + "quoted-printable" == "Content-Transfer-Encoding: quoted-printable";
  }

  lemma NoneAround()
    ensures NoFields([])
  {
  }

  lemma PlainTextReadBack(m: Mail, hs: seq<string>, pre: seq<string>, post: seq<string>, plain: Bytes, html: Bytes)
    requires MadeFrom(m, plain, html) && HeaderSection(hs) && Around(m, hs, pre, post) && m.plain != ""
    ensures var text := if m.RequiresAlternative() then PlainLines(m) else pre + TextLines(m) + post;
      QpText(AfterHeader(text)) == plain <==> !QuotedPrintable.LastWs(plain) && Whole(m)
  {
    hide PlainLines, RelatedLines, HtmlLines, AfterHeader, QpText, Encoded, Encodable, AllSafe;
    TextContents(m);
    TextReadBack(plain);
    if !m.RequiresAlternative() {
      PlainBehind(m);
      AroundSilent(m, hs, pre, post);
      AfterHeaderSkips(pre, TextLines(m) + post);
      Assoc(pre, TextLines(m), post);
      if Whole(m) {
        PlainOnly(m);
        assert TextLines(m) + [] == TextLines(m);
      } else {
        PlainContentMore(m, RelatedLines(m) + post);
        Assoc(PlainLines(m), RelatedLines(m), post);
        TextAndMoreLost(plain, RelatedLines(m) + post);
      }
    }
  }

  lemma PlainOnly(m: Mail)
    requires m.plain != "" && !m.RequiresAlternative() && Whole(m)
    ensures TextLines(m) == PlainLines(m)
  {
    hide Lines;
    assert PlainLines(m) + [] == PlainLines(m);
  }

  lemma PlainBehind(m: Mail)
    requires m.plain != "" && !m.RequiresAlternative()
    ensures TextLines(m) == PlainLines(m) + RelatedLines(m) && (!Whole(m) ==> RelatedLines(m) != [])
  {
    hide PlainLines;
  }

  lemma PlainContentMore(m: Mail, more: seq<string>)
    requires m.plain != ""
    ensures AfterHeader(PlainLines(m) + more) == Lines(m.plain) + more
  {
    hide Lines, AfterHeader;
    SkipHeader(PLAIN_LINES[0], PLAIN_LINES[1], Lines(m.plain) + more);
    assert PlainLines(m) + more == [PLAIN_LINES[0], PLAIN_LINES[1], ""] + (Lines(m.plain) + more);
  }

  lemma HtmlReadBack(m: Mail, hs: seq<string>, pre: seq<string>, post: seq<string>, plain: Bytes, html: Bytes)
    requires MadeFrom(m, plain, html) && HeaderSection(hs) && Around(m, hs, pre, post) && m.html != ""
    ensures var e := ReadEntity(if m.RequiresRelated() then HtmlLines(m) else HtmlSide(m, pre, post));
      && e.contentType == "text/html" && e.charset == "utf-8"
      && (e.content == HtmlAsRead(m, html) <==> !QuotedPrintable.LastWs(html))
  {
    hide TextLines, RelatedLines, PlainLines, AfterHeader, QpText, Encoded, Encodable, AllSafe, Lines, ReadEntity, NoFields;
    HtmlTextReadBack(m, hs, pre, post, plain, html);
    AroundSilent(m, hs, pre, post);
    HtmlHeader();
    NoneAround();
    var front, back := if m.RequiresRelated() || m.RequiresAlternative() then [] else pre,
                       if m.RequiresRelated() then [] else if m.RequiresAlternative() then [""] else post;
    TextFields(front, HTML_LINES, "text/html", Lines(m.html) + back);
    if !m.RequiresRelated() { HtmlAlone(m); }
    assert front + (HTML_LINES + (Lines(m.html) + back)) == if m.RequiresRelated() then HtmlLines(m) else HtmlSide(m, pre, post);
  }

  lemma HtmlAlone(m: Mail)
    requires m.html != "" && !m.RequiresRelated()
    ensures RelatedLines(m) == HtmlLines(m) && (!m.RequiresAlternative() ==> TextLines(m) == HtmlLines(m))
  {
    hide HtmlLines;
    assert [] + HtmlLines(m) == HtmlLines(m);
  }

  lemma HtmlTextReadBack(m: Mail, hs: seq<string>, pre: seq<string>, post: seq<string>, plain: Bytes, html: Bytes)
    requires MadeFrom(m, plain, html) && HeaderSection(hs) && Around(m, hs, pre, post) && m.html != ""
    ensures var text := if m.RequiresRelated() then HtmlLines(m) else HtmlSide(m, pre, post);
      QpText(AfterHeader(text)) == HtmlAsRead(m, html) <==> !QuotedPrintable.LastWs(html)
  {
    hide HtmlLines, PlainLines, AfterHeader, QpText, Encoded, Encodable, AllSafe, TextLines, Lines;
    TextContents(m);
    TextReadBack(html);
    TextAndLineReadBack(html);
    if !m.RequiresRelated() {
      if m.RequiresAlternative() {
        HtmlContentMore(m);
      } else {
        OneSide(m);
        AroundSilent(m, hs, pre, post);
        AfterHeaderSkips(pre, TextLines(m));
        assert pre + TextLines(m) + [] == pre + TextLines(m);
      }
    }
  }

  lemma HtmlContentMore(m: Mail)
    requires m.html != ""
    ensures AfterHeader(HtmlLines(m) + [""]) == Lines(m.html) + [""]
  {
    hide Lines, AfterHeader;
    SkipHeader(HTML_LINES[0], HTML_LINES[1], Lines(m.html) + [""]);
    assert HtmlLines(m) + [""] == [HTML_LINES[0], HTML_LINES[1], ""] + (Lines(m.html) + [""]);
  }
}
