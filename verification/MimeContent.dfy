/** What the parts found by a reader decode to: the texts and the attachments that were to be sent. */
module MimeContent {
  import opened Text
  import opened Rendering
  import opened MimeLines
  import opened MimeStructure
  import opened QpContent
  import opened QpLines
  import opened MimeReading
  import QuotedPrintable
  import QpRoundTrip = QuotedPrintableRoundTrip
  import Base64
  import B64 = Base64RoundTrip

  /** The lines after the first empty one: the content of a part. */
  function AfterHeader(ls: seq<string>): seq<string> {
    if ls == [] then [] else if ls[0] == "" then ls[1..] else AfterHeader(ls[1..])
  }

  /** A quoted-printable part as text with LF line ends, decoded. */
  function QpText(ls: seq<string>): string {
    var t := Join(ls, "\n");
    QuotedPrintable.Decode(t, "", |t|).out
  }

  /** A Base64 part, its lines read with their line ends, decoded. */
  function B64Data(ls: seq<string>): Bytes {
    Base64.Unpack(Base64.Sextets(Lined(ls)))
  }

  /** Reading the lines of a text whose CRs all belong to CRLFs, with LF for each break. */
  lemma {:induction false} JoinLines(e: string)
    requires '\r' !in e
    ensures Join(Lines(NlToCrlf(e)), "\n") == e
  {
    if e == "" {
      assert Lines("") == [""];
    } else {
      var rest := Lines(NlToCrlf(e[1..]));
      JoinLines(e[1..]);
      if e[0] == '\n' {
        assert CRLF + NlToCrlf(e[1..]) == "" + CRLF + NlToCrlf(e[1..]);
        LinesOfLine("", NlToCrlf(e[1..]));
        assert ([""] + rest)[1..] == rest;
        assert "" + "\n" + e[1..] == e;
      } else {
        assert '\r' !in [e[0]];
        LinesPrefix([e[0]], NlToCrlf(e[1..]));
        JoinPrefix([e[0]], rest[0], rest[1..]);
        assert [rest[0]] + rest[1..] == rest;
        assert [e[0]] + e[1..] == e;
      }
    }
  }

  lemma JoinPrefix(a: string, x: string, ls: seq<string>)
    ensures Join([a + x] + ls, "\n") == a + Join([x] + ls, "\n")
  {
    hide Join;
    JoinFirst(a + x, ls, "\n");
    JoinFirst(x, ls, "\n");
    if ls != [] { Assoc3(a, x, "\n", Join(ls, "\n")); }
  }

  lemma Assoc3(a: string, b: string, c: string, d: string)
    ensures a + b + c + d == a + (b + c + d)
  {
  }

  lemma JoinFirst(x: string, ls: seq<string>, sep: string)
    ensures Join([x] + ls, sep) == if ls == [] then x else x + sep + Join(ls, sep)
  {
    assert ([x] + ls)[1..] == ls;
  }

  lemma {:induction false} EncodeIsLonger(s: Bytes, lineLen: nat, ws: bool)
    requires lineLen <= QuotedPrintable.QP_LINE_MAX
    ensures |s| <= |QuotedPrintable.Encode(s, lineLen, ws)|
  {
    if s == [] {
    } else {
      EncodeIsLonger(s[1..], QuotedPrintable.NextLen(s[0], lineLen, ws), IsWs(s[0]));
    }
  }

  /** A text that was encoded decodes to itself exactly when it does not end in white space. */
  lemma TextReadBack(content: Bytes)
    requires Encodable(content)
    ensures QpText(Lines(Encoded(content))) == content <==> !QuotedPrintable.LastWs(content)
  {
    var e := QuotedPrintable.Encode(content, 0, false);
    EncodeIsPrintable(content, 0, false);
    EncodeIsLonger(content, 0, false);
    JoinLines(e);
    QpRoundTrip.RoundTripIff(content, |e|);
  }

  lemma SkipHeader(a: string, b: string, rest: seq<string>)
    requires a != "" && b != ""
    ensures AfterHeader([a, b, ""] + rest) == rest
  {
    SkipLine(a, [b, ""] + rest);
    SkipLine(b, [""] + rest);
    SkipLine("", rest);
    assert [a, b, ""] + rest == [a] + ([b, ""] + rest) && [b, ""] + rest == [b] + ([""] + rest);
  }

  lemma SkipLine(x: string, rest: seq<string>)
    ensures AfterHeader([x] + rest) == if x == "" then rest else AfterHeader(rest)
  {
    assert ([x] + rest)[1..] == rest;
  }

  /** The content of the plain and of the HTML part. */
  lemma TextContents(m: Mail)
    ensures m.plain != "" ==> AfterHeader(PlainLines(m)) == Lines(m.plain)
    ensures m.html != "" ==> AfterHeader(HtmlLines(m)) == Lines(m.html)
  {
    hide Lines, AfterHeader;
    SkipHeader(PLAIN_LINES[0], PLAIN_LINES[1], Lines(m.plain));
    SkipHeader(HTML_LINES[0], HTML_LINES[1], Lines(m.html));
  }

  lemma PartContent(p: Part)
    ensures AfterHeader(PartLines(p)) == ContentLines(p) + ["", ""]
  {
    hide AfterHeader, ContentLines;
    var rest := ContentLines(p) + ["", ""];
    var a, b, c := "Content-Type: " + p.contentType + ";", "\tname=\"" + p.fileName + "\"", "Content-Transfer-Encoding: base64";
    var d := if p.IsInline() then ["Content-ID: <" + p.contentId + ">", "Content-Disposition: " + "inline" + ";"]
             else ["Content-Disposition: " + "attachment" + ";"];
    var e := "\tfilename=\"" + p.fileName + "\"";
    var tail := [e] + ([""] + rest);
    assert PartLines(p) == [a] + ([b] + ([c] + (d + tail)));
    SkipLine(a, [b] + ([c] + (d + tail)));
    SkipLine(b, [c] + (d + tail));
    SkipLine(c, d + tail);
    if p.IsInline() {
      assert d + tail == [d[0]] + ([d[1]] + tail);
      SkipLine(d[0], [d[1]] + tail);
      SkipLine(d[1], tail);
    } else {
      assert d + tail == [d[0]] + tail;
      SkipLine(d[0], tail);
    }
    SkipLine(e, [""] + rest);
    SkipLine("", rest);
  }

  /** Line ends mean nothing to the decoder. */
  lemma SignificantBreak(a: string, b: string)
    ensures B64.Significant(a + CRLF + b) == B64.Significant(a + b)
  {
    B64.InsertNoise(a, '\r', "\n" + b);
    B64.InsertNoise(a, '\n', b);
    assert a + CRLF + b == a + ['\r'] + ("\n" + b);
    assert a + ("\n" + b) == a + ['\n'] + b;
  }

  lemma {:induction false} SignificantTail(a: string, b: string, c: string)
    requires B64.Significant(b) == B64.Significant(c)
    ensures B64.Significant(a + b) == B64.Significant(a + c)
  {
    if a == "" {
      assert a + b == b && a + c == c;
    } else {
      assert (a + b)[0] == a[0] == (a + c)[0] && (a + b)[1..] == a[1..] + b && (a + c)[1..] == a[1..] + c;
      SignificantTail(a[1..], b, c);
    }
  }

  lemma {:induction false} SignificantLined(ls: seq<string>)
    ensures B64.Significant(Lined(ls)) == B64.Significant(Concat(ls))
  {
    if ls == [] {
    } else {
      SignificantLined(ls[1..]);
      SignificantBreak(ls[0], Lined(ls[1..]));
      SignificantTail(ls[0], Lined(ls[1..]), Concat(ls[1..]));
    }
  }

  lemma {:induction false} ConcatChunks(enc: string, pos: nat)
    requires pos <= |enc|
    ensures Concat(ChunkLines(enc, pos)) == enc[pos..]
    decreases |enc| - pos
  {
    if pos < |enc| {
      if pos + LINE_MAX < |enc| {
        ConcatChunks(enc, pos + LINE_MAX);
        var first, rest := enc[pos..pos + LINE_MAX], ChunkLines(enc, pos + LINE_MAX);
        assert ([first] + rest)[1..] == rest;
        assert first + enc[pos + LINE_MAX..] == enc[pos..];
      } else {
        assert Concat([enc[pos..]]) == enc[pos..] + "";
      }
    }
  }

  /** Every line of an encoded part but the last is exactly 76 characters, and none is longer. */
  lemma {:induction false} ChunkLengths(enc: string, pos: nat, i: nat)
    requires i < |ChunkLines(enc, pos)|
    ensures |ChunkLines(enc, pos)[i]| <= 76
    ensures i < |ChunkLines(enc, pos)| - 1 ==> |ChunkLines(enc, pos)[i]| == 76
    decreases |enc| - pos
  {
    if pos + LINE_MAX < |enc| && i > 0 {
      ChunkLengths(enc, pos + LINE_MAX, i - 1);
    }
  }

  /** A part found by a reader decodes to the bytes that were attached. */
  lemma DataReadBack(p: Part)
    ensures B64Data(AfterHeader(PartLines(p))) == p.data
  {
    PartContent(p);
    hide AfterHeader, PartLines;
    var ls := ContentLines(p) + ["", ""];
    SignificantLined(ls);
    ConcatAppend(ContentLines(p), ["", ""]);
    assert Concat(["", ""]) == "";
    if p.Encoded() != "" {
      ConcatChunks(p.Encoded(), 0);
    } else {
      assert Concat([""]) == "";
    }
    assert Concat(ls) == p.Encoded();
    B64.RoundTrip(p.data, Lined(ls));
  }

  /** From the text of a message with attachments a reader recovers each attachment's bytes, in order. */
  lemma AttachmentsReadBack(m: Mail, plain: Bytes, html: Bytes)
    requires MadeFrom(m, plain, html) && m.RequiresMixed()
    ensures var r := ReadMultipart(Lines(Body(m)), MIXED);
      && r.Some? && |r.value.parts| == 1 + |m.attachments|
      && r.value.parts[0] == TextLines(m)
      && forall i :: 0 <= i < |m.attachments| ==> B64Data(AfterHeader(r.value.parts[1 + i])) == m.attachments[i].data
  {
    hide ReadMultipart, Lines, Body, TextLines, B64Data, AfterHeader, PartLines;
    ReadMixed(m, plain, html);
    forall i | 0 <= i < |m.attachments| ensures B64Data(AfterHeader(AllPartLines(m.attachments)[i])) == m.attachments[i].data {
      DataReadBack(m.attachments[i]);
    }
  }

  /** From related content it recovers the HTML and each inline part's bytes. */
  lemma RelatedReadBack(m: Mail, plain: Bytes, html: Bytes, after: seq<string>)
    requires MadeFrom(m, plain, html) && m.RequiresRelated() && m.html != ""
    ensures var r := ReadMultipart(RelatedLines(m) + after, RELATED);
      && r.Some? && |r.value.parts| == 1 + |m.inlineParts|
      && (QpText(AfterHeader(r.value.parts[0])) == html <==> !QuotedPrintable.LastWs(html))
      && forall i :: 0 <= i < |m.inlineParts| ==> B64Data(AfterHeader(r.value.parts[1 + i])) == m.inlineParts[i].data
  {
    hide ReadMultipart, Lines, RelatedLines, HtmlLines, B64Data, AfterHeader, PartLines, QpText, Encoded, Encodable;
    ReadRelated(m, plain, html, after);
    TextContents(m);
    TextReadBack(html);
    forall i | 0 <= i < |m.inlineParts| ensures B64Data(AfterHeader(AllPartLines(m.inlineParts)[i])) == m.inlineParts[i].data {
      DataReadBack(m.inlineParts[i]);
    }
  }

  /** From alternative content it recovers the plain text, and next to it the HTML side whole. */
  lemma AlternativeReadBack(m: Mail, plain: Bytes, html: Bytes, after: seq<string>)
    requires MadeFrom(m, plain, html) && m.RequiresAlternative()
    ensures var r := ReadMultipart(TextLines(m) + after, ALT);
      && r.Some? && |r.value.parts| == 2
      && (QpText(AfterHeader(r.value.parts[0])) == plain <==> !QuotedPrintable.LastWs(plain))
      && r.value.parts[1] == RelatedLines(m) + [""]
  {
    hide ReadMultipart, Lines, RelatedLines, PlainLines, TextLines, AfterHeader, QpText, Encoded, Encodable;
    ReadAlternative(m, plain, html, after);
    TextContents(m);
    TextReadBack(plain);
  }

  /** The lines of a text part give back the one text of the message, unless it ends in white space. */
  ghost predicate ReadsAs(ls: seq<string>, m: Mail, plain: Bytes, html: Bytes) {
    && (m.plain != "" ==> (QpText(AfterHeader(ls)) == plain <==> !QuotedPrintable.LastWs(plain)))
    && (m.html != "" ==> (QpText(AfterHeader(ls)) == html <==> !QuotedPrintable.LastWs(html)))
  }

  /**
   * A text without the other one and without inline parts is recovered from the message: from all
   * of its body, or from the first part when there are attachments.
   */
  lemma SingleReadBack(m: Mail, plain: Bytes, html: Bytes)
    requires MadeFrom(m, plain, html) && !m.RequiresAlternative() && !m.RequiresRelated()
    ensures !m.RequiresMixed() ==> ReadsAs(Lines(Body(m)), m, plain, html)
    ensures m.RequiresMixed() ==>
      var r := ReadMultipart(Lines(Body(m)), MIXED);
      r.Some? && r.value.parts != [] && ReadsAs(r.value.parts[0], m, plain, html)
  {
    hide PlainLines, HtmlLines, AfterHeader, QpText, Encoded, Encodable, Lines, Body, ReadMultipart, AllPartLines;
    TextContents(m);
    TextReadBack(plain);
    TextReadBack(html);
    OneSide(m);
    if m.RequiresMixed() {
      ReadMixed(m, plain, html);
    } else if m.plain != "" || m.html != "" {
      LinesOfSingle(m, plain, html);
    }
  }

  lemma OneSide(m: Mail)
    requires !m.RequiresAlternative() && !m.RequiresRelated()
    ensures m.plain != "" ==> TextLines(m) == PlainLines(m)
    ensures m.html != "" ==> TextLines(m) == HtmlLines(m)
  {
    hide Lines;
  }

  /** Text that more lines follow: what is kept of it, a line end, and what these decode to. */
  lemma TextAndMore(content: Bytes, more: seq<string>) returns (room: nat)
    requires Encodable(content) && more != []
    ensures QpText(Lines(Encoded(content)) + more)
         == QpRoundTrip.Keep(content, QpRoundTrip.Lost(content, 0, ""))
            + ("\n" + QuotedPrintable.Decode(Join(more, "\n"), "", room).out)
  {
    hide Join, Lines, QuotedPrintable.Decode, QuotedPrintable.Encode, QpRoundTrip.Lost, NlToCrlf;
    var e, t := QuotedPrintable.Encode(content, 0, false), Join(more, "\n");
    var lost, size := QpRoundTrip.Lost(content, 0, ""), |e + ("\n" + t)|;
    EncodeIsPrintable(content, 0, false);
    EncodeIsLonger(content, 0, false);
    JoinLines(e);
    JoinMore(Lines(NlToCrlf(e)), more);
    QpRoundTrip.DecodeEncodeLine(content, 0, "", t, size);
    assert "" + content == content && e + "\n" + t == e + ("\n" + t);
    room := size - |content| + lost - 1;
  }

  /** A text part with one empty line more reads as its text with one line end more. */
  lemma TextAndLineReadBack(content: Bytes)
    requires Encodable(content)
    ensures QpText(Lines(Encoded(content)) + [""]) == content + "\n" <==> !QuotedPrintable.LastWs(content)
  {
    hide QpText, Encoded, Lines, QuotedPrintable.Decode, QpRoundTrip.Lost, QuotedPrintable.LastWs;
    var room := TextAndMore(content, [""]);
    NothingMore(room);
    QpRoundTrip.LostIffTrailingWs(content, 0, "");
    assert "" + content == content;
    LineKept(content, QpRoundTrip.Lost(content, 0, ""));
  }

  lemma NothingMore(room: nat)
    ensures "\n" + QuotedPrintable.Decode(Join([""], "\n"), "", room).out == "\n"
  {
    assert Join([""], "\n") == "";
  }

  lemma LineKept(content: string, lost: nat)
    requires lost <= |content|
    ensures QpRoundTrip.Keep(content, lost) + "\n" == content + "\n" <==> lost == 0
  {
  }

  /** With any lines more it does not read as its text. */
  lemma TextAndMoreLost(content: Bytes, more: seq<string>)
    requires Encodable(content) && more != []
    ensures QpText(Lines(Encoded(content)) + more) != content
  {
    hide QpText, Encoded, QuotedPrintable.Decode, QpRoundTrip.Lost, Lines;
    var room := TextAndMore(content, more);
    var read, lost := QpText(Lines(Encoded(content)) + more), QpRoundTrip.Lost(content, 0, "");
    if lost > 0 {
      assert "" + content == content;
      QpRoundTrip.LostIsWs(content, 0, "", |content| - lost);
      assert read[|content| - lost] == '\n';
    }
  }

  lemma {:induction false} JoinMore(ls: seq<string>, more: seq<string>)
    requires ls != [] && more != []
    ensures Join(ls + more, "\n") == Join(ls, "\n") + "\n" + Join(more, "\n")
  {
    if |ls| == 1 {
      assert (ls + more)[1..] == more;
    } else {
      JoinMore(ls[1..], more);
      assert (ls + more)[1..] == ls[1..] + more;
      Assoc4(ls[0], "\n", Join(ls[1..], "\n"), "\n" + Join(more, "\n"));
    }
  }
}
