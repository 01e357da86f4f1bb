/** How a reader learns of a multipart body: the header lines that give its kind and its boundary. */
module MimeHeaders {
  import opened Text
  import opened Rendering
  import opened MimeLines
  import opened MimeStructure

  datatype Kind = Mixed | Alternative | Related

  function TypeLine(k: Kind): string {
    match k
    case Mixed => "Content-Type: multipart/mixed;"
    case Alternative => "Content-Type: multipart/alternative;"
    case Related => "Content-Type: multipart/related;"
  }

  const BOUNDARY := "\tboundary=\""

  predicate GivesBoundary(l: string) { BOUNDARY <= l }

  /** The text between the quotes. */
  function Quoted(l: string): string
    requires GivesBoundary(l)
  {
    l[|BOUNDARY|..IndexOf(l, '"', |BOUNDARY|)]
  }

  /** The boundary that the header at the front of some lines gives for content of this kind. */
  function Announced(ls: seq<string>, k: Kind): Option<string> {
    if |ls| < 2 || ls[0] == "" then None
    else if ls[0] == TypeLine(k) && GivesBoundary(ls[1]) then Some(Quoted(ls[1]))
    else Announced(ls[1..], k)
  }

  /** Header lines that no boundary is in announce nothing. */
  predicate Silent(hs: seq<string>) {
    "" !in hs && forall l :: l in hs ==> !GivesBoundary(l)
  }

  lemma {:induction false} AnnouncedAfter(hs: seq<string>, ls: seq<string>, k: Kind)
    requires Silent(hs) && (ls == [] || !GivesBoundary(ls[0]))
    ensures Announced(hs + ls, k) == Announced(ls, k)
  {
    hide GivesBoundary, TypeLine;
    var all := hs + ls;
    if hs == [] {
      assert all == ls;
    } else {
      assert all[0] == hs[0] && hs[0] in hs && all[1..] == hs[1..] + ls;
      if |all| >= 2 {
        assert all[1] == if |hs| > 1 then hs[1] else ls[0];
        assert |hs| > 1 ==> hs[1] in hs;
      }
      AnnouncedAfter(hs[1..], ls, k);
    }
  }

  /** A header without boundary: the empty line ends it. */
  lemma SilentHeader(hs: seq<string>, rest: seq<string>, k: Kind)
    requires Silent(hs)
    ensures Announced(hs, k) == None && Announced(hs + ([""] + rest), k) == None
  {
    AnnouncedAfter(hs, [""] + rest, k);
    AnnouncedAfter(hs, [], k);
    assert hs + [] == hs;
  }

  lemma TypesDiffer(j: Kind, k: Kind)
    ensures TypeLine(j) == TypeLine(k) <==> j == k
    ensures TypeLine(j) != "" && !GivesBoundary(TypeLine(j))
  {
    assert TypeLine(Mixed)[24] == 'm' && TypeLine(Alternative)[24] == 'a' && TypeLine(Related)[24] == 'r';
    assert TypeLine(j)[0] == 'C' && BOUNDARY[0] == '\t';
  }

  lemma QuotedIs(b: string)
    requires '"' !in b
    ensures var l := BOUNDARY + b + "\""; GivesBoundary(l) && Quoted(l) == b
  {
    var l := BOUNDARY + b + "\"";
    IndexOfIs(l, '"', |BOUNDARY|, |BOUNDARY| + |b|);
    assert l[|BOUNDARY|..|BOUNDARY| + |b|] == b;
  }

  /** The two lines of a multipart header announce its boundary, for its kind only. */
  lemma HeaderAnnounces(j: Kind, b: string, rest: seq<string>, k: Kind)
    requires '"' !in b
    ensures Announced([TypeLine(j), BOUNDARY + b + "\"", ""] + rest, k) == if j == k then Some(b) else None
  {
    hide TypeLine, GivesBoundary, Quoted;
    var l := BOUNDARY + b + "\"";
    var ls := [TypeLine(j), l, ""] + rest;
    TypesDiffer(j, k);
    QuotedIs(b);
    assert ls[1..] == [l, ""] + rest && ls[1..][1..] == [""] + rest;
    NotABoundary("");
    if j != k {
      assert Announced([l, ""] + rest, k) == Announced([""] + rest, k);
    }
  }

  lemma NotABoundary(l: string)
    requires l == "" || l[0] != '\t'
    ensures !GivesBoundary(l)
  {
    assert BOUNDARY[0] == '\t';
  }

  /** The delimiter lines that the message is made with. */
  function DelimiterOf(k: Kind): string {
    match k case Mixed => MIXED case Alternative => ALT case Related => RELATED
  }

  /** A delimiter line is "--" and the boundary. */
  function BoundaryOf(k: Kind): string {
    DelimiterOf(k)[2..]
  }

  lemma BoundaryIs(k: Kind)
    ensures "--" + BoundaryOf(k) == DelimiterOf(k) && '"' !in BoundaryOf(k)
  {
    match k
    case Mixed => DelimiterIs(MIXED);
    case Alternative => DelimiterIs(ALT);
    case Related => DelimiterIs(RELATED);
  }

  lemma DelimiterIs(d: string)
    requires |d| > 2 && d[0] == '-' && d[1] == '-' && '"' !in d
    ensures "--" + d[2..] == d && '"' !in d[2..]
  {
  }

  lemma MixedLine()
    ensures BOUNDARY + MIXED[2..] + "\"" == "\tboundary=\"----=_NextMixedPart\""
  {
  }

  lemma AltLine()
    ensures BOUNDARY + ALT[2..] + "\"" == "\tboundary=\"----=_NextAltPart\""
  {
  }

  lemma RelatedLine()
    ensures BOUNDARY + RELATED[2..] + "\"" == "\tboundary=\"----=_NextRelatedPart\""
  {
  }

  /** Lines that begin with the header of such content. */
  predicate Opens(ls: seq<string>, k: Kind) {
    |ls| >= 3 && ls[..3] == [TypeLine(k), BOUNDARY + BoundaryOf(k) + "\"", ""]
  }

  lemma PreamblesOpen()
    ensures Opens(MIXED_PREAMBLE, Mixed) && Opens(ALT_PREAMBLE, Alternative) && Opens(ALT_PREAMBLE_ALONE, Alternative)
    ensures Opens(RELATED_PREAMBLE, Related)
  {
    hide MIXED_NOTE, BOUNDARY, MIXED, ALT, RELATED;
    MixedLine();
    AltLine();
    RelatedLine();
  }

  /** Behind any header lines such content announces its boundary, which the delimiter lines have behind "--". */
  lemma PreambleAnnounces(hs: seq<string>, preamble: seq<string>, j: Kind, rest: seq<string>, k: Kind)
    requires Silent(hs) && Opens(preamble, j)
    ensures Announced(hs + (preamble + rest), k) == if j == k then Some(BoundaryOf(j)) else None
    ensures "--" + BoundaryOf(j) == DelimiterOf(j)
  {
    hide TypeLine, GivesBoundary, Announced;
    var header := [TypeLine(j), BOUNDARY + BoundaryOf(j) + "\"", ""];
    assert preamble + rest == header + (preamble[3..] + rest);
    TypesDiffer(j, k);
    AnnouncedAfter(hs, preamble + rest, k);
    BoundaryIs(j);
    HeaderAnnounces(j, BoundaryOf(j), preamble[3..] + rest, k);
  }

  /** No line of a text or of a part gives a boundary. */
  lemma TextHeadersSilent()
    ensures Silent(PLAIN_LINES[..2]) && Silent(HTML_LINES[..2])
    ensures |PLAIN_LINES| == |HTML_LINES| == 3 && PLAIN_LINES[2] == HTML_LINES[2] == ""
  {
    hide GivesBoundary;
    NotABoundary(PLAIN_LINES[0]);
    NotABoundary(PLAIN_LINES[1]);
    NotABoundary(HTML_LINES[0]);
  }

  lemma SilentAppend(a: seq<string>, b: seq<string>)
    requires Silent(a) && Silent(b)
    ensures Silent(a + b)
  {
  }

  /** The header of a part with the delimiter in front of it. */
  function PartHeader(p: Part): seq<string> {
    [RELATED] + HeaderLines(p)[..|HeaderLines(p)| - 1]
  }

  lemma PartHeaderSilent(p: Part)
    ensures Silent(PartHeader(p)) && [RELATED] + PartLines(p) == PartHeader(p) + ([""] + (ContentLines(p) + ["", ""]))
  {
    hide GivesBoundary, ContentLines;
    NotABoundary(RELATED);
    NotABoundary("Content-Type: " + p.contentType + ";");
    OtherField("\tname=\"", p.fileName + "\"");
    NotABoundary("Content-Transfer-Encoding: base64");
    NotABoundary("Content-ID: <" + p.contentId + ">");
    NotABoundary("Content-Disposition: " + "inline" + ";");
    NotABoundary("Content-Disposition: " + "attachment" + ";");
    OtherField("\tfilename=\"", p.fileName + "\"");
    assert "\tname=\"" + p.fileName + "\"" == "\tname=\"" + (p.fileName + "\"");
    assert "\tfilename=\"" + p.fileName + "\"" == "\tfilename=\"" + (p.fileName + "\"");
  }

  lemma OtherField(a: string, b: string)
    requires |a| > 1 && a[1] != 'b'
    ensures !GivesBoundary(a + b)
  {
    assert BOUNDARY[1] == 'b' && (a + b)[1] == a[1];
  }

  /** A text header with its text, and whatever follows, announces nothing. */
  lemma TextAnnounces(hs: seq<string>, header: seq<string>, rest: seq<string>, k: Kind)
    requires Silent(hs) && |header| == 3 && Silent(header[..2]) && header[2] == ""
    ensures Announced(hs + (header + rest), k) == None
  {
    hide Silent, Announced;
    SilentAppend(hs, header[..2]);
    SilentHeader(hs + header[..2], rest, k);
    assert hs + (header + rest) == hs + header[..2] + ([""] + rest);
  }

  /** Nor do inline parts that no HTML comes in front of. */
  lemma PartsAnnounce(hs: seq<string>, parts: seq<Part>, rest: seq<string>, k: Kind)
    requires Silent(hs) && parts != []
    ensures Announced(hs + (Delimited(AllPartLines(parts), RELATED) + rest), k) == None
  {
    hide Silent, Announced, PartLines, PartHeader, ContentLines;
    var ls, p := AllPartLines(parts), parts[0];
    var more := ContentLines(p) + ["", ""];
    PartHeaderSilent(p);
    SilentAppend(hs, PartHeader(p));
    SilentHeader(hs + PartHeader(p), more + (Delimited(ls[1..], RELATED) + rest), k);
    Regroup(hs, PartHeader(p), more, Delimited(ls[1..], RELATED), rest);
  }

  lemma Regroup(hs: seq<string>, h: seq<string>, more: seq<string>, d: seq<string>, rest: seq<string>)
    ensures hs + (h + ([""] + more) + d + rest) == hs + h + ([""] + (more + (d + rest)))
  {
  }

  /** HTML with inline parts announces these; the HTML alone, or the parts alone, announce nothing. */
  lemma AnnouncedRelated(m: Mail, hs: seq<string>, post: seq<string>, k: Kind)
    requires Silent(hs) && (post == [] || post == [""])
    ensures Announced(hs + (RelatedLines(m) + post), k)
         == if k == Related && m.RequiresRelated() && m.html != "" then Some(BoundaryOf(Related)) else None
  {
    hide Silent, Announced, Opens, BoundaryOf, Lines, AllPartLines, Delimited, HTML_LINES;
    if m.RequiresRelated() && m.html != "" {
      PreamblesOpen();
      var rest := Delimited([HtmlLines(m)] + AllPartLines(m.inlineParts), RELATED) + ([RELATED + "--"] + [""]);
      Assoc(RELATED_PREAMBLE, rest, post);
      PreambleAnnounces(hs, RELATED_PREAMBLE, Related, rest + post, k);
    } else if m.RequiresRelated() {
      Assoc(Delimited(AllPartLines(m.inlineParts), RELATED), [RELATED + "--"] + [""], post);
      PartsAnnounce(hs, m.inlineParts, [RELATED + "--"] + [""] + post, k);
    } else if m.html != "" {
      TextHeadersSilent();
      Assoc(HTML_LINES, Lines(m.html), post);
      TextAnnounces(hs, HTML_LINES, Lines(m.html) + post, k);
    } else {
      SilentHeader(hs, [], k);
      assert hs + ([] + post) == if post == [] then hs else hs + ([""] + []);
    }
  }

  lemma AnnouncedAlternative(m: Mail, hs: seq<string>, post: seq<string>, k: Kind)
    requires Silent(hs) && m.RequiresAlternative()
    ensures Announced(hs + (TextLines(m) + post), k) == if k == Alternative then Some(BoundaryOf(k)) else None
  {
    hide Silent, Announced, Opens, BoundaryOf, AltParts, Delimited, ALT_PREAMBLE, ALT_PREAMBLE_ALONE;
    PreamblesOpen();
    var preamble := if m.RequiresMixed() then ALT_PREAMBLE else ALT_PREAMBLE_ALONE;
    var rest := Delimited(AltParts(m), ALT) + ([ALT + "--"] + [""]);
    Assoc(preamble, rest, post);
    PreambleAnnounces(hs, preamble, Alternative, rest + post, k);
  }

  /** So with the plain text in front: only alternative content announces itself. */
  lemma AnnouncedTexts(m: Mail, hs: seq<string>, post: seq<string>, k: Kind)
    requires Silent(hs) && (post == [] || post == [""])
    ensures Announced(hs + (TextLines(m) + post), k)
         == if m.RequiresAlternative() then (if k == Alternative then Some(BoundaryOf(k)) else None)
            else if k == Related && m.RequiresRelated() && m.html != "" then Some(BoundaryOf(k)) else None
  {
    hide Silent, Announced, Opens, BoundaryOf, Lines, RelatedLines;
    if m.RequiresAlternative() {
      AnnouncedAlternative(m, hs, post, k);
    } else if m.plain != "" {
      TextHeadersSilent();
      assert TextLines(m) + post == PLAIN_LINES + (Lines(m.plain) + RelatedLines(m) + post);
      TextAnnounces(hs, PLAIN_LINES, Lines(m.plain) + RelatedLines(m) + post, k);
    } else {
      AnnouncedRelated(m, hs, post, k);
      assert [] + RelatedLines(m) == RelatedLines(m);
    }
  }
}
