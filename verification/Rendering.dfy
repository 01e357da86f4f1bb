/**
 * The message as a value, and what is sent for it: `Render` builds the nested multipart text
 * recursively, `Remaining` says what is left to send at each stage of the streaming machine.
 */
module Rendering {
  import opened Text
  import Base64

  datatype Part = Part(contentType: string, fileName: string, contentId: string, data: Bytes) {
    predicate IsInline() { contentId != "" }

    /** `getAttachmentHeaders`. */
    function Headers(): string {
      ("Content-Type: " + contentType + ";") + CRLF + ("\tname=\"" + fileName + "\"") + CRLF
      + "Content-Transfer-Encoding: base64" + CRLF
      + ((if IsInline() then ("Content-ID: <" + contentId + ">") + CRLF + ("Content-Disposition: " + "inline" + ";")
          else "Content-Disposition: " + "attachment" + ";") + CRLF)
      + (("\tfilename=\"" + fileName + "\"") + CRLF + "" + CRLF)
    }

    function Encoded(): string { Base64.Encode(data) }
  }

  datatype Mail = Mail(headers: string, plain: string, html: string, inlineParts: seq<Part>, attachments: seq<Part>) {
    predicate RequiresMixed() { attachments != [] }
    predicate RequiresAlternative() { plain != "" && html != "" }
    predicate RequiresRelated() { inlineParts != [] }
  }

  const MIXED := "------=_NextMixedPart"
  const ALT := "------=_NextAltPart"
  const RELATED := "------=_NextRelatedPart"

  const EXTRA_LINE := CRLF
  const MIXED_NOTE :=
    "This is a message in multipart " + "MIME format. Your mail client " + "should not be displaying this. "
    + "Consider upgrading your mail " + "client to view this message " + "correctly."
  const START_MIXED :=
    "Content-Type: multipart/mixed;" + CRLF + "\tboundary=\"----=_NextMixedPart\"" + CRLF + "" + CRLF
    + MIXED_NOTE + CRLF + "" + CRLF + MIXED + CRLF
  const ALT_HEADER := "Content-Type: multipart/alternative;" + CRLF + "\tboundary=\"----=_NextAltPart\"" + CRLF + "" + CRLF
  const START_ALT := ALT_HEADER + "" + CRLF + ALT + CRLF
  const START_ALT_NO_MULTI :=
    ALT_HEADER + "This is a multi-part message " + "in MIME format." + CRLF + "" + CRLF + ALT + CRLF
  const QP_HEADER := "charset=\"utf-8\"" + CRLF + "Content-Transfer-Encoding: " + "quoted-printable" + CRLF + "" + CRLF
  const START_PLAIN := "Content-Type: text/plain; " + QP_HEADER
  const ALT_TRANSITION := ALT + CRLF
  const START_RELATED :=
    "Content-Type: multipart/related;" + CRLF + "\tboundary=\"----=_NextRelatedPart\"" + CRLF + "" + CRLF
    + RELATED + CRLF
  const START_HTML := "Content-Type: text/html; " + QP_HEADER
  const START_INLINE := RELATED + CRLF
  const END_RELATED := CRLF + RELATED + "--" + CRLF + CRLF
  const END_ALT := CRLF + ALT + "--" + CRLF + CRLF
  const START_ATTACHMENT := MIXED + CRLF
  const END_MIXED := CRLF + MIXED + "--" + CRLF + CRLF

  const LINE_MAX: nat := 76

  /** The lines of an encoded part from `pos` on: 76 characters each but the last, CRLF after each. */
  function LinesFrom(enc: string, pos: nat): string
    decreases |enc| - pos
  {
    if pos >= |enc| then ""
    else if pos + LINE_MAX >= |enc| then enc[pos..] + CRLF
    else enc[pos..pos + LINE_MAX] + CRLF + LinesFrom(enc, pos + LINE_MAX)
  }

  /** An empty part still gets the line break that ends its only, empty, line. */
  function BodyFrom(enc: string, pos: nat): string {
    if enc == "" then CRLF else LinesFrom(enc, pos)
  }

  /** The parts from the k-th on: delimiter, headers, lines and an empty line; one more between two parts. */
  function PartsFrom(parts: seq<Part>, start: string, k: nat): string
    decreases |parts| - k
  {
    if k >= |parts| then ""
    else
      start + parts[k].Headers() + BodyFrom(parts[k].Encoded(), 0) + CRLF
      + (if k + 1 < |parts| then CRLF + PartsFrom(parts, start, k + 1) else "")
  }

  function If(c: bool, s: string): string { if c then s else "" }

  function PlainPart(m: Mail): string {
    if m.plain == "" then ""
    else START_PLAIN + m.plain + If(m.html != "" || m.RequiresRelated() || m.RequiresMixed(), EXTRA_LINE)
  }

  function HtmlPart(m: Mail): string {
    if m.html == "" then ""
    else START_HTML + m.html + If(m.RequiresAlternative() || m.RequiresRelated() || m.RequiresMixed(), EXTRA_LINE)
  }

  function RelatedPart(m: Mail): string {
    If(m.html != "" && m.RequiresRelated(), START_RELATED) + HtmlPart(m)
    + PartsFrom(m.inlineParts, START_INLINE, 0) + If(m.RequiresRelated(), END_RELATED)
  }

  function Content(m: Mail): string {
    if m.RequiresAlternative() then
      (if m.RequiresMixed() then START_ALT else START_ALT_NO_MULTI)
      + PlainPart(m) + ALT_TRANSITION + RelatedPart(m) + END_ALT
    else PlainPart(m) + RelatedPart(m)
  }

  function Body(m: Mail): string {
    if m.RequiresMixed() then START_MIXED + Content(m) + PartsFrom(m.attachments, START_ATTACHMENT, 0) + END_MIXED
    else Content(m)
  }

  /** The whole message. */
  function Render(m: Mail): string { m.headers + Body(m) }

  /** The stages, numbered as in LibESMTPProvider.h, lines 40-47. */
  const S_EXTRA_HEADERS: nat := 0
  const S_START_MIXED: nat := 1
  const S_START_ALT: nat := 2
  const S_START_PLAIN: nat := 3
  const S_PLAIN: nat := 4
  const S_END_PLAIN: nat := 5
  const S_ALT_TRANSITION: nat := 6
  const S_START_RELATED: nat := 7
  const S_START_HTML: nat := 8
  const S_HTML: nat := 9
  const S_END_HTML: nat := 10
  const S_START_INLINE: nat := 11
  const S_END_RELATED: nat := 17
  const S_END_ALT: nat := 18
  const S_START_ATTACHMENT: nat := 19
  const S_END_MIXED: nat := 25
  const S_END: nat := 26

  /** Offsets of the six stages that stream a list of parts, from START_INLINE or START_ATTACHMENT. */
  const P_START: nat := 0
  const P_HEADERS: nat := 1
  const P_LINE: nat := 2
  const P_LINE_END: nat := 3
  const P_END: nat := 4
  const P_NEXT: nat := 5

  /** Which part and which position the machine may be at in stage `t` of a list of parts. */
  predicate PartState(parts: seq<Part>, t: nat, cur: nat, pos: nat, more: bool) {
    if parts == [] then cur == 0 && pos == 0
    else
      && cur < |parts|
      && (t == P_LINE ==> pos == 0 || pos < |parts[cur].Encoded()|)
      && (t == P_LINE_END ==> more == (pos < |parts[cur].Encoded()|))
      && (t == P_START || t == P_HEADERS || t == P_NEXT ==> pos == 0)
  }

  /** What is left of a list of parts from its END stage, and from stage `t`. */
  function EndRemaining(parts: seq<Part>, start: string, cur: nat): string {
    CRLF + If(cur + 1 < |parts|, CRLF + PartsFrom(parts, start, cur + 1))
  }

  function PartsRemaining(parts: seq<Part>, start: string, t: nat, cur: nat, pos: nat): string
    requires parts != [] ==> cur < |parts|
  {
    if parts == [] then ""
    else
      var enc, end := parts[cur].Encoded(), EndRemaining(parts, start, cur);
      if t == P_START then PartsFrom(parts, start, cur)
      else if t == P_HEADERS then parts[cur].Headers() + (BodyFrom(enc, 0) + end)
      else if t == P_LINE then BodyFrom(enc, pos) + end
      else if t == P_LINE_END then CRLF + (LinesFrom(enc, pos) + end)
      else if t == P_END then end
      else CRLF + PartsFrom(parts, start, cur)
  }

  predicate State(m: Mail, stage: nat, cur: nat, pos: nat, more: bool) {
    if stage < S_START_INLINE then cur == 0 && pos == 0
    else if stage < S_END_RELATED then PartState(m.inlineParts, stage - S_START_INLINE, cur, pos, more)
    else if stage == S_END_RELATED then cur == |m.inlineParts| && pos == 0
    else if stage < S_START_ATTACHMENT then cur == 0 && pos == 0
    else if stage < S_END_MIXED then PartState(m.attachments, stage - S_START_ATTACHMENT, cur, pos, more)
    else true
  }

  /** What the machine still has to send. */
  function Remaining(m: Mail, stage: nat, cur: nat, pos: nat, more: bool): string
    requires State(m, stage, cur, pos, more)
  {
    if stage < S_START_INLINE then
      FrontRemaining(m, stage)
    else if stage < S_END_RELATED then
      PartsRemaining(m.inlineParts, START_INLINE, stage - S_START_INLINE, cur, pos) + AfterInline(m)
    else if stage == S_END_RELATED then AfterInline(m)
    else if stage == S_END_ALT then AfterRelated(m)
    else if stage < S_END_MIXED then
      PartsRemaining(m.attachments, START_ATTACHMENT, stage - S_START_ATTACHMENT, cur, pos) + If(m.RequiresMixed(), END_MIXED)
    else if stage == S_END_MIXED then If(m.RequiresMixed(), END_MIXED)
    else ""
  }

  function AfterRelated(m: Mail): string {
    If(m.RequiresAlternative(), END_ALT)
    + (PartsRemaining(m.attachments, START_ATTACHMENT, P_START, 0, 0) + If(m.RequiresMixed(), END_MIXED))
  }

  function AfterInline(m: Mail): string {
    If(m.RequiresRelated(), END_RELATED) + AfterRelated(m)
  }

  /** What each of the stages up to END_HTML contributes. */
  function FrontChunk(m: Mail, stage: nat): string {
    if stage == S_EXTRA_HEADERS then m.headers
    else if stage == S_START_MIXED then If(m.RequiresMixed(), START_MIXED)
    else if stage == S_START_ALT then
      If(m.RequiresAlternative(), if m.RequiresMixed() then START_ALT else START_ALT_NO_MULTI)
    else if stage == S_START_PLAIN then If(m.plain != "", START_PLAIN)
    else if stage == S_PLAIN then m.plain
    else if stage == S_END_PLAIN then
      If(m.plain != "" && (m.html != "" || m.RequiresAlternative() || m.RequiresRelated() || m.RequiresMixed()), EXTRA_LINE)
    else if stage == S_ALT_TRANSITION then If(m.RequiresAlternative(), ALT_TRANSITION)
    else if stage == S_START_RELATED then If(m.html != "" && m.RequiresRelated(), START_RELATED)
    else if stage == S_START_HTML then If(m.html != "", START_HTML)
    else if stage == S_HTML then m.html
    else If(m.html != "" && (m.RequiresAlternative() || m.RequiresRelated() || m.RequiresMixed()), EXTRA_LINE)
  }

  function FrontRemaining(m: Mail, stage: nat): string
    decreases S_START_INLINE - stage
  {
    if stage < S_START_INLINE then FrontChunk(m, stage) + FrontRemaining(m, stage + 1)
    else PartsRemaining(m.inlineParts, START_INLINE, P_START, 0, 0) + AfterInline(m)
  }

  /** From the rewound state the machine has the whole rendering to send. */
  lemma RemainingAtStart(m: Mail, more: bool)
    ensures Remaining(m, S_EXTRA_HEADERS, 0, 0, more) == Render(m)
  {
    hide PartsFrom;
    RemainingHtml(m);
    RemainingPlain(m);
    RemainingContent(m);
    FrontStep(m, S_EXTRA_HEADERS);
  }

  lemma FrontStep(m: Mail, stage: nat)
    requires stage < S_START_INLINE
    ensures FrontRemaining(m, stage) == FrontChunk(m, stage) + FrontRemaining(m, stage + 1)
  {
  }

  lemma PartsFromStart(parts: seq<Part>, start: string)
    ensures PartsRemaining(parts, start, P_START, 0, 0) == PartsFrom(parts, start, 0)
  {
  }

  lemma RemainingHtml(m: Mail)
    ensures FrontRemaining(m, S_START_RELATED) == RelatedPart(m) + AfterRelated(m)
  {
    PartsFromStart(m.inlineParts, START_INLINE);
    var p, e, t := PartsFrom(m.inlineParts, START_INLINE, 0), If(m.RequiresRelated(), END_RELATED), AfterRelated(m);
    assert FrontRemaining(m, S_START_INLINE) == p + (e + t);
    FrontStep(m, S_START_RELATED);
    FrontStep(m, S_START_HTML);
    FrontStep(m, S_HTML);
    FrontStep(m, S_END_HTML);
    hide FrontRemaining, PartsFrom, AfterRelated;
    var a, h := FrontChunk(m, S_START_RELATED), HtmlPart(m);
    var c8, c9, c10 := FrontChunk(m, S_START_HTML), FrontChunk(m, S_HTML), FrontChunk(m, S_END_HTML);
    assert h == c8 + c9 + c10;
    Assoc4(c8, c9, c10, p + (e + t));
    assert RelatedPart(m) == a + h + p + e;
    Regroup4(a, h, p, e, t);
  }

  lemma Regroup4(a: string, b: string, c: string, d: string, t: string)
    ensures a + (b + (c + (d + t))) == a + b + c + d + t
  {
  }

  lemma RemainingPlain(m: Mail)
    ensures FrontRemaining(m, S_START_PLAIN)
         == PlainPart(m) + (If(m.RequiresAlternative(), ALT_TRANSITION) + FrontRemaining(m, S_START_RELATED))
  {
    hide FrontRemaining;
    FrontStep(m, S_START_PLAIN);
    FrontStep(m, S_PLAIN);
    FrontStep(m, S_END_PLAIN);
    FrontStep(m, S_ALT_TRANSITION);
    var c3, c4, c5 := FrontChunk(m, S_START_PLAIN), FrontChunk(m, S_PLAIN), FrontChunk(m, S_END_PLAIN);
    assert PlainPart(m) == c3 + c4 + c5;
    Assoc4(c3, c4, c5, FrontRemaining(m, S_ALT_TRANSITION));
  }

  lemma RemainingContent(m: Mail)
    requires FrontRemaining(m, S_START_RELATED) == RelatedPart(m) + AfterRelated(m)
    requires FrontRemaining(m, S_START_PLAIN)
          == PlainPart(m) + (If(m.RequiresAlternative(), ALT_TRANSITION) + FrontRemaining(m, S_START_RELATED))
    ensures FrontRemaining(m, S_START_MIXED) == Body(m)
  {
    PartsFromStart(m.attachments, START_ATTACHMENT);
    hide FrontRemaining, PartsFrom, PlainPart, RelatedPart;
    FrontStep(m, S_START_MIXED);
    FrontStep(m, S_START_ALT);
    var p, r, c, q := PlainPart(m), RelatedPart(m), Content(m), PartsFrom(m.attachments, START_ATTACHMENT, 0);
    var a := q + If(m.RequiresMixed(), END_MIXED);
    assert FrontRemaining(m, S_START_ALT) == c + a by {
      if m.RequiresAlternative() {
        Regroup4(FrontChunk(m, S_START_ALT), p, ALT_TRANSITION, r, END_ALT + a);
        assert c + a == FrontChunk(m, S_START_ALT) + p + ALT_TRANSITION + r + (END_ALT + a);
      } else {
        assert "" + (p + ("" + (r + ("" + a)))) == p + r + a;
      }
    }
    if m.RequiresMixed() {
      Assoc4(START_MIXED, c, q, END_MIXED);
    } else {
      assert a == "" && "" + (c + a) == c;
    }
  }

  /** A stage with nothing to send is passed over. */
  lemma FrontSkip(m: Mail, stage: nat)
    requires stage < S_START_INLINE && FrontChunk(m, stage) == ""
    ensures FrontRemaining(m, stage) == FrontRemaining(m, stage + 1)
  {
    hide FrontRemaining;
    FrontStep(m, stage);
    assert "" + FrontRemaining(m, stage + 1) == FrontRemaining(m, stage + 1);
  }

  /**
   * A run through the switch from stage `from`: either stage `s`, before `limit`, sends all it has
   * and nothing before it sent anything, or everything up to `limit` was passed over.
   */
  ghost predicate FrontSent(m: Mail, from: nat, s: nat, limit: nat, chunk: Option<string>)
  {
    if chunk.Some? then
      from <= s < limit && chunk.value == FrontChunk(m, s) != "" && FrontRemaining(m, from) == FrontRemaining(m, s)
    else s == limit && FrontRemaining(m, from) == FrontRemaining(m, limit)
  }

  lemma ConstantsNonEmpty()
    ensures START_MIXED != "" && START_ALT != "" && START_ALT_NO_MULTI != ""
    ensures START_PLAIN != "" && ALT_TRANSITION != "" && START_RELATED != "" && START_HTML != ""
  {
  }

  /**
   * One chunk taken off what is left of a list of parts: the machine goes from stage `t`, part
   * `cur`, position `pos` to stage `t'`, part `cur'`, position `pos'`; stage 6 is past the list.
   */
  ghost predicate PartsSent(parts: seq<Part>, start: string, t: nat, cur: nat, pos: nat,
                            chunk: string, t': nat, cur': nat, pos': nat, more: bool)
    requires parts != [] ==> cur < |parts|
  {
    && chunk != "" && t' <= 6
    && if t' == 6 then cur' == |parts| && pos' == 0 && PartsRemaining(parts, start, t, cur, pos) == chunk
       else PartState(parts, t', cur', pos', more)
            && PartsRemaining(parts, start, t, cur, pos) == chunk + PartsRemaining(parts, start, t', cur', pos')
  }

  /** What each stage has to send, and where that leaves the machine. */
  lemma SendStart(parts: seq<Part>, start: string, cur: nat, more: bool)
    requires cur < |parts| && start != ""
    ensures PartsSent(parts, start, P_START, cur, 0, start, P_HEADERS, cur, 0, more)
  {
    PartsFromStep(parts, start, cur);
    hide PartsFrom, BodyFrom, EndRemaining, Base64.Encode;
    Assoc4(start, parts[cur].Headers(), BodyFrom(parts[cur].Encoded(), 0), EndRemaining(parts, start, cur));
  }

  lemma PartsFromStep(parts: seq<Part>, start: string, cur: nat)
    requires cur < |parts|
    ensures PartsFrom(parts, start, cur)
         == start + parts[cur].Headers() + BodyFrom(parts[cur].Encoded(), 0) + EndRemaining(parts, start, cur)
  {
    hide BodyFrom, Base64.Encode;
    var a := start + parts[cur].Headers() + BodyFrom(parts[cur].Encoded(), 0);
    var next := if cur + 1 < |parts| then CRLF + PartsFrom(parts, start, cur + 1) else "";
    assert a + CRLF + next == a + (CRLF + next);
  }

  lemma SendHeaders(parts: seq<Part>, start: string, cur: nat, more: bool)
    requires cur < |parts|
    ensures PartsSent(parts, start, P_HEADERS, cur, 0, parts[cur].Headers(), P_LINE, cur, 0, more)
  {
    assert |parts[cur].Headers()| >= |"Content-Type: "|;
  }

  lemma LinesFromStep(enc: string, pos: nat)
    requires pos < |enc|
    ensures var pos' := if pos + LINE_MAX < |enc| then pos + LINE_MAX else |enc|;
      BodyFrom(enc, pos) == enc[pos..pos'] + CRLF + LinesFrom(enc, pos')
  {
    assert enc[pos..] == enc[pos..|enc|];
    assert enc[pos..] + CRLF + "" == enc[pos..] + CRLF;
  }

  lemma SendLine(parts: seq<Part>, start: string, cur: nat, pos: nat)
    requires cur < |parts| && pos < |parts[cur].Encoded()|
    ensures var enc := parts[cur].Encoded();
      var pos' := if pos + LINE_MAX < |enc| then pos + LINE_MAX else |enc|;
      PartsSent(parts, start, P_LINE, cur, pos, enc[pos..pos'], P_LINE_END, cur, pos', pos' < |enc|)
  {
    hide PartsFrom, Base64.Encode;
    var enc := parts[cur].Encoded();
    var pos' := if pos + LINE_MAX < |enc| then pos + LINE_MAX else |enc|;
    LinesFromStep(enc, pos);
    hide LinesFrom, BodyFrom, EndRemaining;
    Assoc4(enc[pos..pos'], CRLF, LinesFrom(enc, pos'), EndRemaining(parts, start, cur));
  }

  lemma SendLineEnd(parts: seq<Part>, start: string, cur: nat, pos: nat, more: bool)
    requires PartState(parts, P_LINE_END, cur, pos, more) && parts != []
    ensures PartsSent(parts, start, P_LINE_END, cur, pos, EXTRA_LINE, if more then P_LINE else P_END, cur, pos, more)
  {
    hide PartsFrom;
    assert pos >= |parts[cur].Encoded()| ==> "" + EndRemaining(parts, start, cur) == EndRemaining(parts, start, cur);
  }

  lemma SendEnd(parts: seq<Part>, start: string, cur: nat, pos: nat, more: bool)
    requires cur < |parts|
    ensures PartsSent(parts, start, P_END, cur, pos, EXTRA_LINE, if cur + 1 < |parts| then P_NEXT else 6, cur + 1, 0, more)
  {
    hide PartsFrom;
    assert CRLF + "" == CRLF;
  }

  lemma SendNext(parts: seq<Part>, start: string, cur: nat, more: bool)
    requires cur < |parts|
    ensures PartsSent(parts, start, P_NEXT, cur, 0, EXTRA_LINE, P_START, cur, 0, more)
  {
    hide PartsFrom;
  }

  /** Nothing to send before LINE_END: no part at all, or a part without content. */
  lemma FallToLineEnd(parts: seq<Part>, start: string, t: nat, cur: nat, pos: nat, more: bool)
    requires t < 6 && PartState(parts, t, cur, pos, more)
    requires parts == [] || (t == P_LINE && parts[cur].Encoded() == "")
    ensures PartState(parts, P_LINE_END, cur, pos, false)
    ensures PartsRemaining(parts, start, P_LINE_END, cur, pos) == PartsRemaining(parts, start, t, cur, pos)
  {
    hide PartsFrom, EndRemaining;
    if parts != [] {
      assert "" + EndRemaining(parts, start, cur) == EndRemaining(parts, start, cur);
    }
  }

  /** One call of the machine: a chunk comes off the front of what is left, and none means none is left. */
  ghost predicate Sent(m: Mail, left: string, chunk: Option<string>, stage: nat, cur: nat, pos: nat, more: bool) {
    && State(m, stage, cur, pos, more)
    && (chunk.Some? ==> chunk.value != "" && left == chunk.value + Remaining(m, stage, cur, pos, more))
    && (chunk.None? ==> left == "" && Remaining(m, stage, cur, pos, more) == "")
  }

  lemma AfterFront(m: Mail, from: nat, s: nat, chunk: Option<string>, more: bool)
    requires from < S_START_INLINE && FrontSent(m, from, s, S_START_INLINE, chunk)
    ensures chunk.Some? ==> Sent(m, Remaining(m, from, 0, 0, more), chunk, s + 1, 0, 0, more)
    ensures chunk.None? ==> State(m, S_START_INLINE, 0, 0, more)
    ensures chunk.None? ==> Remaining(m, S_START_INLINE, 0, 0, more) == Remaining(m, from, 0, 0, more)
  {
    hide PartsFrom, AfterInline, FrontChunk;
    if chunk.Some? { FrontStep(m, s); }
  }

  lemma AfterInlineChunk(m: Mail, t0: nat, cur0: nat, pos0: nat, more0: bool, chunk: string, t: nat, cur: nat, pos: nat, more: bool)
    requires t0 < 6 && State(m, S_START_INLINE + t0, cur0, pos0, more0) && m.inlineParts != []
    requires PartsSent(m.inlineParts, START_INLINE, t0, cur0, pos0, chunk, t, cur, pos, more)
    ensures Sent(m, Remaining(m, S_START_INLINE + t0, cur0, pos0, more0), Some(chunk), S_START_INLINE + t, cur, pos, more)
  {
    hide PartsRemaining, AfterInline, Base64.Encode;
    var tail := AfterInline(m);
    if t < 6 {
      Assoc(chunk, PartsRemaining(m.inlineParts, START_INLINE, t, cur, pos), tail);
    }
  }

  lemma AfterAttachmentChunk(m: Mail, t0: nat, cur0: nat, pos0: nat, more0: bool, chunk: string, t: nat, cur: nat, pos: nat, more: bool)
    requires t0 < 6 && State(m, S_START_ATTACHMENT + t0, cur0, pos0, more0) && m.attachments != []
    requires PartsSent(m.attachments, START_ATTACHMENT, t0, cur0, pos0, chunk, t, cur, pos, more)
    ensures Sent(m, Remaining(m, S_START_ATTACHMENT + t0, cur0, pos0, more0), Some(chunk), S_START_ATTACHMENT + t, cur, pos, more)
  {
    hide PartsRemaining, Base64.Encode, END_MIXED;
    if t < 6 {
      Assoc(chunk, PartsRemaining(m.attachments, START_ATTACHMENT, t, cur, pos), If(m.RequiresMixed(), END_MIXED));
    }
  }

  lemma NoInline(m: Mail, t0: nat, more: bool, more': bool)
    requires t0 < 6 && State(m, S_START_INLINE + t0, 0, 0, more) && m.inlineParts == []
    ensures State(m, S_END_RELATED, 0, 0, more')
    ensures Remaining(m, S_END_RELATED, 0, 0, more') == Remaining(m, S_START_INLINE + t0, 0, 0, more)
  {
    hide AfterInline;
    assert "" + AfterInline(m) == AfterInline(m);
  }

  lemma NoAttachments(m: Mail, t0: nat, more: bool, more': bool)
    requires t0 < 6 && State(m, S_START_ATTACHMENT + t0, 0, 0, more) && m.attachments == []
    ensures State(m, S_END_MIXED, 0, 0, more')
    ensures Remaining(m, S_END_MIXED, 0, 0, more') == Remaining(m, S_START_ATTACHMENT + t0, 0, 0, more)
  {
  }

  lemma EndRelatedStage(m: Mail, cur: nat, pos: nat, more: bool)
    requires State(m, S_END_RELATED, cur, pos, more)
    ensures State(m, S_END_ALT, 0, pos, more)
    ensures if m.RequiresRelated() then
              Sent(m, Remaining(m, S_END_RELATED, cur, pos, more), Some(END_RELATED), S_END_ALT, 0, pos, more)
            else cur == 0 && Remaining(m, S_END_ALT, cur, pos, more) == Remaining(m, S_END_RELATED, cur, pos, more)
  {
    hide AfterRelated;
    assert "" + AfterRelated(m) == AfterRelated(m);
  }

  lemma EndAltStage(m: Mail, cur: nat, pos: nat, more: bool)
    requires State(m, S_END_ALT, cur, pos, more)
    ensures State(m, S_START_ATTACHMENT, cur, pos, more)
    ensures if m.RequiresAlternative() then
              Sent(m, Remaining(m, S_END_ALT, cur, pos, more), Some(END_ALT), S_START_ATTACHMENT, cur, pos, more)
            else Remaining(m, S_START_ATTACHMENT, cur, pos, more) == Remaining(m, S_END_ALT, cur, pos, more)
  {
    hide PartsFrom, END_MIXED;
    var rest := PartsRemaining(m.attachments, START_ATTACHMENT, P_START, 0, 0) + If(m.RequiresMixed(), END_MIXED);
    assert "" + rest == rest;
  }

  lemma EndMixedStage(m: Mail, cur: nat, pos: nat, more: bool)
    ensures State(m, S_END, cur, pos, more) && Remaining(m, S_END, cur, pos, more) == ""
    ensures if m.RequiresMixed() then
              Sent(m, Remaining(m, S_END_MIXED, cur, pos, more), Some(END_MIXED), S_END, cur, pos, more)
            else Remaining(m, S_END_MIXED, cur, pos, more) == ""
  {
    assert END_MIXED + "" == END_MIXED;
  }
}
