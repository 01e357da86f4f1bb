/**
 * The libesmtp message: a pull machine that hands out the rendering of the message one chunk per
 * call. Every call takes its chunk off the front of what `Remaining` says is left.
 */
module LibESMTPMessage {
  import opened Text
  import opened Rendering
  import opened MessageDetails
  import Base64
  import QpContent
  import MessageNuls

  /** A header with its value, its path, or both. */
  function HeaderLine(header: string, value: string, path: string): string {
    header + ":" + (if value != "" then " " + value else "") + (if path != "" then " <" + path + ">" else "")
  }

  lemma HeaderGroup(header: string, value: string, path: string)
    ensures value != "" && path != "" ==> header + ":" + " " + value + " <" + path + ">" + CRLF == HeaderLine(header, value, path) + CRLF
    ensures value != "" && path == "" ==> header + ":" + " " + value + CRLF == HeaderLine(header, value, path) + CRLF
    ensures value == "" && path != "" ==> header + ":" + " <" + path + ">" + CRLF == HeaderLine(header, value, path) + CRLF
  {
  }

  lemma HeaderText(dump: string, header: string, value: string, path: string)
    requires value != "" || path != ""
    ensures dump + (HeaderLine(header, value, path) + CRLF) ==
            if path == "" then dump + header + ": " + value + "\r\n"
            else if value == "" then dump + header + ": <" + path + ">" + "\r\n"
            else dump + header + ": " + value + " <" + path + ">" + "\r\n"
  {
  }

  /** The header that OpenDKIM sets. */
  const DK_HEADER_NAME := "DKIM-Signature"

  lemma HasName()
    ensures DK_HEADER_NAME != "" && DK_HEADER_NAME + ": " == "DKIM-Signature: "
  {
  }

  /**
   * What a signer answers: whether it has a key, the value of the header it makes, if it makes one,
   * whether signatures are to be verified, and how that goes.
   */
  datatype Signer = Signer(hasKey: bool, signature: Option<string>, verifies: bool, verified: bool)

  class Message {
    var stage: nat
    var currentAttachment: nat
    var encodedPos: nat
    var hasMoreLines: bool
    var headersDump: string
    var signatureHeader: string
    var plainContent: string
    var htmlContent: string
    const details: Details

    /** The message as a value. It depends neither on the stage nor on any encoding cache. */
    function AsMail(): Mail
      reads this`headersDump, this`plainContent, this`htmlContent, details`attachments
      reads (set a | a in details.attachments)`contentLength, (set a | a in details.attachments)`content
    {
      Mail(headersDump, plainContent, htmlContent,
           AsParts(OfKind(details.attachments, true)), AsParts(OfKind(details.attachments, false)))
    }

    predicate Valid()
      reads this, details, details.attachments
    {
      details.Valid() && State(AsMail(), stage, currentAttachment, encodedPos, hasMoreLines)
    }

    /** What is left to hand out. */
    function Left(): string
      requires Valid()
      reads this, details, details.attachments
    {
      Remaining(AsMail(), stage, currentAttachment, encodedPos, hasMoreLines)
    }

    /** Content is encoded and attachments are loaded once, when the message is made; headers come later. */
    constructor (plain: Bytes, html: Bytes, details: Details, files: map<string, Bytes>)
      requires details.Valid() && forall path :: path in files ==> Base64.Slack(|files[path]|) == |files[path]| % 3
      modifies (set a | a in details.attachments)`content, (set a | a in details.attachments)`contentLength
      ensures Valid() && this.details == details
      ensures forall a :: a in details.attachments && a.filePath != "" && old(a.contentLength) == 0 ==>
        if a.filePath in files then a.content == Some(files[a.filePath]) && a.contentLength == |files[a.filePath]|
        else a.content == None && a.contentLength == 0
      ensures forall a :: a in details.attachments && (a.filePath == "" || old(a.contentLength) != 0) ==>
        a.content == old(a.content) && a.contentLength == old(a.contentLength)
      ensures AsMail() == Mail("", QpContent.Encoded(plain), QpContent.Encoded(html),
                               AsParts(OfKind(details.attachments, true)), AsParts(OfKind(details.attachments, false)))
    {
      hide OfKind, AsParts, QpContent.Encoded;
      stage, currentAttachment, encodedPos, hasMoreLines := S_EXTRA_HEADERS, 0, 0, false;
      headersDump, signatureHeader := "", "";
      this.details := details;
      new;
      plainContent := QpContent.QpEncodeContent(plain);
      htmlContent := QpContent.QpEncodeContent(html);
      details.LoadAttachments(files);
    }

    /** `addHeader`: one more header line, given a name and a value or a path. */
    method AddHeader(header: string, value: string, path: string) returns (ok: bool)
      requires Valid()
      modifies this`headersDump
      ensures ok <==> header != "" && (value != "" || path != "")
      ensures AsMail() == old(AsMail()).(headers := old(headersDump) + (if ok then HeaderLine(header, value, path) + CRLF else ""))
      ensures ok && path == "" ==> headersDump == old(headersDump) + header + ": " + value + "\r\n"
      ensures ok && value == "" ==> headersDump == old(headersDump) + header + ": <" + path + ">" + "\r\n"
      ensures ok && value != "" && path != "" ==> headersDump == old(headersDump) + header + ": " + value + " <" + path + ">" + "\r\n"
      ensures Valid()
    {
      hide OfKind, AsParts, State, FileName, Base64.Encode;
      ghost var m := AsMail();
      if header == "" || (value == "" && path == "") {
        assert headersDump + "" == headersDump;
        return false;
      }
      var headerStr := header + ":";
      if value != "" { headerStr := headerStr + " " + value; }
      if path != "" { headerStr := headerStr + " <" + path + ">"; }
      headerStr := headerStr + CRLF;
      HeaderGroup(header, value, path);
      HeaderText(headersDump, header, value, path);
      headersDump := headersDump + headerStr;
      StateHeaders(m, headersDump, stage, currentAttachment, encodedPos, hasMoreLines);
      return true;
    }

    predicate RequiresMixedParts() reads details { details.GetAttachmentCount(false) > 0 }
    predicate RequiresAlternativeParts() reads this { plainContent != "" && htmlContent != "" }
    predicate RequiresRelatedParts() reads details { details.GetAttachmentCount(true) > 0 }

    /** The rewinding call of `messageDataCallback`: the whole rendering is left again. */
    method Rewind()
      requires details.Valid()
      modifies this`stage, this`currentAttachment, this`encodedPos
      ensures Valid() && AsMail() == old(AsMail()) && Left() == Render(AsMail())
    {
      hide Remaining, Render, OfKind, AsParts;
      stage, currentAttachment, encodedPos := S_EXTRA_HEADERS, 0, 0;
      RemainingAtStart(AsMail(), hasMoreLines);
    }

    /** The parts of one kind, as the value the stages below speak of. */
    ghost function Kind(inlineParts: bool): seq<Part>
      reads details`attachments
      reads (set a | a in details.attachments)`contentLength, (set a | a in details.attachments)`content
    {
      AsParts(OfKind(details.attachments, inlineParts))
    }

    ghost predicate Holds(inlineParts: bool, parts: seq<Part>)
      reads details, details.attachments
    {
      details.Valid() && parts == Kind(inlineParts)
    }

    lemma HoldsIs(inlineParts: bool, parts: seq<Part>)
      requires Holds(inlineParts, parts)
      ensures details.Valid() && parts == Kind(inlineParts)
    {
    }

    lemma IsHolds(inlineParts: bool, parts: seq<Part>)
      requires details.Valid() && parts == Kind(inlineParts)
      ensures Holds(inlineParts, parts)
    {
    }

    lemma PartAt(inlineParts: bool, i: nat, a: Attachment)
      requires details.Valid() && i < |OfKind(details.attachments, inlineParts)| && a == OfKind(details.attachments, inlineParts)[i]
      ensures i < |Kind(inlineParts)| && Kind(inlineParts)[i] == a.AsPart()
      ensures a.content.Some? ==> |a.content.value| == a.contentLength
    {
      hide OfKind, FileName, Base64.Encode, Base64.Slack;
      assert a in OfKind(details.attachments, inlineParts) && a.Valid();
    }

    lemma HoldsCount(inlineParts: bool, parts: seq<Part>)
      requires Holds(inlineParts, parts)
      ensures details.GetAttachmentCount(inlineParts) == |parts|
    {
    }

    /**
     * `getAttachmentLine`: the next line of the current attachment, encoding its content the first
     * time. A line is at most 76 characters; `hasMoreLines` tells whether another one follows.
     */
    method GetAttachmentLine(inlineParts: bool, ghost parts: seq<Part>) returns (line: Option<string>)
      requires Holds(inlineParts, parts)
      modifies this`hasMoreLines, this`encodedPos
      modifies (set a | a in details.attachments)`encodedContent, (set a | a in details.attachments)`encodedLength
      ensures Holds(inlineParts, parts)
      ensures if currentAttachment < |parts| && old(encodedPos) < |parts[currentAttachment].Encoded()| then
          var enc := parts[currentAttachment].Encoded();
          && encodedPos == (if old(encodedPos) + LINE_MAX < |enc| then old(encodedPos) + LINE_MAX else |enc|)
          && line == Some(enc[old(encodedPos)..encodedPos])
          && hasMoreLines == (encodedPos < |enc|)
        else line == None && encodedPos == old(encodedPos) && !hasMoreLines
    {
      hide Base64.Encode, Base64.Slack, OfKind, AsParts, FileName, Holds, Details.Valid;
      HoldsIs(inlineParts, parts);
      var attachment := details.GetAttachment(currentAttachment, inlineParts);
      ghost var kind := OfKind(details.attachments, inlineParts);
      hasMoreLines := false;
      if attachment != null {
        assert attachment in kind && attachment in details.attachments;
        PartAt(inlineParts, currentAttachment, attachment);
      }
      if attachment == null || attachment.content == None || attachment.contentLength == 0 {
        if attachment != null { attachment.NothingToEncode(); }
        return None;
      }
      details.FillCache(attachment);
      IsHolds(inlineParts, parts);
      if attachment.encodedLength > 0 && encodedPos < attachment.encodedLength {
        var start := encodedPos;
        encodedPos := if encodedPos + LINE_MAX < attachment.encodedLength then encodedPos + LINE_MAX else attachment.encodedLength;
        hasMoreLines := encodedPos < attachment.encodedLength;
        return Some(attachment.encodedContent.value[start..encodedPos]);
      }
      return None;
    }

    /** Stages EXTRA_HEADERS to START_ALT of the switch. */
    static method HeaderStages(from: nat, headersDump: string, mixed: bool, alternative: bool, ghost m: Mail)
      returns (chunk: Option<string>, s: nat)
      requires S_EXTRA_HEADERS <= from < S_START_PLAIN
      requires m.headers == headersDump && m.RequiresMixed() == mixed && m.RequiresAlternative() == alternative
      ensures FrontSent(m, from, s, S_START_PLAIN, chunk)
    {
      ConstantsNonEmpty();
      hide FrontRemaining;
      hide START_MIXED, START_ALT, START_ALT_NO_MULTI, START_PLAIN, START_HTML, START_RELATED, ALT_TRANSITION;
      s := from;
      if s == S_EXTRA_HEADERS {
        if headersDump != "" { return Some(headersDump), s; }
        FrontSkip(m, s);
        s := S_START_MIXED;
      }
      if s == S_START_MIXED {
        if mixed { return Some(START_MIXED), s; }
        FrontSkip(m, s);
        s := S_START_ALT;
      }
      if s == S_START_ALT {
        if alternative { return Some(if mixed then START_ALT else START_ALT_NO_MULTI), s; }
        FrontSkip(m, s);
        s := S_START_PLAIN;
      }
      return None, s;
    }

    /** Stages START_PLAIN to ALT_TRANSITION. */
    static method PlainStages(from: nat, plainContent: string, htmlContent: string, mixed: bool, alternative: bool, related: bool, ghost m: Mail)
      returns (chunk: Option<string>, s: nat)
      requires S_START_PLAIN <= from < S_START_RELATED
      requires m.plain == plainContent && m.html == htmlContent && m.RequiresMixed() == mixed
      requires m.RequiresAlternative() == alternative && m.RequiresRelated() == related
      ensures FrontSent(m, from, s, S_START_RELATED, chunk)
    {
      ConstantsNonEmpty();
      hide FrontRemaining;
      hide START_MIXED, START_ALT, START_ALT_NO_MULTI, START_PLAIN, START_HTML, START_RELATED, ALT_TRANSITION;
      s := from;
      if s == S_START_PLAIN {
        if plainContent != "" { return Some(START_PLAIN), s; }
        FrontSkip(m, s);
        s := S_PLAIN;
      }
      if s == S_PLAIN {
        if plainContent != "" { return Some(plainContent), s; }
        FrontSkip(m, s);
        s := S_END_PLAIN;
      }
      if s == S_END_PLAIN {
        if plainContent != "" && At(plainContent, |plainContent|) != '\n'
           && (htmlContent != "" || alternative || related || mixed) {
          return Some(EXTRA_LINE), s;
        }
        FrontSkip(m, s);
        s := S_ALT_TRANSITION;
      }
      if s == S_ALT_TRANSITION {
        if alternative { return Some(ALT_TRANSITION), s; }
        FrontSkip(m, s);
        s := S_START_RELATED;
      }
      return None, s;
    }

    /** Stages START_RELATED to END_HTML. */
    static method HtmlStages(from: nat, htmlContent: string, mixed: bool, alternative: bool, related: bool, ghost m: Mail)
      returns (chunk: Option<string>, s: nat)
      requires S_START_RELATED <= from < S_START_INLINE
      requires m.html == htmlContent && m.RequiresMixed() == mixed && m.RequiresAlternative() == alternative && m.RequiresRelated() == related
      ensures FrontSent(m, from, s, S_START_INLINE, chunk)
    {
      ConstantsNonEmpty();
      hide FrontRemaining;
      hide START_MIXED, START_ALT, START_ALT_NO_MULTI, START_PLAIN, START_HTML, START_RELATED, ALT_TRANSITION;
      s := from;
      if s == S_START_RELATED {
        if htmlContent != "" && related { return Some(START_RELATED), s; }
        FrontSkip(m, s);
        s := S_START_HTML;
      }
      if s == S_START_HTML {
        if htmlContent != "" { return Some(START_HTML), s; }
        FrontSkip(m, s);
        s := S_HTML;
      }
      if s == S_HTML {
        if htmlContent != "" { return Some(htmlContent), s; }
        FrontSkip(m, s);
        s := S_END_HTML;
      }
      if s == S_END_HTML {
        if htmlContent != "" && At(htmlContent, |htmlContent|) != '\n'
           && (alternative || related || mixed) {
          return Some(EXTRA_LINE), s;
        }
        FrontSkip(m, s);
        s := S_START_INLINE;
      }
      return None, s;
    }

    /** `getAttachmentHeaders`: whatever number is asked for, the headers are the current attachment's. */
    method GetAttachmentHeaders(attachmentNum: nat, inlineParts: bool, ghost parts: seq<Part>) returns (headers: string)
      requires Holds(inlineParts, parts) && currentAttachment < |parts|
      ensures headers == parts[currentAttachment].Headers()
    {
      hide OfKind, AsParts, FileName;
      var attachment := details.GetAttachment(currentAttachment, inlineParts);
      headers := BuildHeaders(attachment.AsPart());
    }

    /** The appends of `getAttachmentHeaders`, in their order. */
    static method BuildHeaders(part: Part) returns (headers: string)
      ensures headers == part.Headers()
    {
      headers := "Content-Type: ";
      headers := headers + part.contentType;
      headers := headers + (";" + CRLF + "\tname=\"");
      headers := headers + part.fileName;
      headers := headers + ("\"" + CRLF + "Content-Transfer-Encoding: base64" + CRLF);
      TwoLines("Content-Type: ", part.contentType, ";", "\tname=\"", part.fileName, "\"", "Content-Transfer-Encoding: base64");
      ghost var first := headers;
      if part.contentId != "" {
        headers := headers + "Content-ID: <";
        headers := headers + part.contentId;
        headers := headers + (">" + CRLF + ("Content-Disposition: " + "inline"));
        OneLine(first, "Content-ID: <", part.contentId, ">", "Content-Disposition: " + "inline");
      } else {
        headers := headers + ("Content-Disposition: " + "attachment");
      }
      ghost var second := if part.contentId != "" then ("Content-ID: <" + part.contentId + ">") + CRLF + ("Content-Disposition: " + "inline")
                          else "Content-Disposition: " + "attachment";
      headers := headers + (";" + CRLF + "\tfilename=\"");
      headers := headers + part.fileName;
      headers := headers + ("\"" + CRLF + CRLF);
      LastLine(first, second, ";", "\tfilename=\"", part.fileName, "\"");
      assert part.contentId != "" ==>
        second + ";" == ("Content-ID: <" + part.contentId + ">") + CRLF + ("Content-Disposition: " + "inline" + ";");
    }

    static lemma TwoLines(a: string, t: string, b: string, c: string, n: string, q: string, e: string)
      ensures a + t + (b + CRLF + c) + n + (q + CRLF + e + CRLF) == (a + t + b) + CRLF + (c + n + q) + CRLF + e + CRLF
    {
    }

    static lemma OneLine(f: string, a: string, i: string, b: string, d: string)
      ensures f + a + i + (b + CRLF + d) == f + ((a + i + b) + CRLF + d)
    {
    }

    static lemma LastLine(f: string, d: string, b: string, c: string, n: string, q: string)
      ensures f + d + (b + CRLF + c) + n + (q + CRLF + CRLF) == f + ((d + b) + CRLF) + ((c + n + q) + CRLF + "" + CRLF)
    {
    }

    /**
     * The six stages that stream the parts of one kind; `t0` is the current stage and `t` the next,
     * as offsets from START_INLINE or START_ATTACHMENT. The switch has these stages twice, the same
     * but for the kind.
     */
    method PartStages(inlineParts: bool, t0: nat, start: string, ghost parts: seq<Part>)
      returns (chunk: Option<string>, t: nat)
      requires Holds(inlineParts, parts) && t0 < 6 && start != ""
      requires PartState(parts, t0, currentAttachment, encodedPos, hasMoreLines)
      modifies this`currentAttachment, this`encodedPos, this`hasMoreLines
      modifies (set a | a in details.attachments)`encodedContent, (set a | a in details.attachments)`encodedLength
      ensures Holds(inlineParts, parts)
      ensures parts == [] ==>
        chunk == None && t == 6 && currentAttachment == old(currentAttachment) && encodedPos == old(encodedPos)
      ensures parts != [] ==>
        && chunk.Some? && t <= 6
        && PartsSent(parts, start, t0, old(currentAttachment), old(encodedPos),
                     chunk.value, t, currentAttachment, encodedPos, hasMoreLines)
    {
      hide OfKind, AsParts, Kind, Holds, PartsSent, PartState, PartsRemaining;
      HoldsCount(inlineParts, parts);
      var count := details.GetAttachmentCount(inlineParts);
      chunk, t := PartStart(inlineParts, t0, count, start, parts);
      if chunk == None {
        chunk, t, currentAttachment, encodedPos :=
          PartFinish(t, count, currentAttachment, encodedPos, hasMoreLines, start, parts, t0);
      }
    }

    /** The first three of them, START to LINE; `t` is the next stage, as an offset. */
    method PartStart(inlineParts: bool, t0: nat, count: nat, start: string, ghost parts: seq<Part>)
      returns (chunk: Option<string>, t: nat)
      requires Holds(inlineParts, parts) && count == |parts| && t0 < 6 && start != ""
      requires PartState(parts, t0, currentAttachment, encodedPos, hasMoreLines)
      modifies this`encodedPos, this`hasMoreLines
      modifies (set a | a in details.attachments)`encodedContent, (set a | a in details.attachments)`encodedLength
      ensures Holds(inlineParts, parts)
      ensures chunk.Some? ==>
        && t <= 6 && parts != []
        && PartsSent(parts, start, t0, currentAttachment, old(encodedPos),
                     chunk.value, t, currentAttachment, encodedPos, hasMoreLines)
      ensures chunk.None? ==>
        && P_LINE_END <= t < 6 && encodedPos == old(encodedPos)
        && PartState(parts, t, currentAttachment, encodedPos, hasMoreLines)
        && PartsRemaining(parts, start, t, currentAttachment, encodedPos)
           == PartsRemaining(parts, start, t0, currentAttachment, encodedPos)
    {
      hide OfKind, AsParts, Kind, Holds, PartsSent, PartsRemaining, Base64.Encode;
      t := t0;
      if t == P_START {
        if count > 0 {
          SendStart(parts, start, currentAttachment, hasMoreLines);
          return Some(start), P_HEADERS;
        }
        t := P_HEADERS;
      }
      if t == P_HEADERS {
        if count > 0 {
          var headers := GetAttachmentHeaders(currentAttachment, inlineParts, parts);
          SendHeaders(parts, start, currentAttachment, hasMoreLines);
          if headers != "" { return Some(headers), P_LINE; }
        }
        t := P_LINE;
      }
      if t == P_LINE {
        if count > 0 {
          var line := GetAttachmentLine(inlineParts, parts);
          if line.Some? && |line.value| > 0 {
            SendLine(parts, start, currentAttachment, old(encodedPos));
            return line, P_LINE_END;
          }
        }
        t := P_LINE_END;
      }
      if t0 < P_LINE_END {
        FallToLineEnd(parts, start, t0, currentAttachment, encodedPos, old(hasMoreLines));
      }
      return None, t;
    }

    /** The last three, LINE_END to NEXT; t == 6 is the stage after them. */
    static method PartFinish(t0: nat, count: nat, cur0: nat, pos0: nat, more: bool, start: string,
                             ghost parts: seq<Part>, ghost from: nat)
      returns (chunk: Option<string>, t: nat, cur: nat, pos: nat)
      requires P_LINE_END <= t0 < 6 && count == |parts| && PartState(parts, t0, cur0, pos0, more)
      requires PartsRemaining(parts, start, t0, cur0, pos0) == PartsRemaining(parts, start, from, cur0, pos0)
      ensures parts == [] ==> chunk == None && t == 6 && cur == cur0 && pos == pos0
      ensures parts != [] ==>
        chunk.Some? && t <= 6 && PartsSent(parts, start, from, cur0, pos0, chunk.value, t, cur, pos, more)
    {
      hide PartsRemaining, Base64.Encode;
      t, cur, pos := t0, cur0, pos0;
      if t == P_LINE_END {
        if count > 0 {
          SendLineEnd(parts, start, cur, pos, more);
          // LINE again, by way of HEADERS, when the attachment has more lines
          return Some(EXTRA_LINE), if more then P_HEADERS + 1 else P_LINE_END + 1, cur, pos;
        }
        t := P_END;
      }
      if t == P_END {
        if count > 0 {
          SendEnd(parts, start, cur, pos, more);
          cur, pos := cur + 1, 0;
          if cur >= count { t := P_NEXT; }
          return Some(EXTRA_LINE), t + 1, cur, pos;
        }
        t := P_NEXT;
      }
      if cur < count {
        SendNext(parts, start, cur, more);
        return Some(EXTRA_LINE), P_START, cur, pos;
      }
      return None, 6, cur, pos;
    }

    /** The details are in order and `m` is the message they and the fields make. */
    ghost predicate Serves(m: Mail)
      reads this`headersDump, this`plainContent, this`htmlContent, details, details.attachments
    {
      details.Valid() && m == AsMail()
    }

    lemma ServesFacts(m: Mail)
      requires Serves(m)
      ensures m.headers == headersDump && m.plain == plainContent && m.html == htmlContent
      ensures RequiresMixedParts() == m.RequiresMixed() && RequiresRelatedParts() == m.RequiresRelated()
      ensures RequiresAlternativeParts() == m.RequiresAlternative()
      ensures Holds(true, m.inlineParts) && Holds(false, m.attachments)
    {
    }

    lemma StillServes(m: Mail)
      requires m == AsMail() && (Holds(true, m.inlineParts) || Holds(false, m.attachments))
      ensures Serves(m)
    {
    }

    lemma ValidHasLeft(m: Mail)
      requires Valid() && m == AsMail()
      ensures HasLeft(m, Left())
    {
    }

    /** From END on nothing is left, and it stays so. */
    lemma AtEnd(m: Mail, left: string)
      requires HasLeft(m, left) && stage >= S_END
      ensures Sent(m, left, None, stage + 1, currentAttachment, encodedPos, hasMoreLines)
    {
    }

    /** Stages EXTRA_HEADERS to END_HTML, placed in the whole switch. */
    method Front(ghost m: Mail, ghost left: string) returns (chunk: Option<string>)
      requires HasLeft(m, left) && stage < S_START_INLINE
      modifies this`stage
      ensures Went(m, left, chunk, S_START_INLINE)
    {
      hide Remaining, Sent, FrontSent, OfKind, AsParts, AsMail, Serves;
      var s;
      chunk, s := FrontStages(m);
      AfterFront(m, stage, s, chunk, hasMoreLines);
      stage := if chunk.Some? then s + 1 else s;
    }

    /** Stages EXTRA_HEADERS to END_HTML: which stage sends, and what. */
    method FrontStages(ghost m: Mail) returns (chunk: Option<string>, s: nat)
      requires Serves(m) && stage < S_START_INLINE
      ensures FrontSent(m, stage, s, S_START_INLINE, chunk) && (chunk == None ==> s == S_START_INLINE)
    {
      hide Serves, FrontRemaining, FrontChunk, Holds, RequiresMixedParts, RequiresRelatedParts, RequiresAlternativeParts;
      ServesFacts(m);
      var mixed, alternative, related := RequiresMixedParts(), RequiresAlternativeParts(), RequiresRelatedParts();
      chunk, s := None, stage;
      if s < S_START_PLAIN {
        chunk, s := HeaderStages(s, headersDump, mixed, alternative, m);
      }
      if chunk == None && s < S_START_RELATED {
        chunk, s := PlainStages(s, plainContent, htmlContent, mixed, alternative, related, m);
      }
      if chunk == None {
        chunk, s := HtmlStages(s, htmlContent, mixed, alternative, related, m);
      }
    }

    /** The machine may be where it is, and `left` is what it still has to send of `m`. */
    ghost predicate HasLeft(m: Mail, left: string)
      reads this, details, details.attachments
    {
      && Serves(m)
      && State(m, stage, currentAttachment, encodedPos, hasMoreLines)
      && Remaining(m, stage, currentAttachment, encodedPos, hasMoreLines) == left
    }

    /** What a stretch of the switch does: it sends a chunk, or falls through to stage `next`. */
    ghost predicate Went(m: Mail, left: string, chunk: Option<string>, next: nat)
      reads this, details, details.attachments
    {
      if chunk.Some? then
        Serves(m) && Sent(m, left, chunk, stage, currentAttachment, encodedPos, hasMoreLines)
      else HasLeft(m, left) && stage == next
    }

    /** The stages of one kind of parts, placed in the whole switch. */
    method PartsOfKind(inlineParts: bool, ghost m: Mail, ghost left: string) returns (chunk: Option<string>)
      requires HasLeft(m, left)
      requires var first := if inlineParts then S_START_INLINE else S_START_ATTACHMENT; first <= stage < first + 6
      modifies this`stage, this`currentAttachment, this`encodedPos, this`hasMoreLines
      modifies (set a | a in details.attachments)`encodedContent, (set a | a in details.attachments)`encodedLength
      ensures Went(m, left, chunk, if inlineParts then S_END_RELATED else S_END_MIXED)
    {
      hide Serves, OfKind, AsParts, Kind, Holds, Remaining, PartsSent, Sent, AsMail, Base64.Encode;
      ServesFacts(m);
      ServesIs(m);
      var first := if inlineParts then S_START_INLINE else S_START_ATTACHMENT;
      var start := if inlineParts then START_INLINE else START_ATTACHMENT;
      ghost var parts := if inlineParts then m.inlineParts else m.attachments;
      ghost var t0, cur0, pos0, more0 := stage - first, currentAttachment, encodedPos, hasMoreLines;
      var t;
      chunk, t := PartStages(inlineParts, stage - first, start, parts);
      stage := first + t;
      StillServes(m);
      if parts == [] {
        if inlineParts { NoInline(m, t0, more0, hasMoreLines); } else { NoAttachments(m, t0, more0, hasMoreLines); }
      } else if inlineParts {
        AfterInlineChunk(m, t0, cur0, pos0, more0, chunk.value, t, currentAttachment, encodedPos, hasMoreLines);
      } else {
        AfterAttachmentChunk(m, t0, cur0, pos0, more0, chunk.value, t, currentAttachment, encodedPos, hasMoreLines);
      }
    }

    lemma ServesIs(m: Mail)
      requires Serves(m)
      ensures m == AsMail() && details.Valid()
    {
    }

    /** END_RELATED and END_ALT; the first resets the attachment counter when it sends. */
    method EndOfContent(ghost m: Mail, ghost left: string) returns (chunk: Option<string>)
      requires HasLeft(m, left) && S_END_RELATED <= stage <= S_END_ALT
      modifies this`stage, this`currentAttachment
      ensures Went(m, left, chunk, S_START_ATTACHMENT)
    {
      hide Remaining, Sent, State, OfKind, AsParts, Holds, AsMail;
      ServesFacts(m);
      chunk := None;
      if stage == S_END_RELATED {
        EndRelatedStage(m, currentAttachment, encodedPos, hasMoreLines);
        stage := S_END_ALT;
        if RequiresRelatedParts() {
          currentAttachment := 0;
          return Some(END_RELATED);
        }
      }
      EndAltStage(m, currentAttachment, encodedPos, hasMoreLines);
      stage := S_START_ATTACHMENT;
      if RequiresAlternativeParts() { chunk := Some(END_ALT); }
    }

    /**
     * `messageDataCallback`, any call but a rewinding one: a non-empty chunk taken off the front of
     * what is left, or nothing when nothing is left, now and from then on.
     */
    method NextChunk(ghost m: Mail) returns (chunk: Option<string>)
      requires Valid() && m == AsMail()
      modifies this`stage, this`currentAttachment, this`encodedPos, this`hasMoreLines
      modifies (set a | a in details.attachments)`encodedContent, (set a | a in details.attachments)`encodedLength
      ensures Serves(m) && Sent(m, old(Left()), chunk, stage, currentAttachment, encodedPos, hasMoreLines)
    {
      hide OfKind, AsParts, AsMail, Remaining, Sent, FrontSent, PartsSent, State, Serves, Base64.Encode;
      ghost var left := Left();
      ValidHasLeft(m);
      chunk := None;
      if stage < S_START_INLINE {
        chunk := Front(m, left);
      }
      if chunk == None && stage < S_END_RELATED {
        chunk := PartsOfKind(true, m, left);
      }
      if chunk == None && stage < S_START_ATTACHMENT {
        chunk := EndOfContent(m, left);
      }
      if chunk == None && stage < S_END_MIXED {
        chunk := PartsOfKind(false, m, left);
      }
      if chunk == None {
        chunk := EndOfMessage(m, left);
      }
    }

    /** END_MIXED and END; the stage goes on growing after the end. */
    method EndOfMessage(ghost m: Mail, ghost left: string) returns (chunk: Option<string>)
      requires HasLeft(m, left) && stage >= S_END_MIXED
      modifies this`stage
      ensures Serves(m) && Sent(m, left, chunk, stage, currentAttachment, encodedPos, hasMoreLines)
    {
      hide Remaining, Sent, State, OfKind, AsParts, Holds, AsMail, Serves;
      chunk := None;
      if stage == S_END_MIXED {
        ServesFacts(m);
        EndMixedStage(m, currentAttachment, encodedPos, hasMoreLines);
        stage := S_END;
        if RequiresMixedParts() { return Some(END_MIXED); }
      }
      AtEnd(m, left);
      stage := stage + 1;
    }

    /**
     * A consumer that honours the length of each chunk: it rewinds, then pulls until there is no
     * chunk. The chunks are the rendering, whatever stage the machine was at and whatever was cached.
     */
    method Pull() returns (chunks: seq<string>)
      requires details.Valid()
      modifies this`stage, this`currentAttachment, this`encodedPos, this`hasMoreLines
      modifies (set a | a in details.attachments)`encodedContent, (set a | a in details.attachments)`encodedLength
      ensures Valid() && AsMail() == old(AsMail()) && Left() == ""
      ensures Concat(chunks) == Render(AsMail()) && "" !in chunks
    {
      hide OfKind, AsParts, AsMail, Remaining, Render, State, Base64.Encode;
      ghost var m := AsMail();
      Rewind();
      chunks := [];
      assert Concat(chunks) + Left() == Left();
      var more := true;
      while more
        invariant Valid() && AsMail() == m && Concat(chunks) + Left() == Render(m)
        invariant "" !in chunks && (!more ==> Left() == "")
        decreases |Left()|, more
      {
        var chunk := NextChunk(m);
        ServesIs(m);
        if chunk.Some? {
          ConcatAppend(chunks, [chunk.value]);
          assert Concat([chunk.value]) == chunk.value;
          Assoc(Concat(chunks), chunk.value, Left());
          chunks := chunks + [chunk.value];
        } else {
          more := false;
        }
      }
      assert Concat(chunks) + "" == Concat(chunks);
    }

    /**
     * `getMessageData`: appends each chunk as a C string, so what follows a NUL in a chunk is lost.
     * The result is the message exactly when no field of the message has a NUL in it.
     */
    method GetMessageData() returns (fullMessage: string)
      requires details.Valid()
      modifies this`stage, this`currentAttachment, this`encodedPos, this`hasMoreLines
      modifies (set a | a in details.attachments)`encodedContent, (set a | a in details.attachments)`encodedLength
      ensures Valid() && AsMail() == old(AsMail())
      ensures fullMessage == Render(AsMail()) <==> MessageNuls.NulFree(AsMail())
      ensures NUL !in fullMessage
    {
      hide OfKind, AsParts, AsMail, Remaining, Render, State, Base64.Encode, CStr, MessageNuls.NulFree;
      ghost var m, sent := AsMail(), "";
      Rewind();
      fullMessage := "";
      var more := true;
      assert "" + Left() == Left();
      while more
        invariant Valid() && AsMail() == m && sent + Left() == Render(m)
        invariant CStrs(fullMessage, sent) && (!more ==> Left() == "")
        decreases |Left()|, more
      {
        var chunk := NextChunk(m);
        ServesIs(m);
        if chunk.Some? {
          fullMessage := fullMessage + CStr(chunk.value);
          Assoc(sent, chunk.value, Left());
          sent := sent + chunk.value;
        } else {
          more := false;
        }
      }
      assert sent + "" == sent;
      MessageNuls.RenderNulIff(m);
    }

    /** `setSignatureHeader`: the signature header goes in front of the headers, once it has a value. */
    method SetSignatureHeader(header: string, value: string) returns (ok: bool)
      requires Valid()
      modifies this`signatureHeader, this`headersDump
      ensures ok <==> header != "" && value != ""
      ensures ok ==> signatureHeader == header + ": " + value
      ensures AsMail() == old(AsMail()).(headers := (if ok then signatureHeader else "") + old(headersDump))
      ensures Valid() && Render(AsMail()) == (if ok then signatureHeader else "") + old(Render(AsMail()))
    {
      hide OfKind, AsParts, Base64.Encode, Render, State, FileName;
      ghost var m := AsMail();
      if header == "" || value == "" {
        RenderSigned(m, "");
        return false;
      }
      signatureHeader := header;
      signatureHeader := signatureHeader + ": ";
      signatureHeader := signatureHeader + value;
      headersDump := signatureHeader + headersDump;
      RenderSigned(m, signatureHeader);
      StateHeaders(m, signatureHeader + m.headers, stage, currentAttachment, encodedPos, hasMoreLines);
      return true;
    }

    /**
     * `signMessage` with the signer's answers as parameters, and the transport pulling what may be
     * sent: the text that was signed, with the signature header in front if there is a key. The
     * text signed is that of the message exactly when no field of it has a NUL in it.
     */
    method SignAndPull(signer: Signer) returns (ok: bool, signed: string, chunks: seq<string>)
      requires Valid()
      modifies this
      modifies (set a | a in details.attachments)`encodedContent, (set a | a in details.attachments)`encodedLength
      ensures ok <==> !signer.hasKey || (signed != "" && signer.signature.Some? && (signer.verifies ==> signer.verified))
      ensures ok ==>
        var unsigned := !signer.hasKey || signer.signature.value == "";
        Concat(chunks) == (if unsigned then "" else "DKIM-Signature: " + signer.signature.value) + old(Render(AsMail()))
      ensures !ok ==> chunks == []
      ensures signed == old(Render(AsMail())) <==> old(MessageNuls.NulFree(AsMail()))
    {
      hide OfKind, AsParts, AsMail, Remaining, Render, State, Base64.Encode, MessageNuls.NulFree, DK_HEADER_NAME;
      ghost var whole := Render(AsMail());
      assert "" + whole == whole;
      HasName();
      signed := GetMessageData();
      if signer.hasKey {
        if signed == "" || signer.signature.None? { return false, signed, []; }
        var isSet := SetSignatureHeader(DK_HEADER_NAME, signer.signature.value);
        if signer.verifies && !signer.verified { return false, signed, []; }
      }
      chunks := Pull();
      return true, signed, chunks;
    }
  }

  /** `full` is the concatenation of the C strings of the chunks of `sent`, as far as it matters. */
  ghost predicate CStrs(full: string, sent: string) {
    NUL !in full && |full| <= |sent| && (full == sent <==> NUL !in sent) && (NUL in sent ==> |full| < |sent|)
  }

  /** A header put in front of the headers is put in front of the message. */
  lemma RenderSigned(m: Mail, signature: string)
    ensures Render(m.(headers := signature + m.headers)) == signature + Render(m)
    ensures "" + m.headers == m.headers && "" + Render(m) == Render(m)
  {
    BodySigned(m, signature + m.headers);
    hide Body;
    Assoc(signature, m.headers, Body(m));
  }

  lemma BodySigned(m: Mail, headers: string)
    ensures Body(m.(headers := headers)) == Body(m)
  {
    hide PartsFrom;
    var n := m.(headers := headers);
    assert PlainPart(n) == PlainPart(m) && HtmlPart(n) == HtmlPart(m);
    hide PlainPart, HtmlPart;
    assert RelatedPart(n) == RelatedPart(m);
    assert Content(n) == Content(m);
  }

  lemma StateHeaders(m: Mail, headers: string, stage: nat, cur: nat, pos: nat, more: bool)
    ensures State(m.(headers := headers), stage, cur, pos, more) == State(m, stage, cur, pos, more)
  {
  }
}
