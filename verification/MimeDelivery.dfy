/** From files and texts to the chunks of a message, and back: what reaches the reader of a new message. */
module MimeDelivery {
  import opened Text
  import opened Rendering
  import opened MessageDetails
  import opened LibESMTPMessage
  import opened MimeLines
  import opened MimeReading
  import opened MimeFields
  import opened MimeMessage
  import opened QpContent
  import Base64
  import QuotedPrintable

  datatype Header = Header(name: string, value: string, path: string) {
    /** The names that stay clear of delimiters, of continued lines and of what describes content. */
    predicate Usual() {
      && name != "" && (value != "" || path != "") && '\r' !in name && '\r' !in value && '\r' !in path
      && name[0] != '-' && name[0] != '\t' && !("Content-" <= name)
    }
  }

  /** An attachment as `addAttachment` was given it, of a file that can be read, no field of it breaking a line. */
  predicate New(a: Attachment, files: map<string, Bytes>)
    reads a`contentLength
  {
    && a.contentLength == 0 && a.filePath != "" && a.filePath in files
    && '\r' !in a.contentType && '\r' !in a.filePath && '\r' !in a.contentId
  }

  /** The part that a reader finds for an attachment: its file, under its name, as what it is. */
  ghost predicate Arrived(e: Entity, a: Attachment, files: map<string, Bytes>) {
    && a.filePath in files && e.content == files[a.filePath]
    && e.disposition == (if a.contentId != "" then "inline" else "attachment")
    && (';' !in a.contentType ==> e.contentType == a.contentType)
    && ('"' !in a.filePath ==> e.fileName == FileName(a.filePath))
    && ('>' !in a.contentId ==> e.contentId == a.contentId)
  }

  ghost predicate AllArrived(es: seq<Entity>, list: seq<Attachment>, files: map<string, Bytes>) {
    |es| == |list| && forall i :: 0 <= i < |es| ==> Arrived(es[i], list[i], files)
  }

  /** A new message, and its headers one by one. */
  method MakeMessage(plain: Bytes, html: Bytes, details: Details, files: map<string, Bytes>, headers: seq<Header>)
    returns (message: Message, ghost hs: seq<string>)
    requires details.Valid() && forall path :: path in files ==> Base64.Slack(|files[path]|) == |files[path]| % 3
    requires forall a :: a in details.attachments ==> New(a, files)
    requires forall h :: h in headers ==> h.Usual()
    modifies (set a | a in details.attachments)`content, (set a | a in details.attachments)`contentLength
    ensures fresh(message) && message.Valid() && message.details == details && Loaded(details.attachments, files)
    ensures HeaderSection(hs) && hs == HeaderLines(headers)
    ensures message.AsMail() == Mail(Lined(hs), Encoded(plain), Encoded(html),
                                     AsParts(OfKind(details.attachments, true)), AsParts(OfKind(details.attachments, false)))
  {
    hide OfKind, AsParts, Lined, Encoded, Attachment.Valid, FileName, AllSafe, NoFields, State, Base64.Encode, Base64.Slack, HeaderLine;
    assert forall a :: a in details.attachments ==> New(a, files);
    message := new Message(plain, html, details, files);
    assert Loaded(details.attachments, files);
    ghost var body := message.AsMail();
    hs := [];
    NoHeaders();
    for i := 0 to |headers|
      invariant message.Valid() && message.details == details && message.AsMail() == body.(headers := Lined(hs))
      invariant HeaderSection(hs) && hs == HeaderLines(headers[..i]) && Loaded(details.attachments, files)
    {
      var h := headers[i];
      assert h in headers && h.Usual();
      var ok := message.AddHeader(h.name, h.value, h.path);
      HeaderSectionGrows(hs, h.name, h.value, h.path);
      OneMoreHeader(headers, i);
      hs := hs + [HeaderLine(h.name, h.value, h.path)];
    }
    assert headers[..|headers|] == headers;
  }

  /** What a reader of some lines finds: the headers in front, both texts, and the files of inline parts and attachments. */
  ghost predicate Reached(ls: seq<string>, headers: seq<Header>, plain: Bytes, html: Bytes, list: seq<Attachment>,
                          files: map<string, Bytes>)
  {
    var found, inlined := ReadMail(ls), OfKind(list, true);
    && HeaderLines(headers) <= ls
    && AllArrived(found.attachments, OfKind(list, false), files)
    && (html != [] ==> AllArrived(found.inlineParts, inlined, files))
    && (plain != [] ==>
          && found.plain.contentType == "text/plain" && found.plain.charset == "utf-8"
          && (found.plain.content == plain <==> !QuotedPrintable.LastWs(plain) && (html != [] || inlined == [])))
    && (html != [] ==>
          && found.html.contentType == "text/html" && found.html.charset == "utf-8"
          && (QuotedPrintable.LastWs(html) || found.html.content in [html, html + "\n"]))
  }

  /** A new message is pulled: its chunks reach the reader with all that it was made of. */
  method MakeAndPull(plain: Bytes, html: Bytes, details: Details, files: map<string, Bytes>, headers: seq<Header>)
    returns (chunks: seq<string>)
    requires details.Valid() && forall path :: path in files ==> Base64.Slack(|files[path]|) == |files[path]| % 3
    requires forall a :: a in details.attachments ==> New(a, files)
    requires forall h :: h in headers ==> h.Usual()
    requires Encodable(plain) && Encodable(html)
    modifies (set a | a in details.attachments)`content, (set a | a in details.attachments)`contentLength
    modifies (set a | a in details.attachments)`encodedContent, (set a | a in details.attachments)`encodedLength
    ensures Reached(Lines(Concat(chunks)), headers, plain, html, details.attachments, files)
  {
    hide OfKind, AsParts, Render, Reached, Lines, Lined, Encodable, Encoded, Details.Valid, State, HeaderSection, Loaded;
    var message;
    ghost var hs;
    message, hs := MakeMessage(plain, html, details, files, headers);
    MessageIsValid(message);
    chunks := message.Pull();
    MailReached(message.AsMail(), chunks, hs, headers, plain, html, details.attachments, files);
  }

  lemma MessageIsValid(message: Message)
    requires message.Valid()
    ensures message.details.Valid()
  {
  }

  lemma MailReached(m: Mail, chunks: seq<string>, hs: seq<string>, headers: seq<Header>, plain: Bytes, html: Bytes,
                    list: seq<Attachment>, files: map<string, Bytes>)
    requires Concat(chunks) == Render(m) && HeaderSection(hs) && hs == HeaderLines(headers)
    requires Encodable(plain) && Encodable(html) && Loaded(list, files)
    requires m == Mail(Lined(hs), Encoded(plain), Encoded(html), AsParts(OfKind(list, true)), AsParts(OfKind(list, false)))
    ensures Reached(Lines(Concat(chunks)), headers, plain, html, list, files)
  {
    hide OfKind, AsParts, Render, ReadMail, Lines, Lined, Encodable, Encoded, HeaderSection, AllArrived, AllDescribed,
         QuotedPrintable.LastWs, Loaded, PlainFields, HeaderLines, HtmlAsRead;
    var inlined, attached := OfKind(list, true), OfKind(list, false);
    KindsLoaded(list, files);
    FieldsAreLines(inlined, files);
    FieldsAreLines(attached, files);
    IsMadeFrom(m, plain, html);
    MessageReadBack(m, chunks, hs, plain, html);
    var found := ReadMail(Lines(Concat(chunks)));
    PartsArrived(found.attachments, attached, files);
    if html != [] { PartsArrived(found.inlineParts, inlined, files); }
    HeadersFirst(m, hs);
    HtmlIsRead(m, html);
  }

  lemma KindsLoaded(list: seq<Attachment>, files: map<string, Bytes>)
    requires Loaded(list, files)
    ensures Loaded(OfKind(list, true), files) && Loaded(OfKind(list, false), files)
  {
  }

  /** What the two texts and the parts must be for a reader. */
  lemma IsMadeFrom(m: Mail, plain: Bytes, html: Bytes)
    requires Encodable(plain) && m.plain == Encoded(plain) && Encodable(html) && m.html == Encoded(html)
    requires (forall p :: p in m.inlineParts ==> PlainFields(p)) && forall p :: p in m.attachments ==> PlainFields(p)
    ensures MadeFrom(m, plain, html)
  {
    hide Encodable, Encoded, PlainFields;
  }

  /** Attachments that are loaded. */
  ghost predicate Loaded(list: seq<Attachment>, files: map<string, Bytes>)
    reads (set a | a in list)`content, (set a | a in list)`contentLength
  {
    forall a :: a in list ==>
      && a.filePath != "" && a.filePath in files && a.content == Some(files[a.filePath]) && a.contentLength == |files[a.filePath]|
      && '\r' !in a.contentType && '\r' !in a.filePath && '\r' !in a.contentId
  }

  lemma FieldsAreLines(list: seq<Attachment>, files: map<string, Bytes>)
    requires Loaded(list, files)
    ensures forall p :: p in AsParts(list) ==> PlainFields(p)
  {
    hide FileName, AsParts;
    forall p | p in AsParts(list) ensures PlainFields(p) {
      var i :| 0 <= i < |AsParts(list)| && AsParts(list)[i] == p;
      assert list[i] in list;
      NameIsInPath(list[i].filePath, '\r');
    }
  }

  lemma NameIsInPath(path: string, c: char)
    requires path != ""
    ensures c !in path ==> c !in FileName(path)
  {
    var after := AfterLast(path, '/');
    if after.Some? { assert forall x :: x in after.value ==> x in path[|path| - |after.value|..]; }
  }

  lemma PartsArrived(es: seq<Entity>, list: seq<Attachment>, files: map<string, Bytes>)
    requires Loaded(list, files) && AllDescribed(es, AsParts(list))
    ensures AllArrived(es, list, files)
  {
    hide FileName, AsParts;
    forall i | 0 <= i < |es| ensures Arrived(es[i], list[i], files) {
      assert list[i] in list && Describes(es[i], AsParts(list)[i]);
      NameIsInPath(list[i].filePath, '"');
    }
  }

  lemma HeadersFirst(m: Mail, hs: seq<string>)
    requires m.headers == Lined(hs) && HeaderSection(hs)
    ensures hs <= Lines(Render(m))
  {
    hide Body, Lined, Lines;
    HeaderSectionSilent(hs);
    SafeIsFreeAt(hs, MIXED);
    LinesOfLined(hs, Body(m));
  }

  lemma HtmlIsRead(m: Mail, html: Bytes)
    ensures HtmlAsRead(m, html) in [html, html + "\n"]
  {
  }

  function HeaderLines(headers: seq<Header>): seq<string> {
    if headers == [] then []
    else [HeaderLine(headers[0].name, headers[0].value, headers[0].path)] + HeaderLines(headers[1..])
  }

  lemma NoHeaders()
    ensures Lined([]) == "" && HeaderSection([]) && HeaderLines([]) == []
  {
  }

  lemma OneMoreHeader(headers: seq<Header>, i: nat)
    requires i < |headers|
    ensures HeaderLines(headers[..i + 1])
         == HeaderLines(headers[..i]) + [HeaderLine(headers[i].name, headers[i].value, headers[i].path)]
  {
    HeadersAppend(headers[..i], headers[i]);
    assert headers[..i + 1] == headers[..i] + [headers[i]];
  }

  lemma {:induction false} HeadersAppend(headers: seq<Header>, h: Header)
    ensures HeaderLines(headers + [h]) == HeaderLines(headers) + [HeaderLine(h.name, h.value, h.path)]
  {
    if headers == [] {
      assert headers + [h] == [h];
    } else {
      assert (headers + [h])[0] == headers[0] && (headers + [h])[1..] == headers[1..] + [h];
      HeadersAppend(headers[1..], h);
    }
  }
}
