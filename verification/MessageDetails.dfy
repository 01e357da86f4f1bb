/** Attachments and the details object that counts and finds them. */
module MessageDetails {
  import opened Text
  import opened Rendering
  import Base64

  /** `Attachment::getFileName`: what follows the last '/', or a stand-in for no path at all. */
  function FileName(filePath: string): string {
    var after := AfterLast(filePath, '/');
    if after.Some? then after.value else if filePath != "" then filePath else "Attachment"
  }

  function AfterLast(s: string, c: char): (r: Option<string>)
    ensures r.None? <==> c !in s
    ensures r.Some? ==> c !in r.value && |r.value| < |s| && s[|s| - |r.value|..] == r.value && s[|s| - |r.value| - 1] == c
  {
    if s == "" then None
    else
      var rest := AfterLast(s[1..], c);
      if rest.Some? then rest else if s[0] == c then Some(s[1..]) else None
  }

  /** `Attachment::resolveContentType`: the type given, or one guessed from the extension. */
  function ResolveContentType(contentType: string, filePath: string): string {
    var extension := AfterLast(FileName(filePath), '.');
    if contentType != "" || extension.None? then contentType
    else match extension.value
      case "pdf" => "application/pdf"
      case "rtf" => "application/rtf"
      case "doc" => "application/vnd.ms-word"
      case "xls" => "application/vnd.ms-excel"
      case "ppt" => "application/vnd.ms-powerpoint"
      case "html" => "text/html"
      case "htm" => "text/html"
      case "txt" => "text/plain"
      case "gif" => "image/gif"
      case "jpg" => "image/jpeg"
      case "png" => "image/png"
      case _ => "application/octet-stream"
  }

  /** A file is named by what follows the last slash. */
  lemma FileNameIs(directory: string, name: string)
    requires '/' !in name
    ensures FileName(directory + "/" + name) == name
    ensures FileName(name) == if name == "" then "Attachment" else name
  {
    AfterLastIs(directory, name, '/');
  }

  lemma {:induction false} AfterLastIs(a: string, b: string, c: char)
    requires c !in b
    ensures AfterLast(a + [c] + b, c) == Some(b) && AfterLast(b, c) == None
  {
    hide AfterLast;
    var s := a + [c] + b;
    NotAfter(b, c);
    AfterLastStep(s, c);
    if a == "" {
      assert s[1..] == b;
    } else {
      AfterLastIs(a[1..], b, c);
      assert s[0] == a[0] && s[1..] == a[1..] + [c] + b;
    }
  }

  lemma AfterLastStep(s: string, c: char)
    requires s != ""
    ensures AfterLast(s, c) ==
            if AfterLast(s[1..], c).Some? then AfterLast(s[1..], c) else if s[0] == c then Some(s[1..]) else None
  {
  }

  lemma NotAfter(s: string, c: char)
    requires c !in s
    ensures AfterLast(s, c) == None
  {
  }

  /** Without a type of its own a file gets one by what follows the last dot of its name. */
  lemma TypeIs(path: string, stem: string, extension: string)
    requires FileName(path) == stem + "." + extension && '.' !in extension
    ensures var t := ResolveContentType("", path);
      && (extension == "pdf" ==> t == "application/pdf") && (extension == "rtf" ==> t == "application/rtf")
      && (extension == "doc" ==> t == "application/vnd.ms-word") && (extension == "xls" ==> t == "application/vnd.ms-excel")
      && (extension == "ppt" ==> t == "application/vnd.ms-powerpoint")
      && (extension == "html" || extension == "htm" ==> t == "text/html") && (extension == "txt" ==> t == "text/plain")
      && (extension == "gif" ==> t == "image/gif") && (extension == "jpg" ==> t == "image/jpeg")
      && (extension == "png" ==> t == "image/png")
      && (extension !in {"pdf", "rtf", "doc", "xls", "ppt", "html", "htm", "txt", "gif", "jpg", "png"} ==>
            t == "application/octet-stream")
  {
    AfterLastIs(stem, extension, '.');
  }

  class Attachment {
    const filePath: string
    const contentType: string
    const contentId: string
    var contentLength: nat
    var content: Option<Bytes>
    var encodedLength: nat
    var encodedContent: Option<string>

    /** The length is that of the content, and the cache holds its encoding or nothing. */
    predicate Valid()
      reads this`content, this`contentLength, this`encodedContent, this`encodedLength
    {
      && (content.Some? ==> |content.value| == contentLength && Base64.Slack(contentLength) == contentLength % 3)
      && (encodedContent.Some? ==>
            content.Some? && contentLength > 0
            && encodedContent.value == Base64.Encode(content.value) && encodedLength == |encodedContent.value|)
    }

    constructor (filePath: string, contentType: string, contentId: string)
      ensures this.filePath == filePath && this.contentId == contentId
      ensures this.contentType == ResolveContentType(contentType, filePath)
      ensures Valid() && content == None && contentLength == 0 && encodedContent == None
    {
      this.filePath, this.contentId := filePath, contentId;
      this.contentType := ResolveContentType(contentType, filePath);
      contentLength, content, encodedLength, encodedContent := 0, None, 0, None;
    }

    predicate IsInline() { contentId != "" }

    /** `loadRaw`: the whole file, or nothing. */
    method LoadRaw(files: map<string, Bytes>)
      requires Valid() && contentLength == 0
      requires forall path :: path in files ==> Base64.Slack(|files[path]|) == |files[path]| % 3
      modifies this`content, this`contentLength
      ensures Valid()
      ensures content == (if filePath in files then Some(files[filePath]) else None)
      ensures contentLength == if filePath in files then |files[filePath]| else 0
    {
      if filePath in files {
        contentLength := |files[filePath]|;
        content := Some(files[filePath]);
      } else {
        content := None;
      }
    }

    /** Encodes the content, unless that was done before. */
    method FillCache()
      requires Valid() && content.Some? && contentLength > 0
      modifies this`encodedContent, this`encodedLength
      ensures Valid() && encodedContent == Some(AsPart().Encoded()) && encodedLength == |AsPart().Encoded()| > 0
    {
      hide Base64.Encode, Base64.Slack;
      Base64.EncodedLength(content.value);
      if encodedContent == None {
        var encoded, encodedLen := Base64.EncodeBuffer(content.value, contentLength);
        assert content.value[..contentLength] == content.value;
        encodedContent := Some(encoded.value[..encodedLen]);
        encodedLength := encodedLen;
      }
    }

    /** What this attachment contributes to a message, which the cache has no part in. */
    function AsPart(): (p: Part)
      reads this`contentLength, this`content
      ensures p.IsInline() == IsInline()
    {
      Part(contentType, FileName(filePath), contentId,
           if content.Some? && contentLength > 0 then content.value else [])
    }

    lemma NothingToEncode()
      requires content.None? || contentLength == 0
      ensures AsPart().Encoded() == ""
    {
    }
  }

  /** The attachments of one kind, in order. */
  function OfKind(list: seq<Attachment>, inlineParts: bool): (kind: seq<Attachment>)
    ensures forall a :: a in kind ==> a in list && a.IsInline() == inlineParts
    ensures forall a :: a in list && a.IsInline() == inlineParts ==> a in kind
  {
    if list == [] then []
    else if list[0].IsInline() == inlineParts then [list[0]] + OfKind(list[1..], inlineParts)
    else OfKind(list[1..], inlineParts)
  }

  function AsParts(list: seq<Attachment>): (parts: seq<Part>)
    reads (set a | a in list)`contentLength, (set a | a in list)`content
    ensures |parts| == |list| && forall i :: 0 <= i < |list| ==> parts[i] == list[i].AsPart()
  {
    if list == [] then [] else [list[0].AsPart()] + AsParts(list[1..])
  }

  lemma {:induction false} OfKindAppend(list: seq<Attachment>, a: Attachment, inlineParts: bool)
    ensures OfKind(list + [a], inlineParts)
         == OfKind(list, inlineParts) + (if (a.contentId != "") == inlineParts then [a] else [])
  {
    if list == [] {
      assert list + [a] == [a];
    } else {
      assert (list + [a])[0] == list[0] && (list + [a])[1..] == list[1..] + [a];
      OfKindAppend(list[1..], a, inlineParts);
    }
  }

  lemma {:induction false} OfKindBoth(list: seq<Attachment>)
    ensures |OfKind(list, false)| + |OfKind(list, true)| == |list|
  {
    if list == [] {
    } else {
      OfKindBoth(list[1..]);
    }
  }

  /** The files a list of attachments is loaded from. */
  function Paths(list: seq<Attachment>): seq<string> {
    if list == [] then [] else [list[0].filePath] + Paths(list[1..])
  }

  lemma {:induction false} PathsAppend(list: seq<Attachment>, a: Attachment)
    ensures Paths(list + [a]) == Paths(list) + [a.filePath]
  {
    if list == [] {
      assert list + [a] == [a];
    } else {
      assert (list + [a])[0] == list[0] && (list + [a])[1..] == list[1..] + [a];
      PathsAppend(list[1..], a);
    }
  }

  /** Whether two counters tell how many attachments of each kind a list holds. */
  predicate TrueCounts(attachmentsCount: nat, inlinePartsCount: nat, list: seq<Attachment>) {
    attachmentsCount == |OfKind(list, false)| && inlinePartsCount == |OfKind(list, true)|
  }

  /** An attachment of a file, as nothing but that: no type or id of its own, and nothing loaded. */
  predicate Plain(a: Attachment)
    reads a`content, a`contentLength, a`encodedContent
  {
    && a.contentId == "" && a.contentType == ResolveContentType("", a.filePath)
    && a.content == None && a.contentLength == 0 && a.encodedContent == None
  }

  class Details {
    var attachments: seq<Attachment>
    var attachmentsCount: nat
    var inlinePartsCount: nat

    /** The counters tell how many attachments of each kind the list holds. */
    predicate Counted()
      reads this`attachments, this`attachmentsCount, this`inlinePartsCount
    {
      TrueCounts(attachmentsCount, inlinePartsCount, attachments)
    }

    /** Every attachment is in order, whatever the counters say. */
    predicate Sound()
      reads this`attachments
      reads (set a | a in attachments)`content, (set a | a in attachments)`contentLength
      reads (set a | a in attachments)`encodedContent, (set a | a in attachments)`encodedLength
    {
      forall a :: a in attachments ==> a.Valid()
    }

    predicate Valid()
      reads this`attachments, this`attachmentsCount, this`inlinePartsCount
      reads (set a | a in attachments)`content, (set a | a in attachments)`contentLength
      reads (set a | a in attachments)`encodedContent, (set a | a in attachments)`encodedLength
    {
      Counted() && Sound()
    }

    constructor ()
      ensures attachments == [] && Valid()
    {
      attachments, attachmentsCount, inlinePartsCount := [], 0, 0;
    }

    /** `addAttachment`: one more in the list and in the count of its kind. */
    method AddAttachment(attachment: Attachment?) returns (ok: bool)
      modifies this
      ensures ok <==> attachment != null
      ensures attachments == old(attachments) + (if attachment == null then [] else [attachment])
      ensures attachmentsCount == old(attachmentsCount) + (if attachment != null && !attachment.IsInline() then 1 else 0)
      ensures inlinePartsCount == old(inlinePartsCount) + (if attachment != null && attachment.IsInline() then 1 else 0)
      ensures Counted() <==> old(Counted())
    {
      if attachment == null { return false; }
      OfKindAppend(attachments, attachment, true);
      OfKindAppend(attachments, attachment, false);
      if attachment.IsInline() {
        inlinePartsCount := inlinePartsCount + 1;
      } else {
        attachmentsCount := attachmentsCount + 1;
      }
      attachments := attachments + [attachment];
      return true;
    }

    /**
     * `setAttachments`. Without `append` the list is cleared but the counters are not: counters that
     * told the truth before still do afterwards exactly when there was nothing to clear.
     */
    method SetAttachments(filePaths: seq<string>, append: bool)
      modifies this
      ensures var kept := if append then old(attachments) else [];
        |attachments| == |kept| + |filePaths| && attachments[..|kept|] == kept
      ensures Paths(attachments) == Paths(if append then old(attachments) else []) + filePaths
      ensures forall a :: a in attachments[|attachments| - |filePaths|..] ==> Plain(a)
      ensures attachmentsCount == old(attachmentsCount) + |filePaths| && inlinePartsCount == old(inlinePartsCount)
      ensures Counted() <==> TrueCounts(old(attachmentsCount), old(inlinePartsCount), if append then old(attachments) else [])
      ensures old(Counted()) ==> (Counted() <==> append || old(attachments) == [])
    {
      hide OfKind, FileName, ResolveContentType, Paths, Attachment.Valid;
      if !append { attachments := []; }
      ghost var kept := if append then old(attachments) else [];
      OfKindBoth(old(attachments));
      OfKindBoth([]);
      for i := 0 to |filePaths|
        invariant |attachments| == |kept| + i && attachments[..|kept|] == kept
        invariant forall a :: a in attachments[|kept|..] ==> Plain(a)
        invariant Paths(attachments) == Paths(kept) + filePaths[..i]
        invariant attachmentsCount == old(attachmentsCount) + i && inlinePartsCount == old(inlinePartsCount)
        invariant |OfKind(attachments, false)| == |OfKind(kept, false)| + i && |OfKind(attachments, true)| == |OfKind(kept, true)|
      {
        var a := new Attachment(filePaths[i], "", "");
        PathsAppend(attachments, a);
        assert filePaths[..i] + [filePaths[i]] == filePaths[..i + 1];
        Assoc(Paths(kept), filePaths[..i], [filePaths[i]]);
        OfKindAppend(attachments, a, true);
        OfKindAppend(attachments, a, false);
        attachmentsCount := attachmentsCount + 1;
        attachments := attachments + [a];
      }
      assert filePaths[..|filePaths|] == filePaths;
    }

    /**
     * `loadAttachments`, the files being a parameter: content that is not there yet is read from
     * its file, or found missing.
     */
    method LoadAttachments(files: map<string, Bytes>)
      requires Sound() && forall path :: path in files ==> Base64.Slack(|files[path]|) == |files[path]| % 3
      modifies (set a | a in attachments)`content, (set a | a in attachments)`contentLength
      ensures Sound()
      ensures forall a :: a in attachments && a.filePath != "" && old(a.contentLength) == 0 ==>
        if a.filePath in files then a.content == Some(files[a.filePath]) && a.contentLength == |files[a.filePath]|
        else a.content == None && a.contentLength == 0
      ensures forall a :: a in attachments && (a.filePath == "" || old(a.contentLength) != 0) ==>
        a.content == old(a.content) && a.contentLength == old(a.contentLength)
    {
      hide Base64.Encode, Base64.Slack, OfKind;
      for i := 0 to |attachments|
        invariant Sound()
        invariant forall a :: a in attachments[..i] && a.filePath != "" && old(a.contentLength) == 0 ==>
          if a.filePath in files then a.content == Some(files[a.filePath]) && a.contentLength == |files[a.filePath]|
          else a.content == None && a.contentLength == 0
        invariant forall a :: a in attachments && (a !in attachments[..i] || a.filePath == "" || old(a.contentLength) != 0) ==>
          a.content == old(a.content) && a.contentLength == old(a.contentLength)
      {
        var attachment := attachments[i];
        assert attachments[..i + 1] == attachments[..i] + [attachment];
        if attachment.filePath != "" && attachment.contentLength == 0 {
          attachment.LoadRaw(files);
        }
      }
      assert attachments[..|attachments|] == attachments;
    }

    function GetAttachmentCount(inlineParts: bool): nat
      reads this
    {
      if inlineParts then inlinePartsCount else attachmentsCount
    }

    /** Filling one cache leaves all attachments in order. */
    method FillCache(a: Attachment)
      requires Valid() && a in attachments && a.content.Some? && a.contentLength > 0
      modifies a`encodedContent, a`encodedLength
      ensures Valid() && a.encodedContent == Some(a.AsPart().Encoded()) && a.encodedLength == |a.AsPart().Encoded()| > 0
    {
      hide OfKind, Base64.Encode, Base64.Slack, FileName;
      a.FillCache();
    }

    /** The scan that skips the other kind finds the n-th of this kind. */
    method GetAttachment(attachmentNum: nat, inlineParts: bool) returns (a: Attachment?)
      ensures var kind := OfKind(attachments, inlineParts);
              a == if attachmentNum < |kind| then kind[attachmentNum] else null
    {
      ghost var kind := OfKind(attachments, inlineParts);
      var i, pos := 0, 0;
      while i < |attachments|
        invariant i <= |attachments| && pos <= attachmentNum && pos <= |kind|
        invariant kind[pos..] == OfKind(attachments[i..], inlineParts)
      {
        assert attachments[i..][0] == attachments[i] && attachments[i..][1..] == attachments[i + 1..];
        if attachments[i].IsInline() != inlineParts {
          i := i + 1;
          continue;
        }
        assert kind[pos] == kind[pos..][0] && kind[pos..][1..] == kind[pos + 1..];
        if pos == attachmentNum { return attachments[i]; }
        i, pos := i + 1, pos + 1;
      }
      assert attachments[i..] == [];
      return null;
    }
  }
}
