# A verified model of Givemail's message, failover and recipient code

Givemail sends campaigns: it builds a MIME message for each recipient, finds a mail server that will
take it, and splits the recipients of a campaign among domains, relays and processes. This project
models the three places where that is subtle, and proves what each is for.

**The message.** The libesmtp back end streams a nested multipart message one chunk per call, from a
switch of 27 stages that falls through and jumps backwards (`LibESMTPMessage`). Every call is proved to
take a non-empty chunk off the front of what a short recursive renderer (`Rendering`) says is left, so
that a complete pull gives the rendering, whatever had been pulled or cached before. A reader that
learns each boundary from the header lines it passes (`MimeHeaders`), splits the rendered text there
(`MimeReading`) and decodes what it finds (`MimeContent`) gets back the texts and the attachments, as one
theorem about the chunks (`MimeMessage`). Below that lie the two codecs, each an in-place loop over a
bounded buffer proved against a function of its input: quoted-printable (`QuotedPrintable`, `QpContent`,
`QpLines`) and Base64 (`Base64`), and the encoded words of header values (`EncodedWord`). Both codecs are
held against the standard as well (`QuotedPrintableStandard`, `Base64Standard`), not only against each
other. `MimeDelivery` goes from the files of a new message to what its reader recovers.

**Failover.** `FailoverEnding` turns the loop of `cycleServers` into steps on the session's three fields
and says exactly when it ends, whatever servers the provider refuses; the class in `SMTPSession` makes
these steps in place. For a provider that takes any server `Failover` gives the whole call as a function,
`FailoverLaws` finds the invariant and proves the search exhaustive, and `FailoverRuns` and
`FailoverPreference` are about whole sequences of calls.

**Recipients.** `RecipientsMaps` and `RecipientsAgreement` deal with the breakdown by domain and what is
fetched for each domain afterwards, `CampaignSQL` with the division of domains among slave processes,
`Csv`, `CSVParsers` and `CsvRoundTrip` with printing and reading CSV rows.

Classes, arrays and loops stand for the code; functions say what it computes; lemmas say what that means.
`dafny verify dfyconfig.toml` checks the whole project.

## Where the code falls short

Each of these is proved. Where the code falls short on some inputs only, the lemma named gives the exact
condition.

- `QuotedPrintable::encode` offers 3n + 1 characters and gives up, silently leaving the content
  unencoded, exactly when soft breaks outnumber unquoted bytes: 26 bytes that all need quoting never fit
  (`QuotedPrintableSize`).
- Encoded lines reach 77 characters, one more than rule 5 of section 6.7 of RFC 2045 allows, exactly when
  some byte finds the output line full (`QpLines.WithinRfcLimitIff`).
- Decoding drops white space at the end of the text (`QuotedPrintableRoundTrip.RoundTripIff`).
- The comment at line 42 of `src/Base64.cc` promises that nothing is stored beyond the buffer's size;
  whole groups of three bytes are stored, so that it holds only if the buffer takes everything or a
  multiple of three bytes (`Base64.StoresWithinSizeIff`). The only callers, lines 275-277, never pass a
  size that is too small, so the comment is wrong and nothing more. Line 137 is unreachable.
- `src/Base64.cc`, line 187, takes the length through `unsigned`, which is right, and keeps the encoder's
  loop inside the data, exactly when 2^32 goes into the length a multiple of three times (`Base64.SlackIff`,
  `Base64.ReadsDataIff`).
- The test at lines 285 and 335 of `src/LibESMTPProvider.cc` for a trailing line end looks at the
  terminator and is always true; the extra line is always sent. HTML that stands next to plain text is
  read back with one line end more, exactly when there are no inline parts
  (`MimeMessage.MessageReadBack`).
- Inline parts without HTML are sent with their delimiters but without the header that announces these
  (lines 308, 349 and 435 of `src/LibESMTPProvider.cc`): then, and only then, a reader misses them, and
  takes them for more of the plain text (`MimeMessage.MessageReadBack`).
- A tab or a line feed in a header value goes into an encoded word as it is, which section 4.2 of RFC
  2047 forbids; nothing else that it forbids does (`EncodedWord.WordCharsIff`).
- File names, types and ids of attachments are put into part headers as they are: a reader gets each
  right exactly when the mark that ends it, a quote, a semicolon or ">", is not in it
  (`MimeFields.PartReadBack`).
- The decoder takes a soft break that ends in CRLF, as they do in what is sent, for an escape, and stores
  a NUL for it (`QuotedPrintableStandard.CrlfSoftBreakIsLost`); nothing calls it on such text.
- Signing succeeds with an empty signature value, and the message then goes out unsigned
  (`LibESMTPMessage.Message.SignAndPull`).
- `getMessageData` loses what follows a NUL in a chunk, so that what is signed is what is sent exactly
  when no field of the message has a NUL (`LibESMTPMessage.Message.SignAndPull`).
- `setAttachments` without appending leaves the counters wrong unless the list was empty
  (`MessageDetails.Details.SetAttachments`).
- The comment in `queueNextPriorityRecords` says that later priorities end the loop, but the test at line
  309 of `src/SMTPSession.cc` never holds: all of them are queued at once. The search stays exhaustive,
  but mail then goes to records in turn, whatever their preference (`FailoverRuns.PreferenceIsLost`).
  Without failovers mail keeps to the most preferred usable records exactly when the first priority has a
  usable one or all usable ones are equally preferred; over any run with failovers, exactly when the
  records still usable after the first priority's addresses are gone are equally preferred
  (`FailoverPreference`).
- The first call of `cycleServers` gives up exactly when no record of the first priority can be used,
  although others may (`FailoverLaws.CycleFinds`, `FailoverRuns.FirstCallGivesUp`); later calls do not.
- For a domain given as an IP address, once that is discarded, as the first connection error does, the
  loop never ends (`FailoverRuns.IPLiteralReached`, `FailoverRuns.IPLiteralNeverEnds`). With a provider
  that refuses servers it ends exactly when some undiscarded address is not refused, or no unexpired
  record of the first priority has an undiscarded address (`FailoverEnding.EndsIff`); otherwise it
  fills its queue for ever.
- The breakdown of a recipients map disagrees with what is fetched afterwards when addresses lack a
  domain, when a relay has no internal domain, or when relay and internal domain are the same and nobody
  is on it (`RecipientsAgreement.AgreesIff`, `RecipientsAgreement.PartitionsIff`).
- The CSV parser takes too short an end of a line for none: it loses all columns after a quoted one when
  two characters or fewer are left, after an unquoted one when one is left or none. These are one empty
  quoted column, or unquoted ones, such as the `ab` of `"x",ab` or both columns after `"x"` in `"x",,`
  (`CsvRoundTrip.AllColumnsIff`, `CsvRoundTrip.LostTailIff`).

## Model

| member | source | states |
|---|---|---|
| `QuotedPrintable.QpEncode` | src/QuotedPrintable.cc:148-222 | all is consumed iff the whole encoding fits; always, what is written plus the encoding of the unconsumed bytes from the current line position is the whole encoding, and nothing past it is touched |
| `QuotedPrintable.EncodeBuffer` | src/QuotedPrintable.cc:232-277 | a terminated encoding inside the buffer iff it has at most 3n characters; None for no data |
| `QuotedPrintable.QpDecode` | src/QuotedPrintable.cc:40-146 | the loop stores and consumes exactly what the recursive decoder says, soft breaks, pending white space, truncated escapes and a full output included |
| `QuotedPrintable.Flush` | src/QuotedPrintable.cc:68-93 | white space held back is stored unless a line end follows, as much of it as fits |
| `QuotedPrintable.DecodeOne` | src/QuotedPrintable.cc:95-141 | one escape, soft break, CRLF or plain character is taken, or an incomplete one left |
| `QuotedPrintableSize.SizeLaw` | src/QuotedPrintable.cc:157-221 | the encoding of n bytes has 3n - 2S + 2B characters, S bytes going unquoted and B soft breaks |
| `QuotedPrintableSize.FitsIffBreaksPaidFor` | src/QuotedPrintable.cc:232-277 | it fits the buffer that `encode` allocates iff B <= S |
| `QuotedPrintableSize.UnquotedTextFits` | src/QuotedPrintable.cc:168-206 | text without quoted bytes always fits |
| `QuotedPrintableSize.ShortInputFits` | src/QuotedPrintable.cc:168-206 | up to 25 bytes always fit |
| `QuotedPrintableSize.QuotedRunFitsUpTo25` | src/QuotedPrintable.cc:168-206 | bytes that are all quoted fit iff there are at most 25 |
| `QuotedPrintableRoundTrip.DecodeEncode` | src/QuotedPrintable.cc:40-222 | from any point of a line, with any white space pending, decoding an encoding gives the input less the white space that is dropped at its end |
| `QuotedPrintableRoundTrip.LostIffTrailingWs` | src/QuotedPrintable.cc:52-93 | something is dropped iff the input ends in a space or a tab |
| `QuotedPrintableRoundTrip.RoundTripIff` | src/QuotedPrintable.cc:40-222 | for every byte string decoding inverts encoding iff it does not end in white space |
| `QuotedPrintableRoundTrip.DecodeEncodeLine` | src/QuotedPrintable.cc:40-222 | decoding an encoding that a line end and anything else follows gives the input less its trailing white space, the line end, and what the rest decodes to |
| `QuotedPrintableResume.Resume` | src/QuotedPrintable.cc:40-146 | whatever the text and the room, decoding again from where the count says gives the rest: two runs store what one run with the room of both does |
| `QuotedPrintableStandard.EncodeIsStandard` | src/QuotedPrintable.cc:157-221 | apart from soft breaks, every encoding is that of section 6.7 of RFC 2045, byte by byte, upper-case digits included |
| `QuotedPrintableStandard.EscapeIsStandard` | src/QuotedPrintable.cc:95-121 | the decoder takes two hexadecimal digits of either case for the byte that they are |
| `QuotedPrintableStandard.CrlfIsLineEnd` | src/QuotedPrintable.cc:122-135 | and CRLF for a line end, dropping the white space in front |
| `QuotedPrintableStandard.CrlfSoftBreakIsLost` | src/QuotedPrintable.cc:105-118 | a soft break that ends in CRLF decodes to a NUL |
| `QpContent.QpEncodeContent` | src/LibESMTPProvider.cc:608-649 | content becomes its encoding with CRLF line ends, or stays as it is when the encoder gives up |
| `QpContent.RewriteLineEnds` | src/LibESMTPProvider.cc:623-642 | the loop over `strchr` rewrites each LF to CRLF and nothing else |
| `QpContent.EncodeIsPrintable` | src/QuotedPrintable.cc:162-220 | an encoding holds printable ASCII, tabs and LFs only |
| `QpLines.EncodedContentLines` | src/LibESMTPProvider.cc:608-649 | encoded content: no CR or LF but in CRLFs, no white space in front of one, at most 76 characters before the "=" of a soft break, no "=_" |
| `QpLines.WithinRfcLimitIff` | src/QuotedPrintable.cc:168-191 | every line keeps to 76 characters iff no byte finds a line of 76 |
| `QpLines.SeventySevenLettersBreakTheLimit` | src/QuotedPrintable.cc:168-191 | 77 letters give a line of 77 characters |
| `Base64.StoreQuad` | src/Base64.cc:196-212 | a full group put into a buffer with or without room for it: all of it, or what fits and the closing NUL |
| `Base64.StoreSlack` | src/Base64.cc:216-232 | the same for the last group, with "=" for what is missing |
| `Base64.Base64E` | src/Base64.cc:181-240 | for every length, how far the encoder reads, and that it returns the length of the encoding of just that; a buffer ends up with its longest prefix that leaves room for a NUL, the NUL, and its old contents behind |
| `Base64.EncodeBuffer` | src/Base64.cc:250-265 | the standard's encoding of what is read, terminated, which is the data iff the remainder is right, and its length; None iff there is no data |
| `Base64.EncodeIsStandard` | src/Base64.cc:28-240 | every encoding is that of section 6.8 of RFC 2045, from the bits of its bytes and the alphabet as the standard lists it |
| `Base64.SextetsAreValues` | src/Base64.cc:79-117 | the decoder gives each character its place in that alphabet, stops at "=" and NUL, and skips others |
| `Base64.EncodedLength` | src/Base64.cc:181-240 | that length is 4 ceil(n / 3) |
| `Base64.SlackIff` | src/Base64.cc:187 | the remainder taken through `unsigned` is right iff 2^32 goes into the length a multiple of three times |
| `Base64.ReadsDataIff` | src/Base64.cc:187-234 | what `Base64E` reads ends with the data iff that remainder is right |
| `Base64.PrepareTable` | src/Base64.cc:79-89 | the table maps each symbol to its value, "=" and NUL to the end mark, anything else to the skip mark |
| `Base64.CountSextets` | src/Base64.cc:91-95 | the number of significant characters in front of the first "=" or NUL |
| `Base64.Next` | src/Base64.cc:107-108 | the next significant character is found before the terminator, or the end |
| `Base64.ReadGroup` | src/Base64.cc:107-117 | with two symbols to come, no value left from the turn before is taken for a fresh one |
| `Base64.StoreGroup` | src/Base64.cc:119-141 | three bytes for a full group, one or two for the last |
| `Base64.Base64D` | src/Base64.cc:68-152 | for every C string returns the decoded length and stores the decoded bytes up to the end of the group that reaches the size; reads nothing after the terminator |
| `Base64.DecodeGroups` | src/Base64.cc:105-142 | the loop stores the decoded bytes up to the end of the group that reaches the size, and nothing behind |
| `Base64.StoresWithinSizeIff` | src/Base64.cc:40-43 | nothing is stored beyond the given size iff it takes everything or is a multiple of three |
| `Base64.DecodeBuffer` | src/Base64.cc:267-282 | the bytes of the values that the standard gives the text, terminated, in a buffer of just that size |
| `Base64RoundTrip.RoundTrip` | src/Base64.cc:68-240 | any text whose significant characters are those of the encoding decodes to the data |
| `Base64RoundTrip.StandardReadBack` | src/Base64.cc:68-152 | what the standard makes of any data decodes to it |
| `Base64RoundTrip.FirstLetter` | src/Base64.cc:28-29 | a byte of 4n starts its encoding with letter n of the alphabet, written out |
| `Base64RoundTrip.AlphabetValues` | src/Base64.cc:79-89 | that alphabet decodes to 0 to 63 in order |
| `Base64RoundTrip.InsertNoise` | src/Base64.cc:92-117 | a character outside the alphabet, anywhere, changes nothing |
| `Base64RoundTrip.EncodeAlphabet` | src/Base64.cc:181-240 | an encoding holds only alphabet characters and "=" |
| `EncodedWord.ReplaceSpecials` | src/LibETPANProvider.cc:167-195 | the in-place loop replaces every "?", "_" and space, and nothing else |
| `EncodedWord.EraseSoftBreaks` | src/LibETPANProvider.cc:196-204 | the erasing loop takes out every soft break |
| `EncodedWord.MakeAsciiOnly` | src/LibETPANProvider.cc:133-215 | the value itself, or an encoded word made of its bytes one by one |
| `EncodedWord.RewriteEncoding` | src/LibETPANProvider.cc:163-204 | after both loops nothing of the line structure is left, whatever it was |
| `EncodedWord.WordTextDecodes` | src/LibETPANProvider.cc:163-210 | the text of a word has no space or "?" and decodes to the value |
| `EncodedWord.WordCharsIff` | src/LibETPANProvider.cc:163-210 | it is printable ASCII, as a word must be, iff the value has no tab and no line feed |
| `EncodedWord.EncodedWordRoundTrip` | src/LibETPANProvider.cc:133-215 | a NUL-free value comes back as it is, or as a UTF-8 "Q" word that decodes to exactly it; which of the two, and when the result is ASCII, exactly |
| `MessageDetails.Details.AddAttachment` | src/MessageDetails.cc:381-401 | appends and counts one more of its kind; the counters are right afterwards iff they were before |
| `MessageDetails.Details.LoadAttachments` | src/MessageDetails.cc:421-443 | an attachment with a path and no length gets the bytes and length of its file, or none if it cannot be read; any other is left as it is |
| `MessageDetails.Details.SetAttachments` | src/MessageDetails.cc:403-419 | the new list, its new members plain attachments of the given paths in order, and the counters; right counters stay right iff appending or nothing was cleared |
| `MessageDetails.Details.GetAttachment` | src/MessageDetails.cc:455-485 | the n-th attachment of a kind, or null past the last |
| `MessageDetails.Attachment.constructor` | src/MessageDetails.cc:63-159 | a new attachment has no content yet, and its type is the one given or that of its extension |
| `MessageDetails.Attachment.FillCache` | src/LibESMTPProvider.cc:850-866 | the cache holds the encoding of the content, filled now or before |
| `MessageDetails.OfKindAppend` | src/MessageDetails.cc:381-401 | an attachment joins the end of its own kind and leaves the other alone |
| `MessageDetails.FileNameIs` | src/MessageDetails.cc:161-185 | a file is named by what follows the last slash of its path |
| `MessageDetails.TypeIs` | src/MessageDetails.cc:77-150 | the type of each extension, and of any other |
| `LibESMTPMessage.Message.constructor` | src/LibESMTPProvider.cc:651-675 | a new message holds both texts encoded and its attachments loaded, and stands at its beginning |
| `LibESMTPMessage.Message.AddHeader` | src/LibESMTPProvider.cc:707-745 | a header line with its value, its path or both joins the headers, or is refused |
| `LibESMTPMessage.Message.Rewind` | src/LibESMTPProvider.cc:207-218 | from any stage the whole rendering is left again |
| `LibESMTPMessage.Message.GetAttachmentHeaders` | src/LibESMTPProvider.cc:809-835 | the headers of the current attachment |
| `LibESMTPMessage.Message.GetAttachmentLine` | src/LibESMTPProvider.cc:837-893 | the next 76 characters of the encoding, or the rest, and whether more follow; the same whether or not it was cached |
| `LibESMTPMessage.Message.HeaderStages` | src/LibESMTPProvider.cc:234-265 | what the first three stages send, and where they leave off |
| `LibESMTPMessage.Message.PlainStages` | src/LibESMTPProvider.cc:266-306 | the same for the plain text and the transition |
| `LibESMTPMessage.Message.HtmlStages` | src/LibESMTPProvider.cc:307-347 | the same for the related opening and the HTML |
| `LibESMTPMessage.Message.PartStart` | src/LibESMTPProvider.cc:348-392 | delimiter, headers and next line of a part |
| `LibESMTPMessage.Message.PartFinish` | src/LibESMTPProvider.cc:393-433 | line end, end of part and step to the next, with their jumps |
| `LibESMTPMessage.Message.PartStages` | src/LibESMTPProvider.cc:348-433 | each of the six stages that stream parts takes its chunk off what is left of them, backward jumps included; the attachment stages at 452-538 are the same |
| `LibESMTPMessage.Message.EndOfContent` | src/LibESMTPProvider.cc:434-451 | the closing delimiters, innermost first, and the reset of the attachment counter |
| `LibESMTPMessage.Message.EndOfMessage` | src/LibESMTPProvider.cc:539-560 | the last delimiter; after the end nothing is sent any more |
| `LibESMTPMessage.Message.NextChunk` | src/LibESMTPProvider.cc:197-560 | every call takes a non-empty chunk off the front of what is left; none exactly when nothing is left, then and ever after |
| `LibESMTPMessage.Message.Pull` | src/LibESMTPProvider.cc:197-560 | pulling ends, and the chunks are the rendering, whatever stage the machine was in and whatever was cached |
| `LibESMTPMessage.Message.GetMessageData` | src/LibESMTPProvider.cc:906-951 | ends, and returns the rendering iff no field of the message has a NUL |
| `MessageNuls.RenderNulIff` | src/LibESMTPProvider.cc:935-945 | the rendering has a NUL iff headers, a text, or the type, name or id of a part has one |
| `LibESMTPMessage.Message.SetSignatureHeader` | src/LibESMTPProvider.cc:758-770 | prepends to the rendering the signature header and nothing else, or is refused |
| `LibESMTPMessage.Message.SignAndPull` | src/SMTPSession.cc:769-800 | without a key the message goes out as it is; with one, behind its signature, or not at all when signing or verifying fails; the text signed is the message iff no field has a NUL |
| `LibESMTPMessage.RenderSigned` | src/SMTPMessage.cc:296-310 | a header in front of the headers is in front of the message, its body unchanged |
| `Rendering.RemainingAtStart` | src/LibESMTPProvider.cc:207-218 | what the stages have to send one after the other, from the first, is the recursive rendering |
| `Rendering.SendLine` | src/LibESMTPProvider.cc:371-392 | a line stage sends up to 76 characters and moves to the line end |
| `Rendering.SendLineEnd` | src/LibESMTPProvider.cc:393-408 | the line end goes back to the line stage iff more is left of the part |
| `Rendering.SendEnd` | src/LibESMTPProvider.cc:409-423 | the end of a part goes on to the next part, or past the list |
| `MimeLines.ReadWhole` | src/LibESMTPProvider.cc:182-195 | splitting delimited parts that have no delimiter lines of their own gives back the parts, the preamble and the epilogue |
| `MimeLines.LinedLines` | src/LibESMTPProvider.cc:182-195 | a text is made of its lines |
| `MimeStructure.BodyIsLined` | src/LibESMTPProvider.cc:234-546 | a rendered multipart body consists of the listed lines, delimiters nested last in, first out |
| `MimeReading.EncodedLinesSafe` | src/LibESMTPProvider.cc:182-195 | no line of encoded content can be taken for a delimiter |
| `MimeReading.PartLinesSafe` | src/LibESMTPProvider.cc:809-888 | nor can any line of an attachment or inline part whose header fields hold no line break |
| `MimeReading.LinesOfBody` | src/LibESMTPProvider.cc:197-560 | breaking the rendered body at its CRLFs gives exactly the lines that went in |
| `MimeReading.LinesOfSingle` | src/LibESMTPProvider.cc:266-347 | and so it does for a message of one text |
| `MimeReading.ReadMixed` | src/LibESMTPProvider.cc:234-546 | split at the mixed delimiter: the text content, then each attachment once and in order |
| `MimeReading.ReadAlternative` | src/LibESMTPProvider.cc:250-451 | split at the alternative delimiter: the plain text, then the HTML side |
| `MimeReading.ReadRelated` | src/LibESMTPProvider.cc:307-443 | split at the related delimiter: the HTML, then each inline part once and in order |
| `MimeContent.AttachmentsReadBack` | src/LibESMTPProvider.cc:197-560 | a reader of the message recovers the bytes of every attachment |
| `MimeContent.RelatedReadBack` | src/LibESMTPProvider.cc:307-443 | and those of every inline part, and the HTML unless it ends in white space |
| `MimeContent.AlternativeReadBack` | src/LibESMTPProvider.cc:250-451 | and the plain text unless it ends in white space |
| `MimeContent.SingleReadBack` | src/LibESMTPProvider.cc:266-347 | from the rendered body a reader recovers a text that is the only one, with attachments or without, unless it ends in white space |
| `MimeContent.TextAndLineReadBack` | src/LibESMTPProvider.cc:333-347 | encoded content with the extra line reads as its text with one line end more, under the same condition |
| `MimeContent.TextAndMoreLost` | src/LibESMTPProvider.cc:348-433 | with any other lines behind it, a text is never read as itself |
| `MimeHeaders.PreambleAnnounces` | src/LibESMTPProvider.cc:182-195 | behind any header lines, the opening of multipart content gives a reader a boundary for that kind of content only, and the delimiter lines are that boundary behind "--" |
| `MimeHeaders.AnnouncedTexts` | src/LibESMTPProvider.cc:250-332 | what the header in front of the texts announces: alternative content iff there are both, related content iff there are HTML and inline parts, else nothing |
| `MimeFields.PartReadBack` | src/LibESMTPProvider.cc:809-888 | a reader that goes by the fields of a part's header gets its bytes and whether it is inline; and its type, name and id, each iff the mark that ends it is not in it |
| `MimeFields.TextFields` | src/LibESMTPProvider.cc:182-195 | and of a text its type, charset and encoding, whatever headers come in front |
| `MimeMessage.MessageReadBack` | src/LibESMTPProvider.cc:197-560 | from the chunks of a message whose texts were encoded, a reader that goes by the announced boundaries and fields recovers all attachments, in order and nothing else; the inline parts iff there are none or HTML goes with them; each text, labelled as plain or HTML, iff it does not end in white space, the plain one iff moreover no stray inline parts follow it |
| `MimeDelivery.MakeAndPull` | src/LibESMTPProvider.cc:197-745 | a new message with any headers of usual names, pulled: a reader of the chunks finds the header lines in front, both texts, and the contents of the files of all attachments and inline parts, in order |
| `MimeMessage.HeaderSectionGrows` | src/LibESMTPProvider.cc:707-745 | header lines added one by one are such headers |
| `MimeContent.TextReadBack` | src/LibESMTPProvider.cc:608-649 | encoded content, read line by line, decodes to itself iff it does not end in white space |
| `MimeContent.DataReadBack` | src/LibESMTPProvider.cc:837-888 | an encoded part, read with its line ends, decodes to its bytes |
| `MimeContent.ChunkLengths` | src/LibESMTPProvider.cc:868-883 | every line of a part but its last has exactly 76 characters |
| `ResourceRecords.LessIsStrictOrder` | src/Resolver.cc:201-243 | the order of records is a strict total one whose ties are the records that compare equal |
| `ResourceRecords.InsertKeepsOrder` | src/Resolver.cc:214-243 | a set stays in order and takes a record iff none compares equal |
| `ResourceRecords.ReversedByPriority` | src/SMTPSession.cc:250-253 | iterated backwards, the records of one domain come by increasing priority |
| `Failover.InitTopServes` | src/SMTPSession.cc:228-284 | a record that `initializeTopQueue` queues serves at once |
| `Failover.PickFirst` | src/SMTPSession.cc:352-398 | of the addresses to try, the first one that is undiscarded, unexpired and not refused goes to the back, those in front of it are dropped, and the others keep their order |
| `Failover.KeptInOrder` | src/SMTPSession.cc:213-225 | the undiscarded addresses of an answer keep their order |
| `Failover.NextIsAbove` | src/SMTPSession.cc:294-321 | the new top priority is the least above the old one, or the sentinel |
| `Failover.RefillAdvances` | src/SMTPSession.cc:817-825 | refilling moves up in priority or finds a server: why the loop ends |
| `FailoverLaws.ServesIffUsable` | src/SMTPSession.cc:329-404 | under the invariant a queued record serves iff it is unexpired and has an undiscarded address |
| `FailoverLaws.TryFrontSettled` | src/SMTPSession.cc:831-850 | one attempt, successful or not, keeps the invariant |
| `FailoverLaws.QueueNextSettled` | src/SMTPSession.cc:286-327 | so does moving on, which changes nothing about which record is due |
| `FailoverLaws.InitTopFindsNothing` | src/SMTPSession.cc:228-284 | once the invariant holds, starting over never finds a record |
| `FailoverLaws.FirstRefillSettles` | src/SMTPSession.cc:228-284 | the first queueing establishes the invariant |
| `FailoverLaws.LoopFinds` | src/SMTPSession.cc:830-866 | the loop makes the first usable record of the queue current, or else the one of lowest preference; it fails iff there is none |
| `FailoverLaws.CycleFinds` | src/SMTPSession.cc:812-867 | the same for any call of `cycleServers`, a first call looking at the first priority only; the invariant holds afterwards |
| `FailoverLaws.CycleSafe` | src/SMTPSession.cc:349-401 | the server found is live, undiscarded, an address of a usable record, and the back of the back |
| `FailoverLaws.CyclePrefersIff` | src/SMTPSession.cc:812-867 | the server found is of the lowest preference value among usable records iff the first usable record in the queue is, if any; so with an empty queue and at the first priority |
| `FailoverLaws.Exhaustive` | src/SMTPSession.cc:812-867 | after the first call, failure iff every address of every unexpired record is discarded |
| `FailoverRuns.DiscardCurrent` | src/SMTPSession.cc:406-424 | exactly the server in use is discarded, and was not before |
| `FailoverRuns.DiscardsNeverRepeat` | src/SMTPSession.cc:706-727 | over any sequence of cycles and failovers: discards are distinct addresses of the domain, are all the discard set grows by, and number at most its undiscarded addresses |
| `FailoverRuns.RoundRobin` | src/SMTPSession.cc:831-845 | while all queued records serve, n calls use the first n in turn |
| `FailoverRuns.AddressesTakeTurns` | src/SMTPSession.cc:352-398 | while one record serves and all its addresses are fit, n calls use the first n of them in turn |
| `FailoverRuns.AnswersTakeTurns` | src/SMTPSession.cc:812-867 | from the first call on, a domain with one record is served by its host's addresses in the order of the answer |
| `FailoverRuns.FirstCallGivesUp` | src/SMTPSession.cc:812-828 | a network whose second record is usable and whose first call fails |
| `FailoverRuns.PreferenceIsLost` | src/SMTPSession.cc:294-320 | a network where the third call prefers preference 30 to a usable 20 |
| `FailoverPreference.LoopTakes` | src/SMTPSession.cc:830-850 | the loop uses the first usable record of the queue and leaves those behind it in front |
| `FailoverPreference.ReachQueued` | src/SMTPSession.cc:812-867 | a queued usable record becomes current after at most as many calls as there are records up to it |
| `FailoverPreference.PreferredCallsIff` | src/SMTPSession.cc:286-327 | over all calls mail goes to the lowest preference value among usable records iff the first priority has a usable record or all usable ones share a value |
| `FailoverPreference.UseUpFirst` | src/SMTPSession.cc:706-727 | some sequence of failovers discards exactly the addresses of the first priority |
| `FailoverPreference.PreferredRunsIff` | src/SMTPSession.cc:706-727 | over all runs of calls and failovers the same holds iff the records usable without the first priority's addresses share a preference value |
| `FailoverRuns.IPLiteralServes` | src/SMTPSession.cc:235-246 | a domain given as an address is its own first server |
| `FailoverRuns.IPLiteralReached` | src/SMTPSession.cc:406-424 | a connection error after its first call brings a session to the state below |
| `FailoverRuns.IPLiteralNeverEnds` | src/SMTPSession.cc:235-246 | once it is discarded, or empty, the loop returns to the state it was in |
| `FailoverEnding.EndsIff` | src/SMTPSession.cc:812-867 | for every network, refusals included, the loop ends iff some undiscarded address of an unexpired record is not refused, or no record of the first priority is usable; for a domain given as an address, iff it is not empty, discarded or refused |
| `FailoverEnding.FirstCallEnds` | src/SMTPSession.cc:812-867 | a first call gives up iff no record of the first priority is usable, and finds a server iff one is and some address is not refused; in the one case left it goes on for ever |
| `FailoverEnding.FoundReachable` | src/SMTPSession.cc:349-401 | whatever is refused, the server found is an undiscarded, unrefused address of an unexpired record |
| `FailoverEnding.TurnCopies` | src/SMTPSession.cc:830-866 | every turn of the loop leaves copies of records in the queue, with addresses of theirs |
| `FailoverEnding.ComesAround` | src/SMTPSession.cc:817-825 | from any top priority the loop comes to where all records are queued again |
| `FailoverEnding.RefusedNeverEnds` | src/SMTPSession.cc:387-393 | with a usable record of the first priority and every undiscarded address refused, the loop never ends |
| `FailoverEnding.CycleEndsIn` | src/SMTPSession.cc:812-867 | with a provider that takes any server the turns end in the result of the function the laws are about |
| `SMTPSession.IsIPAddress` | src/SMTPSession.cc:42-56 | digits and dots only, the empty name included |
| `SMTPSession.Session.InitializeAddresses` | src/SMTPSession.cc:190-226 | the undiscarded addresses of a record, in order; false iff there are none |
| `SMTPSession.AddressesAre` | src/SMTPSession.cc:190-226 | a host given as an address has just that one, for ten hours; any other has the undiscarded ones of the answer for it |
| `SMTPSession.Session.InitializeTopQueue` | src/SMTPSession.cc:228-284 | the new queue and top priority, both branches |
| `SMTPSession.Session.QueueTopRecords` | src/SMTPSession.cc:248-283 | the loop queues exactly the ready records of the top priority or below, after setting that if it was the sentinel |
| `SMTPSession.Session.QueueNextPriorityRecords` | src/SMTPSession.cc:286-327 | the new queue and top priority; the `break` at line 312 is unreachable |
| `SMTPSession.Session.SetServer` | src/SMTPSession.cc:329-404 | true iff an address to try is fit; the first such goes to the provider with its port (the relay's own, 587 or 25) and to the back of the queue |
| `SMTPSession.Session.DiscardCurrentServer` | src/SMTPSession.cc:406-424 | the discard set gains the server in use, which is the host that the provider was given |
| `SMTPSession.Session.CycleServers` | src/SMTPSession.cc:812-867 | ends whenever the turns do, in the state and with the answer that they end in, which is the function the laws are about where the provider takes any server; on success the provider has the server at the back of the back |
| `SMTPSession.Session.FailOver` | src/SMTPSession.cc:706-727 | discards the server in use, then cycles, whenever that ends |
| `SMTPSession.FromRecordSet` | src/Resolver.cc:214-243 | a record set of one domain, iterated backwards, is what the scheduler assumes |
| `Breakdowns.InsertAllAdds` | src/CampaignSQL.cc:743-756 | inserting into a multimap adds exactly the entries and their counts, and keeps it in order |
| `Breakdowns.InsertIsLast` | src/CampaignSQL.cc:743-756 | a new entry comes after all that have its count, the others staying as they are |
| `CampaignSQL.ListDomains` | src/CampaignSQL.cc:695-774 | the loop inserts a slave's share of the rows, and the relay's entry last |
| `CampaignSQL.TakenByOne` | src/CampaignSQL.cc:724-737 | a row with a domain name is taken by exactly one of the slaves 0 to count - 1 |
| `CampaignSQL.SlavesShareAll` | src/CampaignSQL.cc:714-774 | over the same rows the slaves' shares hold every row once, entry by entry without a relay, and all recipients in sum with or without one |
| `CampaignSQL.SharesByName` | src/CampaignSQL.cc:740-770 | with a relay the slaves together list the internal domain's recipients under its name, unless it is the relay, all others under the relay's, and nobody under another name |
| `CampaignSQL.AloneListsAll` | src/CampaignSQL.cc:724-747 | without slaves or a relay, every row with a domain name is listed |
| `RecipientsMaps.RecipientsMap.CountDomains` | src/csv2givemail.cc:85-109 | each domain with its number of recipients |
| `RecipientsMaps.DomainIsWritten` | src/csv2givemail.cc:92-98 | the domain of an address is what is written behind its first "@", or none if nothing is |
| `RecipientsMaps.RecipientsMap.ListDomains` | src/csv2givemail.cc:83-146 | the breakdown gains exactly the entries of the listing, as addresses are written, in order of count; the value returned |
| `RecipientsMaps.RecipientsMap.ListRelay` | src/csv2givemail.cc:111-138 | with a relay, the internal domain if anyone is on it, and the relay unless they are the same |
| `RecipientsMaps.RecipientsMap.ListAll` | src/csv2givemail.cc:140-145 | without one, every domain once |
| `RecipientsMaps.RecipientsMap.GiveOne` | src/csv2givemail.cc:162-195 | one recipient joins the result iff it is given for the domain |
| `RecipientsMaps.RecipientsMap.GetRecipients` | src/csv2givemail.cc:150-198 | the map gains copies, with campaign and attachment in their two fields, of exactly the recipients given for a domain, as their addresses are written; true iff there are any |
| `RecipientsAgreement.GivenSize` | src/csv2givemail.cc:176-186 | how many recipients a domain is given, relay or not |
| `RecipientsAgreement.AgreesIff` | src/csv2givemail.cc:83-198 | every count listed is the number fetched iff a condition on addresses and options holds |
| `RecipientsAgreement.PartitionsIff` | src/csv2givemail.cc:83-198 | every recipient is fetched for exactly one listed domain iff another does |
| `RecipientsAgreement.IndexAgreement` | src/csv2givemail.cc:83-198 | both, for complete addresses and a relay with an internal domain, with their one exception |
| `RecipientsAgreement.NobodyListed` | src/csv2givemail.cc:119-137 | the exception: relay and internal domain the same, nobody on it, nothing listed |
| `Csv.QuoteColumn` | src/WebAPI.cc:131-159 | the in-place loop doubles quotes and turns line ends into spaces, between quotes |
| `Csv.UnescapeColumn` | src/CSVParser.cc:38-62 | the erasing loop makes one quote of each pair, left to right |
| `Csv.UnescapeEscape` | src/WebAPI.cc:131-159 | printing then unescaping a text gives it back with line ends as spaces |
| `Csv.QuotedText` | src/WebAPI.cc:131-159 | a printed text stands between quotes, each quote in it twice and each line end a space |
| `CSVParsers.CSVParser.NextColumn` | src/CSVParser.cc:84-132 | the first column of what is left and what is then left, by quotes or commas |
| `CSVParsers.CSVParser.ReadColumns` | src/WebAPI.cc:1456-1461 | the column loop ends for every line |
| `CsvRoundTrip.RowReadBack` | src/CSVParser.cc:84-132 | a row of quoted and plain columns comes back up to the first after which too little text is left |
| `CsvRoundTrip.QuotedRowReadBack` | src/WebAPI.cc:131-159 | a row of quoted texts comes back whole iff it is not one of several columns whose last is empty and ends the line; then that one is missing |
| `CsvRoundTrip.ReadUpTo` | src/CSVParser.cc:84-132 | the columns read are those up to the first after which too little text is left |
| `CsvRoundTrip.AllColumnsIff` | src/CSVParser.cc:125-129 | all columns of a row come back iff enough text follows each but the last |
| `CsvRoundTrip.LostTailIff` | src/CSVParser.cc:125-129 | which tails are too short: one empty quoted column, or plain ones of so few characters in all |
| `CsvRoundTrip.ShortTailsLost` | src/CSVParser.cc:125-129 | lines that lose a column of two characters, two columns at once, and one of one character |

## Left out

- SMTPSession.Session.CycleServers: the clock stands still and name servers always give the same answers during a session, so nothing expires between calls. It is for calls that end, by `FailoverEnding.EndsIff`; the calls that do not have no result to state. The laws about whole sequences of calls are for a provider that takes every server, as the libetpan one does (src/LibETPANProvider.cc:1327-1334); the libesmtp one refuses without a session, for an empty host name or when its library does (src/LibESMTPProvider.cc:1030-1047), which `SetServer` models.
- SMTPSession.Session.FailOver: the same; the connection-error test and the restart of the session around it are not modelled.
- SMTPSession.Session.SetServer: hosts that a provider refuses, it always refuses, on any port.
- Base64.Base64E: what it reads behind the data for the lengths of `SlackIff` must be there to be read. The same goes for Base64.EncodeBuffer; the attachments of a message are of other lengths.
- MessageDetails.Details.LoadAttachments: files of these lengths are left out too.
- Base64.Base64D: the length is computed without wrap-around, and the decode table is built at each call instead of once.
- QuotedPrintable.QpEncode: sizes are unbounded integers, so that 3n + 1 does not wrap around.
- LibESMTPMessage.Message.NextChunk: chunks are values, so the lifetime of the buffers behind them is not modelled; stages are unbounded numbers, so that calls after the end can go on for ever; lengths are not narrowed to `int`.
- LibESMTPMessage.Message.PartStages: the six stages that the source writes out twice, for inline parts and for attachments, are one method with the kind as a parameter.
- LibESMTPMessage.Message.SignAndPull: the signer's answers are parameters; counting the bytes sent is not modelled.
- MimeDelivery.MakeAndPull: its files can be read and its texts encoded, and no header has a name that starts with a dash, a tab or "Content-"; building the list of headers is left to its caller.
- MimeMessage.MessageReadBack: a text for which the encoder gives up, exactly as `QuotedPrintableSize.FitsIffBreaksPaidFor` says, is sent as it is under a header that calls it quoted-printable; what a reader makes of such a text is not stated. Header fields of parts hold no CR.
- LibESMTPMessage.Message.constructor: the substitution of fields comes before the model, files are a parameter, and which headers are then added, among them the date, is left to the caller of `AddHeader`.
- RecipientsMaps.RecipientsMap.ListDomains: domains and recipients are visited in an unspecified order, so the order of entries with equal counts is not modelled.
- CampaignSQL.ListDomains: the rows of the query are a parameter, and the same for all slaves; the SQL text and the failure of the query are not modelled.
- CSVParsers.CSVParser.ReadColumns: collects the columns; what importing does with each is not modelled, nor is reading lines from a stream.
- Addresses whose domain part is written in different cases are different domains, as in the source.
- Sockets, DNS queries, libesmtp, libetpan, OpenDKIM, SASL, TLS, MySQL, libxml2 and ctemplate are foreign code and appear only as the answers they give.
- The libetpan message builder, apart from encoded words, relies on that library for its MIME structure.
- `queueMessage` and `generateMessages`: whether all messages are delivered depends on when the provider is made to send.
- `DomainsMap`, the daemon with its signal handlers, campaigns in XML, time conversion, command lines, FastCGI, authentication and logging would add only plumbing.
