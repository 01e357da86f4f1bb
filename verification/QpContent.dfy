/**
 * `qpEncode`: message content is replaced by its quoted-printable encoding with CRLF line ends, or
 * left as it is when the encoder gives up; and what the lines of the result look like.
 */
module QpContent {
  import opened Text
  import opened QuotedPrintable
  import Size = QuotedPrintableSize

  function NlToCrlf(t: string): string {
    if t == "" then "" else (if t[0] == '\n' then CRLF else [t[0]]) + NlToCrlf(t[1..])
  }

  /** Whether `QuotedPrintable::encode` succeeds on non-empty content. */
  predicate Encodable(content: Bytes) {
    SoftBreaks(content, 0, false) <= Unquoted(content)
  }

  function Encoded(content: Bytes): string {
    if Encodable(content) then NlToCrlf(Encode(content, 0, false)) else content
  }

  predicate Printable(c: char) { c == '\t' || ' ' <= c <= '~' }

  lemma {:induction false} EncodeIsPrintable(s: Bytes, lineLen: nat, ws: bool)
    requires lineLen <= QP_LINE_MAX
    ensures forall c :: c in Encode(s, lineLen, ws) ==> Printable(c) || c == '\n'
  {
    if s == [] {
    } else {
      AtomIsPrintable(s[0]);
      EncodeIsPrintable(s[1..], NextLen(s[0], lineLen, ws), IsWs(s[0]));
    }
  }

  lemma AtomIsPrintable(c: Byte)
    ensures forall x :: x in Atom(c) ==> Printable(x) || x == '\n'
  {
    HexIsAlnum(c as int / 16);
    HexIsAlnum(c as int % 16);
  }

  lemma HexIsAlnum(d: nat)
    requires d < 16
    ensures '0' <= Hex(d) <= '9' || 'A' <= Hex(d) <= 'F'
  {
  }

  lemma {:induction false} NlToCrlfAppend(a: string, b: string)
    ensures NlToCrlf(a + b) == NlToCrlf(a) + NlToCrlf(b)
  {
    if a == "" {
      assert a + b == b;
    } else {
      assert (a + b)[0] == a[0] && (a + b)[1..] == a[1..] + b;
      NlToCrlfAppend(a[1..], b);
    }
  }

  lemma {:induction false} NlToCrlfPlain(a: string)
    requires '\n' !in a
    ensures NlToCrlf(a) == a
  {
    if a == "" {
    } else {
      NlToCrlfPlain(a[1..]);
    }
  }

  /** `strchr` on the C string that starts at `from`: |s| when a NUL or the end comes first. */
  function Strchr(s: string, c: char, from: nat): (i: nat)
    requires from <= |s| && c != NUL
    ensures from <= i <= |s|
    ensures i < |s| ==> s[i] == c
    ensures NUL !in s[from..] ==> c !in s[from..i]
    decreases |s| - from
  {
    if from == |s| || s[from] == NUL then |s|
    else if s[from] == c then from
    else
      var i := Strchr(s, c, from + 1);
      assert s[from..] == [s[from]] + s[from + 1..] && s[from..i] == [s[from]] + s[from + 1..i];
      i
  }

  /** One line of the encoded text is copied, its line end rewritten. */
  lemma CopyLine(enc: string, from: nat, nl: nat)
    requires from <= nl < |enc| && enc[nl] == '\n' && '\n' !in enc[from..nl]
    ensures NlToCrlf(enc[from..]) == enc[from..nl] + CRLF + NlToCrlf(enc[nl + 1..])
  {
    assert enc[from..] == enc[from..nl] + enc[nl..];
    NlToCrlfAppend(enc[from..nl], enc[nl..]);
    NlToCrlfPlain(enc[from..nl]);
    assert enc[nl..][0] == '\n' && enc[nl..][1..] == enc[nl + 1..];
  }

  /** `qpEncode`: the content becomes its `Encoded` form. */
  method QpEncodeContent(content: Bytes) returns (result: string)
    ensures result == Encoded(content)
    ensures result == if |Encode(content, 0, false)| <= 3 * |content| then NlToCrlf(Encode(content, 0, false)) else content
  {
    hide Encode, SoftBreaks, Unquoted, NlToCrlf;
    Size.FitsIffBreaksPaidFor(content);
    if content == [] {
      EncodeNothing();
      return content;
    }
    var encoded, encodedLength := EncodeBuffer(content);
    if encoded.Some? {
      EncodeIsPrintable(content, 0, false);
      result := RewriteLineEnds(encoded.value[..], encodedLength);
    } else {
      result := content;
    }
  }

  lemma EncodeNothing()
    ensures NlToCrlf(Encode([], 0, false)) == "" && Encodable([])
  {
  }

  /** The loop over `strchr` that copies each line and ends it with CRLF. */
  method RewriteLineEnds(buffer: string, encodedLength: nat) returns (content: string)
    requires encodedLength < |buffer| && buffer[encodedLength] == NUL && NUL !in buffer[..encodedLength]
    ensures content == NlToCrlf(buffer[..encodedLength])
  {
    hide Strchr, NlToCrlf;
    content := "";
    ghost var enc := buffer[..encodedLength];
    assert enc + [NUL] <= buffer && enc[0..] == enc;
    var currentPos := 0;
    var nlPos := Strchr(buffer, '\n', currentPos);
    StrchrInText(buffer, enc, 0);
    assert "" + NlToCrlf(enc) == NlToCrlf(enc);
    while nlPos != |buffer|
      invariant currentPos <= |enc|
      invariant NlToCrlf(enc) == content + NlToCrlf(enc[currentPos..])
      invariant NextNl(enc, currentPos, nlPos, |buffer|)
      decreases |enc| - currentPos
    {
      content := content + buffer[currentPos..nlPos] + CRLF;
      CopyLine(enc, currentPos, nlPos);
      assert buffer[currentPos..nlPos] == enc[currentPos..nlPos];
      currentPos := nlPos + 1;
      if currentPos >= encodedLength { break; }
      nlPos := Strchr(buffer, '\n', currentPos);
      StrchrInText(buffer, enc, currentPos);
    }
    if currentPos < encodedLength {
      NlToCrlfPlain(enc[currentPos..]);
      content := content + buffer[currentPos..encodedLength];
      assert buffer[currentPos..encodedLength] == enc[currentPos..];
    } else {
      NlToCrlfPlain("");
      assert enc[currentPos..] == "";
    }
  }

  /** `nl` is where the next newline of `enc` from `from` on is, `none` standing for no newline. */
  ghost predicate NextNl(enc: string, from: nat, nl: nat, none: nat)
    requires from <= |enc| < none
  {
    if nl == none then '\n' !in enc[from..]
    else from <= nl < |enc| && enc[nl] == '\n' && '\n' !in enc[from..nl]
  }

  /** In a NUL-terminated text without other NULs, `strchr` stays inside the text. */
  lemma StrchrInText(buffer: string, enc: string, from: nat)
    requires enc + [NUL] <= buffer && NUL !in enc && from <= |enc|
    ensures NextNl(enc, from, Strchr(buffer, '\n', from), |buffer|)
    decreases |enc| - from
  {
    if from < |enc| {
      assert buffer[from] == enc[from];
      StrchrInText(buffer, enc, from + 1);
      assert enc[from..] == [enc[from]] + enc[from + 1..];
      var nl := Strchr(buffer, '\n', from);
      if from < nl < |enc| { assert enc[from..nl] == [enc[from]] + enc[from + 1..nl]; }
    } else {
      assert buffer[|enc|] == NUL;
    }
  }
}
