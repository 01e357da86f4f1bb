/** How long the quoted-printable encoding is, and when the caller's buffer of 3n + 1 characters is enough. */
module QuotedPrintableSize {
  import opened Text
  import opened QuotedPrintable

  /** Every byte costs three characters, an unquoted one gives two back, a soft break costs two. */
  lemma {:induction false} SizeLaw(s: Bytes, lineLen: nat, ws: bool)
    requires lineLen <= QP_LINE_MAX
    ensures |Encode(s, lineLen, ws)| == 3 * |s| - 2 * Unquoted(s) + 2 * SoftBreaks(s, lineLen, ws)
  {
    if s == [] {
    } else {
      SizeLaw(s[1..], NextLen(s[0], lineLen, ws), IsWs(s[0]));
    }
  }

  /**
   * `QuotedPrintable::encode` meant to leave room for every input. It does so exactly when soft
   * breaks do not outnumber unquoted bytes.
   */
  lemma FitsIffBreaksPaidFor(s: Bytes)
    ensures |Encode(s, 0, false)| <= 3 * |s| <==> SoftBreaks(s, 0, false) <= Unquoted(s)
  {
    SizeLaw(s, 0, false);
  }

  /** Text without a quoted byte always fits: each soft break is followed by an unquoted byte. */
  lemma {:induction false} UnquotedTextFits(s: Bytes, lineLen: nat, ws: bool)
    requires lineLen <= QP_LINE_MAX && Unquoted(s) == |s|
    ensures SoftBreaks(s, lineLen, ws) <= Unquoted(s)
  {
    if s == [] {
    } else {
      UnquotedAtMost(s[1..]);
      UnquotedTextFits(s[1..], NextLen(s[0], lineLen, ws), IsWs(s[0]));
    }
  }

  lemma UnquotedAtMost(s: Bytes)
    ensures Unquoted(s) <= |s|
  {
  }

  /** Up to 25 bytes fit whatever they are: the line cannot fill up before the 26th. */
  lemma {:induction false} ShortInputFits(s: Bytes, lineLen: nat, ws: bool)
    requires lineLen + 3 * |s| <= QP_LINE_MAX - 1
    ensures SoftBreaks(s, lineLen, ws) <= Unquoted(s) + (if ws then 1 else 0)
  {
    if s == [] {
    } else {
      ShortInputFits(s[1..], NextLen(s[0], lineLen, ws), IsWs(s[0]));
    }
  }

  /** All-quoted input: a soft break after every 25 bytes, and nothing to pay for the first one. */
  lemma QuotedRunFitsUpTo25(s: Bytes)
    requires forall i :: 0 <= i < |s| ==> !Simple(s[i])
    ensures |Encode(s, 0, false)| <= 3 * |s| <==> |s| <= 25
  {
    QuotedRun(s, 0);
    FitsIffBreaksPaidFor(s);
  }

  lemma {:induction false} QuotedRun(s: Bytes, onLine: nat)
    requires onLine <= 25
    requires forall i :: 0 <= i < |s| ==> !Simple(s[i])
    ensures Unquoted(s) == 0
    ensures |s| > 0 ==> SoftBreaks(s, 3 * onLine, false) == (onLine + |s| - 1) / 25
  {
    if s == [] {
    } else {
      QuotedRun(s[1..], if onLine == 25 then 1 else onLine + 1);
    }
  }
}
