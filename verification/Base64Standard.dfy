/** Base64 as section 6.8 of RFC 2045 writes it, which the encoder and the decoder are held against. */
module Base64Standard {
  import opened Text

  const LETTERS := "ABCDEFGHIJKLMNOPQRSTUVWXYZabcdefghijklmnopqrstuvwxyz0123456789+/"

  /** The four letters of three bytes. */
  function Letters(b0: Byte, b1: Byte, b2: Byte): (q: string)
    ensures |q| == 4
  {
    [LETTERS[b0 as int / 4], LETTERS[b0 as int % 4 * 16 + b1 as int / 16],
     LETTERS[b1 as int % 16 * 4 + b2 as int / 64], LETTERS[b2 as int % 64]]
  }

  /** Groups of three bytes as four letters, zeros and "=" standing for what the last group lacks. */
  function Standard(d: Bytes): string {
    if |d| == 0 then ""
    else if |d| == 1 then Letters(d[0], 0 as char, 0 as char)[..2] + "=="
    else if |d| == 2 then Letters(d[0], d[1], 0 as char)[..3] + "="
    else Letters(d[0], d[1], d[2]) + Standard(d[3..])
  }

  /** The values of the letters in front of the first "=" or NUL, other characters skipped. */
  function Values(t: string): seq<nat> {
    if t == "" || t[0] == '=' || t[0] == NUL then []
    else (if t[0] in LETTERS then [IndexOf(LETTERS, t[0], 0)] else []) + Values(t[1..])
  }
}
