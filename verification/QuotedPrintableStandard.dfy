/** Quoted-printable as section 6.7 of RFC 2045 writes it, which the encoder and the decoder are held against. */
module QuotedPrintableStandard {
  import opened Text
  import opened QuotedPrintable
  import opened QpContent

  /** Printable ASCII but "=", tabs and line feeds stand for themselves, other bytes are "=" and two digits. */
  function Standard(c: Byte): string {
    if c == '\t' || c == '\n' || (' ' <= c <= '~' && c != '=') then [c]
    else ['=', "0123456789ABCDEF"[c as int / 16], "0123456789ABCDEF"[c as int % 16]]
  }

  function AllStandard(s: Bytes): string {
    if s == [] then "" else Standard(s[0]) + AllStandard(s[1..])
  }

  /** A text without its soft breaks. */
  function Joined(t: string): string {
    if |t| >= 2 && t[0] == '=' && t[1] == '\n' then Joined(t[2..])
    else if t == "" then ""
    else [t[0]] + Joined(t[1..])
  }

  lemma AtomIsStandard(c: Byte)
    ensures Atom(c) == Standard(c)
  {
  }

  lemma JoinedAtom(c: Byte, rest: string)
    ensures Joined(Atom(c) + rest) == Atom(c) + Joined(rest)
  {
    hide Joined, Hex;
    if Simple(c) {
      JoinedOne(c, rest);
    } else {
      HexIsAlnum(c as int / 16);
      HexIsAlnum(c as int % 16);
      JoinedThree(Hex(c as int / 16), Hex(c as int % 16), rest);
    }
  }

  lemma JoinedOne(c: char, rest: string)
    requires c != '='
    ensures Joined([c] + rest) == [c] + Joined(rest)
  {
    assert ([c] + rest)[1..] == rest;
  }

  lemma JoinedThree(x: char, y: char, rest: string)
    requires x != '=' && x != '\n' && y != '='
    ensures Joined(['=', x, y] + rest) == ['=', x, y] + Joined(rest)
  {
    hide Joined;
    var t := ['=', x, y] + rest;
    assert t[1..] == [x] + ([y] + rest);
    JoinedStep(t);
    JoinedOne(x, [y] + rest);
    JoinedOne(y, rest);
  }

  lemma JoinedStep(t: string)
    requires t != "" && !(|t| >= 2 && t[0] == '=' && t[1] == '\n')
    ensures Joined(t) == [t[0]] + Joined(t[1..])
  {
  }

  /** Apart from soft breaks the encoding is the standard's, byte by byte, from any point of a line. */
  lemma {:induction false} EncodeIsStandard(s: Bytes, lineLen: nat, ws: bool)
    requires lineLen <= QP_LINE_MAX
    ensures Joined(Encode(s, lineLen, ws)) == AllStandard(s)
  {
    hide Joined, Atom, Standard, NextLen, Encode;
    if s == [] {
      NothingJoined(lineLen, ws);
    } else {
      var rest := Encode(s[1..], NextLen(s[0], lineLen, ws), IsWs(s[0]));
      EncodeIsStandard(s[1..], NextLen(s[0], lineLen, ws), IsWs(s[0]));
      EncodeFirst(s, lineLen, ws);
      AtomIsStandard(s[0]);
      JoinedAtom(s[0], rest);
      JoinedSoft(Atom(s[0]) + rest);
      assert SOFT + Atom(s[0]) + rest == SOFT + (Atom(s[0]) + rest);
      assert "" + Atom(s[0]) + rest == Atom(s[0]) + rest;
    }
  }

  lemma NothingJoined(lineLen: nat, ws: bool)
    requires lineLen <= QP_LINE_MAX
    ensures Joined(Encode([], lineLen, ws)) == ""
  {
  }

  lemma JoinedSoft(t: string)
    ensures Joined(SOFT + t) == Joined(t)
  {
    assert (SOFT + t)[2..] == t;
  }

  /** The decoder reads two digits of either case as the standard does. */
  lemma EscapeIsStandard(a: nat, b: nat, rest: string, room: nat)
    requires a < 16 && b < 16 && room > 0
    ensures forall x, y :: x in ["0123456789ABCDEF"[a], "0123456789abcdef"[a]] && y in ["0123456789ABCDEF"[b], "0123456789abcdef"[b]] ==>
      Decode(['=', x, y] + rest, "", room).out == [(16 * a + b) as char] + Decode(rest, "", room - 1).out
  {
    forall x, y | x in ["0123456789ABCDEF"[a], "0123456789abcdef"[a]] && y in ["0123456789ABCDEF"[b], "0123456789abcdef"[b]]
      ensures Decode(['=', x, y] + rest, "", room).out == [(16 * a + b) as char] + Decode(rest, "", room - 1).out
    {
      DigitIs(a, x);
      DigitIs(b, y);
      EscapeDecodes(x, y, rest, room);
    }
  }

  lemma DigitIs(d: nat, x: char)
    requires d < 16 && x in ["0123456789ABCDEF"[d], "0123456789abcdef"[d]]
    ensures HexDigit(x) == Some(d) && x != '\n'
  {
  }

  lemma EscapeDecodes(x: char, y: char, rest: string, room: nat)
    requires room > 0 && HexDigit(x).Some? && HexDigit(y).Some? && x != '\n'
    ensures Decode(['=', x, y] + rest, "", room).out == [Strtoul16(x, y) as char] + Decode(rest, "", room - 1).out
  {
    hide Strtoul16, HexDigit;
    var t := ['=', x, y] + rest;
    assert t[3..] == rest;
  }

  /** CRLF is a line end to the decoder, and white space in front of it is dropped. */
  lemma CrlfIsLineEnd(rest: string, w: string, room: nat)
    requires room > 0
    ensures Decode("\r\n" + rest, w, room).out == "\n" + Decode(rest, "", room - 1).out
  {
    var t := "\r\n" + rest;
    assert t[2..] == rest;
  }

  /** A soft break that ends in CRLF, as in the text that is sent, is not taken for one: it decodes to a NUL. */
  lemma CrlfSoftBreakIsLost(rest: string, room: nat)
    requires room > 0
    ensures Decode("=\r\n" + rest, "", room).out == [NUL] + Decode(rest, "", room - 1).out
  {
    var t := "=\r\n" + rest;
    assert t[3..] == rest;
  }
}
