/** The lines of successfully encoded content: alphabet, line ends, trailing white space, width. */
module QpLines {
  import opened Text
  import opened QuotedPrintable
  import opened QpContent

  /** No "=_" in the line, so no line can start with a "------=_Next..." delimiter. */
  predicate NoEqualsUnderscore(l: string) {
    forall i :: 0 <= i < |l| - 1 && l[i] == '=' ==> l[i + 1] != '_'
  }

  ghost predicate CleanLine(l: string) {
    (forall c :: c in l ==> Printable(c)) && NoEqualsUnderscore(l)
  }

  /** A line that continues `off` characters already on it, and that a CRLF ends. */
  ghost predicate EndedLine(l: string, off: nat, ws: bool) {
    && CleanLine(l)
    && (if l == "" then !ws else !IsWs(l[|l| - 1]))
    && (off + |l| <= 76 || (off + |l| == 77 && l != "" && l[|l| - 1] == '='))
  }

  ghost predicate Disciplined(ls: seq<string>, off: nat, ws: bool) {
    |ls| > 0 &&
    if |ls| == 1 then CleanLine(ls[0]) && off + |ls[0]| <= QP_LINE_MAX
    else EndedLine(ls[0], off, ws) && Disciplined(ls[1..], 0, false)
  }

  function EncodedLines(s: Bytes, lineLen: nat, ws: bool): (ls: seq<string>)
    requires lineLen <= QP_LINE_MAX
    ensures |ls| > 0
  {
    Lines(NlToCrlf(Encode(s, lineLen, ws)))
  }

  lemma {:induction false} LinesPrefix(a: string, b: string)
    requires '\r' !in a
    ensures Lines(a + b) == [a + Lines(b)[0]] + Lines(b)[1..]
  {
    if a == "" {
      assert a + b == b && Lines(b) == [Lines(b)[0]] + Lines(b)[1..];
      assert "" + Lines(b)[0] == Lines(b)[0];
    } else {
      assert (a + b)[0] == a[0] && (a + b)[1..] == a[1..] + b;
      LinesPrefix(a[1..], b);
      assert [a[0]] + (a[1..] + Lines(b)[0]) == a + Lines(b)[0];
    }
  }

  /** The lines of one more byte, from the lines of what follows it. */
  function AddAtom(c: Byte, ls: seq<string>): (r: seq<string>)
    requires |ls| > 0
    ensures |r| > 0
  {
    if c == '\n' then [""] + ls else [Atom(c) + ls[0]] + ls[1..]
  }

  lemma AddByte(s: Bytes, lineLen: nat, ws: bool)
    requires s != [] && lineLen <= QP_LINE_MAX
    ensures var after := AddAtom(s[0], EncodedLines(s[1..], NextLen(s[0], lineLen, ws), IsWs(s[0])));
            EncodedLines(s, lineLen, ws) == if Cuts(s[0], lineLen, ws) then ["="] + after else after
  {
    hide Encode, NextLen, Atom, AddAtom, NlToCrlf, Lines;
    var c := s[0];
    var rest := Encode(s[1..], NextLen(c, lineLen, ws), IsWs(c));
    var t := Atom(c) + rest;
    AtomLines(c, rest);
    EncodeFirst(s, lineLen, ws);
    if Cuts(c, lineLen, ws) {
      assert SOFT + Atom(c) + rest == SOFT + t;
      CutLines(t);
    } else {
      assert "" + Atom(c) + rest == t;
    }
  }

  lemma CutLines(t: string)
    ensures Lines(NlToCrlf(SOFT + t)) == ["="] + Lines(NlToCrlf(t))
  {
    hide Lines;
    var u := SOFT + t;
    assert u[0] == '=' && u[1..][0] == '\n' && u[1..][1..] == t;
    assert NlToCrlf(u[1..]) == CRLF + NlToCrlf(t);
    assert "=" + (CRLF + NlToCrlf(t)) == "=" + CRLF + NlToCrlf(t);
    LinesOfLine("=", NlToCrlf(t));
  }

  lemma AtomLines(c: Byte, rest: string)
    ensures Lines(NlToCrlf(Atom(c) + rest)) == AddAtom(c, Lines(NlToCrlf(rest)))
  {
    NlToCrlfAppend(Atom(c), rest);
    if c == '\n' {
      assert NlToCrlf(Atom(c)) == CRLF;
      assert CRLF + NlToCrlf(rest) == "" + CRLF + NlToCrlf(rest);
      LinesOfLine("", NlToCrlf(rest));
    } else {
      AtomIsClean(c);
      NlToCrlfPlain(Atom(c));
      LinesPrefix(Atom(c), NlToCrlf(rest));
    }
  }

  lemma AtomIsClean(c: Byte)
    requires c != '\n'
    ensures CleanLine(Atom(c)) && '\r' !in Atom(c) && '\n' !in Atom(c) && Atom(c)[|Atom(c)| - 1] != '='
    ensures IsWs(Atom(c)[|Atom(c)| - 1]) == IsWs(c)
  {
    HexIsAlnum(c as int / 16);
    HexIsAlnum(c as int % 16);
  }

  lemma CleanAppend(a: string, l: string)
    requires CleanLine(a) && a != "" && a[|a| - 1] != '=' && CleanLine(l)
    ensures CleanLine(a + l)
  {
  }

  lemma {:induction false} EncodedIsDisciplined(s: Bytes, lineLen: nat, ws: bool)
    requires lineLen <= QP_LINE_MAX
    ensures Disciplined(EncodedLines(s, lineLen, ws), lineLen, ws)
  {
    if s == [] {
      assert EncodedLines(s, lineLen, ws) == [""];
    } else {
      var c, next := s[0], NextLen(s[0], lineLen, ws);
      var ls := EncodedLines(s[1..], next, IsWs(c));
      EncodedIsDisciplined(s[1..], next, IsWs(c));
      AddByte(s, lineLen, ws);
      AtomIsDisciplined(c, ls, lineLen, ws);
      var after := AddAtom(c, ls);
      if Cuts(c, lineLen, ws) {
        assert (["="] + after)[1..] == after;
      }
    }
  }

  lemma AtomIsDisciplined(c: Byte, ls: seq<string>, lineLen: nat, ws: bool)
    requires lineLen <= QP_LINE_MAX && Disciplined(ls, NextLen(c, lineLen, ws), IsWs(c))
    ensures if Cuts(c, lineLen, ws) then Disciplined(AddAtom(c, ls), 0, false)
            else Disciplined(AddAtom(c, ls), lineLen, ws)
  {
    if c == '\n' {
      assert ([""] + ls)[1..] == ls;
    } else {
      AtomIsClean(c);
      CleanAppend(Atom(c), ls[0]);
      assert ([Atom(c) + ls[0]] + ls[1..])[1..] == ls[1..];
    }
  }

  /** The discipline, line by line. */
  lemma {:induction false} DisciplineAt(ls: seq<string>, off: nat, ws: bool, i: nat)
    requires Disciplined(ls, off, ws) && i < |ls|
    ensures CleanLine(ls[i])
    ensures i < |ls| - 1 ==> EndedLine(ls[i], if i == 0 then off else 0, if i == 0 then ws else false)
    ensures i == |ls| - 1 ==> (if i == 0 then off else 0) + |ls[i]| <= QP_LINE_MAX
  {
    if i == 0 {
    } else {
      DisciplineAt(ls[1..], 0, false, i - 1);
    }
  }

  /**
   * Every line of encoded content: printable ASCII and tabs, no CR or LF but in the CRLF that ends
   * it, no space or tab before a CRLF, and at most 76 characters before the '=' of a soft break.
   */
  lemma EncodedContentLines(content: Bytes)
    requires Encodable(content)
    ensures var ls := Lines(Encoded(content));
            && (forall i :: 0 <= i < |ls| ==> CleanLine(ls[i]))
            && (forall i :: 0 <= i < |ls| - 1 ==> EndedLine(ls[i], 0, false))
            && |ls[|ls| - 1]| <= 76
  {
    var ls := Lines(Encoded(content));
    EncodedIsDisciplined(content, 0, false);
    forall i | 0 <= i < |ls|
      ensures CleanLine(ls[i]) && (i < |ls| - 1 ==> EndedLine(ls[i], 0, false))
    {
      DisciplineAt(ls, 0, false, i);
    }
    DisciplineAt(ls, 0, false, |ls| - 1);
  }

  /** Some byte finds the output line full, with 76 characters on it. */
  predicate FillsALine(s: Bytes, lineLen: nat, ws: bool)
    requires lineLen <= QP_LINE_MAX
  {
    s != [] && (lineLen == QP_LINE_MAX || FillsALine(s[1..], NextLen(s[0], lineLen, ws), IsWs(s[0])))
  }

  predicate TooLong(ls: seq<string>, off: nat) {
    ls != [] && (off + |ls[0]| > QP_LINE_MAX || TooLong(ls[1..], 0))
  }

  /** Rule 5 of section 6.7 of RFC 2045 (76 characters, the '=' included) is met unless a line fills up. */
  lemma {:induction false} TooLongIffFilled(s: Bytes, lineLen: nat, ws: bool)
    requires lineLen <= QP_LINE_MAX
    ensures TooLong(EncodedLines(s, lineLen, ws), lineLen) <==> FillsALine(s, lineLen, ws)
  {
    if s == [] {
      assert EncodedLines(s, lineLen, ws) == [""];
    } else {
      var c, next := s[0], NextLen(s[0], lineLen, ws);
      var ls := EncodedLines(s[1..], next, IsWs(c));
      TooLongIffFilled(s[1..], next, IsWs(c));
      AddByte(s, lineLen, ws);
      AddAtomTooLong(c, ls, if Cuts(c, lineLen, ws) then 0 else lineLen);
      var after := AddAtom(c, ls);
      assert (["="] + after)[1..] == after;
    }
  }

  lemma AddAtomTooLong(c: Byte, ls: seq<string>, off: nat)
    requires |ls| > 0 && off <= QP_LINE_MAX
    ensures TooLong(AddAtom(c, ls), off) == TooLong(ls, if c == '\n' then 0 else off + |Atom(c)|)
  {
    if c == '\n' {
      assert ([""] + ls)[1..] == ls;
    } else {
      assert ([Atom(c) + ls[0]] + ls[1..])[1..] == ls[1..];
    }
  }

  lemma {:induction false} TooLongAt(ls: seq<string>, off: nat)
    ensures TooLong(ls, off) <==>
            exists i :: 0 <= i < |ls| && (if i == 0 then off else 0) + |ls[i]| > QP_LINE_MAX
  {
    if ls == [] {
    } else {
      TooLongAt(ls[1..], 0);
      if TooLong(ls[1..], 0) {
        var i :| 0 <= i < |ls[1..]| && 0 + |ls[1..][i]| > QP_LINE_MAX;
        assert ls[i + 1] == ls[1..][i];
      }
      if i :| 0 < i < |ls| && 0 + |ls[i]| > QP_LINE_MAX {
        assert ls[1..][i - 1] == ls[i];
      }
    }
  }

  lemma WithinRfcLimitIff(content: Bytes)
    requires Encodable(content)
    ensures (forall i :: 0 <= i < |Lines(Encoded(content))| ==> |Lines(Encoded(content))[i]| <= 76)
       <==> !FillsALine(content, 0, false)
  {
    TooLongIffFilled(content, 0, false);
    TooLongAt(Lines(Encoded(content)), 0);
  }

  /** 77 letters on one line: the first output line is 76 of them and the soft break's '='. */
  lemma SeventySevenLettersBreakTheLimit(content: Bytes)
    requires |content| == 77 && forall i :: 0 <= i < |content| ==> content[i] == 'x'
    ensures Encodable(content) && FillsALine(content, 0, false)
  {
    Letters(content, 0, false);
  }

  lemma {:induction false} Letters(s: Bytes, lineLen: nat, ws: bool)
    requires 0 < |s| <= 77 && lineLen == 77 - |s| && !ws && forall i :: 0 <= i < |s| ==> s[i] == 'x'
    ensures FillsALine(s, lineLen, ws) && SoftBreaks(s, lineLen, ws) <= 1 && Unquoted(s) >= 1
  {
    if |s| > 1 { Letters(s[1..], lineLen + 1, false); }
  }
}
