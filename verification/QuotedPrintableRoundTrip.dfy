/** Decoding what was encoded gives the input back, unless it ends in white space. */
module QuotedPrintableRoundTrip {
  import opened Text
  import opened QuotedPrintable

  lemma HexDigitOfHex(d: nat)
    requires d < 16
    ensures HexDigit(Hex(d)) == Some(d)
  {
    if d < 10 {
      assert Hex(d) == "0123456789"[d];
    } else {
      assert Hex(d) == "ABCDEF"[d - 10];
    }
  }

  lemma StrtoulOfHex(n: nat)
    requires n < 256
    ensures Strtoul16(Hex(n / 16), Hex(n % 16)) == n && Hex(n / 16) != '\n'
  {
    HexDigitOfHex(n / 16);
    HexDigitOfHex(n % 16);
  }

  /** The decoder reads one encoded byte back, whatever follows, when no white space is pending. */
  lemma DecodeAtom(c: Byte, rest: string, room: nat)
    requires !IsWs(c) && room > 0
    ensures DecodeChar(Atom(c) + rest, room) == Prepend([c], |Atom(c)|, Decode(rest, "", room - 1))
  {
    var t := Atom(c) + rest;
    if Simple(c) {
      assert t[1..] == rest;
    } else {
      StrtoulOfHex(c as int);
      assert t[3..] == rest;
      assert t[0] == '=' && t[1] == Hex(c as int / 16) && t[2] == Hex(c as int % 16);
    }
  }

  /** A soft break is skipped, storing the white space pending in front of it. */
  lemma DecodeSoft(rest: string, w: string, room: nat)
    requires rest != "" && |w| < room
    ensures Decode(SOFT + rest, w, room) == Prepend(w, 2, Decode(rest, "", room - |w|))
  {
    var t := SOFT + rest;
    assert t[2..] == rest;
  }

  lemma DecodeOther(c: Byte, rest: string, w: string, room: nat)
    requires !IsWs(c) && |w| < room && (c == '\n' ==> w == "")
    ensures Decode(Atom(c) + rest, w, room) == Prepend(w + [c], |Atom(c)|, Decode(rest, "", room - |w| - 1))
  {
    hide Decode, DecodeChar, IsWs, Strtoul16, Simple;
    DecodeAtom(c, rest, room - |w|);
    AtomStarts(c);
    var t := Atom(c) + rest;
    assert t[0] == Atom(c)[0];
    Unfold(t, w, room);
    PrependTwice(w, 0, [c], |Atom(c)|, Decode(rest, "", room - |w| - 1));
    assert w == "" ==> w + [c] == [c];
  }

  lemma AtomStarts(c: Byte)
    ensures IsWs(Atom(c)[0]) == IsWs(c) && (Atom(c)[0] == '\n' <==> c == '\n') && Atom(c)[0] != '\r'
  {
  }

  function Keep(t: string, lost: nat): string
    requires lost <= |t|
  {
    t[..|t| - lost]
  }

  /**
   * How much of the end of the input a decoder drops: the white space `w` read so far and what
   * follows, if the text ends before anything else is stored. A soft break saves what precedes it.
   */
  function Lost(s: Bytes, lineLen: nat, w: string): (lost: nat)
    requires lineLen <= QP_LINE_MAX
    ensures lost <= |w| + |s|
  {
    if s == [] then |w|
    else
      var w1 := if Cuts(s[0], lineLen, w != "") then "" else w;
      Lost(s[1..], NextLen(s[0], lineLen, w != ""), if IsWs(s[0]) then w1 + [s[0]] else "")
  }

  /** Nothing is lost exactly when the text does not end in a space or a tab. */
  lemma {:induction false} LostIffTrailingWs(s: Bytes, lineLen: nat, w: string)
    requires lineLen <= QP_LINE_MAX && forall c :: c in w ==> IsWs(c)
    ensures Lost(s, lineLen, w) > 0 <==> LastWs(w + s)
  {
    hide Lost, NextLen, IsWs, Cuts;
    LostStep(s, lineLen, w);
    if s != [] {
      var w1 := if Cuts(s[0], lineLen, w != "") then "" else w;
      var w2 := if IsWs(s[0]) then w1 + [s[0]] else "";
      LostIffTrailingWs(s[1..], NextLen(s[0], lineLen, w != ""), w2);
      SameLast(w, w2, s);
    } else {
      assert w + s == w;
    }
  }

  lemma LostStep(s: Bytes, lineLen: nat, w: string)
    requires lineLen <= QP_LINE_MAX
    ensures s == [] ==> Lost(s, lineLen, w) == |w|
    ensures s != [] ==> (
      var w1 := if Cuts(s[0], lineLen, w != "") then "" else w;
      Lost(s, lineLen, w) == Lost(s[1..], NextLen(s[0], lineLen, w != ""), if IsWs(s[0]) then w1 + [s[0]] else ""))
  {
  }

  /** What is dropped is white space. */
  lemma {:induction false} LostIsWs(s: Bytes, lineLen: nat, w: string, i: nat)
    requires lineLen <= QP_LINE_MAX && forall c :: c in w ==> IsWs(c)
    requires |w + s| - Lost(s, lineLen, w) <= i < |w + s|
    ensures IsWs((w + s)[i])
  {
    hide Lost, NextLen, IsWs, Cuts;
    LostStep(s, lineLen, w);
    if s == [] {
      assert (w + s)[i] in w;
    } else {
      var w1 := if Cuts(s[0], lineLen, w != "") then "" else w;
      var w2 := if IsWs(s[0]) then w1 + [s[0]] else "";
      var k := i - (|w + s| - |w2 + s[1..]|);
      assert (w + s)[i] == (w2 + s[1..])[k];
      LostIsWs(s[1..], NextLen(s[0], lineLen, w != ""), w2, k);
    }
  }

  /** The last character is that of the rest, or else the first. */
  lemma SameLast(w: string, w2: string, s: string)
    requires s != "" && (if IsWs(s[0]) then w2 != "" && w2[|w2| - 1] == s[0] else w2 == "")
    ensures LastWs(w2 + s[1..]) == LastWs(w + s)
  {
  }

  /** One byte and what follows it, given how the rest decodes. */
  lemma DecodeByte(c: Byte, rest: string, tail: string, lost: nat, w: string, room: nat)
    requires |w| < room && (c == '\n' ==> w == "") && lost <= |tail| + (if IsWs(c) then |w| + 1 else 0)
    requires if IsWs(c) then Decode(rest, w + [c], room) == Decoding(Keep(w + [c] + tail, lost), |rest| - lost)
             else Decode(rest, "", room - |w| - 1) == Decoding(Keep(tail, lost), |rest| - lost)
    ensures Decode(Atom(c) + rest, w, room) == Decoding(Keep(w + ([c] + tail), lost), |Atom(c) + rest| - lost)
  {
    hide Decode, Atom;
    assert w + [c] + tail == w + ([c] + tail);
    if IsWs(c) {
      DecodeWs(c, rest, w, room);
    } else {
      DecodeOther(c, rest, w, room);
      assert w + [c] + Keep(tail, lost) == Keep(w + [c] + tail, lost);
    }
  }

  /** White space joins what is pending. */
  lemma DecodeWs(c: Byte, rest: string, w: string, room: nat)
    requires IsWs(c) && room > 0
    ensures |Atom(c)| == 1 && Decode(Atom(c) + rest, w, room) == Prepend("", 1, Decode(rest, w + [c], room))
  {
    assert (Atom(c) + rest)[1..] == rest;
  }

  /** The decoder's whole run on encoded text, from any point of the output line. */
  lemma {:induction false} DecodeEncode(s: Bytes, lineLen: nat, w: string, room: nat)
    requires lineLen <= QP_LINE_MAX && |w| + |s| <= room
    requires forall c :: c in w ==> IsWs(c)
    ensures Decode(Encode(s, lineLen, w != ""), w, room)
         == Decoding(Keep(w + s, Lost(s, lineLen, w)), |Encode(s, lineLen, w != "")| - Lost(s, lineLen, w))
    decreases |s|, 2
  {
    if s == [] {
    } else {
      if Cuts(s[0], lineLen, w != "") {
        DecodeAfterCut(s, lineLen, w, room);
      } else {
        DecodeOnLine(s, lineLen, w, room);
      }
    }
  }

  lemma {:induction false} DecodeAfterCut(s: Bytes, lineLen: nat, w: string, room: nat)
    requires s != [] && lineLen <= QP_LINE_MAX && |w| + |s| <= room
    requires Cuts(s[0], lineLen, w != "")
    ensures Decode(Encode(s, lineLen, w != ""), w, room)
         == Decoding(Keep(w + s, Lost(s, lineLen, w)), |Encode(s, lineLen, w != "")| - Lost(s, lineLen, w))
    decreases |s|, 1
  {
    hide Decode, Encode, Keep, Cuts, NextLen, Atom, IsWs;
    var c, tail, next := s[0], s[1..], NextLen(s[0], lineLen, w != "");
    var rest, lost := Encode(tail, next, IsWs(c)), Lost(s, lineLen, w);
    DecodeTail(tail, next, "", c, room - |w|);
    DecodeByte(c, rest, tail, lost, "", room - |w|);
    DecodeSoft(Atom(c) + rest, w, room);
    EncodeFirst(s, lineLen, w != "");
    assert "" + ([c] + tail) == s;
    SoftInFront(Atom(c), rest, w, s, lost, room);
  }

  lemma SoftInFront(atom: string, rest: string, w: string, s: string, lost: nat, room: nat)
    requires lost <= |s|
    ensures SOFT + atom + rest == SOFT + (atom + rest)
    ensures w + Keep(s, lost) == Keep(w + s, lost)
  {
  }

  lemma {:induction false} DecodeOnLine(s: Bytes, lineLen: nat, w: string, room: nat)
    requires s != [] && lineLen <= QP_LINE_MAX && |w| + |s| <= room
    requires (forall c :: c in w ==> IsWs(c)) && !Cuts(s[0], lineLen, w != "")
    ensures Decode(Encode(s, lineLen, w != ""), w, room)
         == Decoding(Keep(w + s, Lost(s, lineLen, w)), |Encode(s, lineLen, w != "")| - Lost(s, lineLen, w))
    decreases |s|, 1
  {
    hide Decode, Encode;
    var c, tail, next := s[0], s[1..], NextLen(s[0], lineLen, w != "");
    var rest, lost := Encode(tail, next, IsWs(c)), Lost(s, lineLen, w);
    DecodeTail(tail, next, w, c, room);
    DecodeByte(c, rest, tail, lost, w, room);
    EncodeFirst(s, lineLen, w != "");
    assert [c] + tail == s && "" + Atom(c) + rest == Atom(c) + rest;
  }

  /** The induction step: after `c` the pending white space is either `w` with `c`, or nothing. */
  lemma {:induction false} DecodeTail(tail: Bytes, next: nat, w: string, c: Byte, room: nat)
    requires next <= QP_LINE_MAX && |w| + 1 + |tail| <= room
    requires forall x :: x in w ==> IsWs(x)
    ensures if IsWs(c) then
              var lost := Lost(tail, next, w + [c]);
              Decode(Encode(tail, next, true), w + [c], room)
              == Decoding(Keep(w + [c] + tail, lost), |Encode(tail, next, true)| - lost)
            else
              var lost := Lost(tail, next, "");
              lost <= |tail| &&
              Decode(Encode(tail, next, false), "", room - |w| - 1)
              == Decoding(Keep(tail, lost), |Encode(tail, next, false)| - lost)
    decreases |tail|, 3
  {
    if IsWs(c) {
      DecodeEncode(tail, next, w + [c], room);
    } else {
      DecodeEncode(tail, next, "", room - |w| - 1);
      assert "" + tail == tail;
    }
  }

  /**
   * Round trip: with an output buffer at least as long as the input, decoding gives the input back
   * exactly when it does not end in a space or a tab; otherwise the end of it is dropped.
   */
  lemma RoundTripIff(s: Bytes, osize: nat)
    requires |s| <= osize
    ensures Decode(Encode(s, 0, false), "", osize).out <= s
    ensures Decode(Encode(s, 0, false), "", osize).out == s <==> !LastWs(s)
    ensures !LastWs(s) ==> Decode(Encode(s, 0, false), "", osize) == Decoding(s, |Encode(s, 0, false)|)
  {
    assert "" + s == s;
    DecodeEncode(s, 0, "", osize);
    LostIffTrailingWs(s, 0, "");
  }

  /** One encoded byte on the line, whatever follows it. */
  lemma DecodeFirst(c: Byte, rest: string, w: string, room: nat)
    requires |w| < room && (c == '\n' ==> w == "")
    ensures Decode(Atom(c) + rest, w, room).out
         == if IsWs(c) then Decode(rest, w + [c], room).out else w + [c] + Decode(rest, "", room - |w| - 1).out
  {
    hide Decode, Atom;
    if IsWs(c) {
      DecodeWs(c, rest, w, room);
    } else {
      DecodeOther(c, rest, w, room);
    }
  }

  /**
   * The decoder's run on encoded text that a line end follows, and whatever comes then: white space
   * in front of the line end is dropped.
   */
  lemma {:induction false} DecodeEncodeLine(s: Bytes, lineLen: nat, w: string, more: string, room: nat)
    requires lineLen <= QP_LINE_MAX && |w| + |s| < room
    requires forall c :: c in w ==> IsWs(c)
    ensures var lost := Lost(s, lineLen, w);
      Decode(Encode(s, lineLen, w != "") + ("\n" + more), w, room).out ==
      Keep(w + s, lost) + ("\n" + Decode(more, "", room - |w| - |s| + lost - 1).out)
    decreases |s|
  {
    hide Decode, DecodeChar, Encode, Lost, Cuts, NextLen, Atom, Keep, IsWs, Prepend, SOFT;
    LostStep(s, lineLen, w);
    if s == [] {
      LineEndOnly(w, more, room);
      EncodeNone(lineLen, w != "");
      KeepNone(w);
      assert "" + ("\n" + more) == "\n" + more && w + s == w;
      assert "" + ("\n" + Decode(more, "", room - 1).out) == "\n" + Decode(more, "", room - 1).out;
    } else {
      var c, tail, next := s[0], s[1..], NextLen(s[0], lineLen, w != "");
      var w1 := if Cuts(c, lineLen, w != "") then "" else w;
      var kept := if Cuts(c, lineLen, w != "") then w else "";
      var w2 := if IsWs(c) then w1 + [c] else "";
      var lost := Lost(tail, next, w2);
      DecodeFirstOfLine(s, lineLen, w, more, room);
      DecodeEncodeLine(tail, next, w2, more, if IsWs(c) then room - |kept| else room - |kept| - |w1| - 1);
      KeepMore(kept, w1, c, tail, lost, "\n" + Decode(more, "", room - |w| - |s| + lost - 1).out);
      assert w == kept + w1 && s == [c] + tail;
    }
  }

  /** The first byte of a line decoded, with the white space it settles. */
  lemma DecodeFirstOfLine(s: Bytes, lineLen: nat, w: string, more: string, room: nat)
    requires s != [] && lineLen <= QP_LINE_MAX && |w| + |s| < room
    ensures var c, cut := s[0], Cuts(s[0], lineLen, w != "");
      var w1, kept := if cut then "" else w, if cut then w else "";
      var rest := Encode(s[1..], NextLen(c, lineLen, w != ""), IsWs(c)) + ("\n" + more);
      Decode(Encode(s, lineLen, w != "") + ("\n" + more), w, room).out ==
      kept + if IsWs(c) then Decode(rest, w1 + [c], room - |kept|).out
             else w1 + [c] + Decode(rest, "", room - |kept| - |w1| - 1).out
  {
    hide Decode, DecodeChar, Encode, Cuts, NextLen, Atom, IsWs, SOFT;
    var c := s[0];
    var rest := Encode(s[1..], NextLen(c, lineLen, w != ""), IsWs(c)) + ("\n" + more);
    EncodeLine(s, lineLen, w != "", "\n" + more);
    NewlineCuts(c, lineLen, w != "");
    if Cuts(c, lineLen, w != "") {
      DecodeSoftOut(Atom(c) + rest, w, room);
      DecodeFirst(c, rest, "", room - |w|);
    } else {
      DecodeFirst(c, rest, w, room);
    }
  }

  lemma EncodeLine(s: Bytes, lineLen: nat, ws: bool, end: string)
    requires lineLen <= QP_LINE_MAX && s != []
    ensures var line := Atom(s[0]) + (Encode(s[1..], NextLen(s[0], lineLen, ws), IsWs(s[0])) + end);
      Encode(s, lineLen, ws) + end == if Cuts(s[0], lineLen, ws) then SOFT + line else line
  {
    hide Encode, Cuts, NextLen, Atom;
    EncodeFirst(s, lineLen, ws);
    AtomEnds(s[0], lineLen, ws);
  }

  lemma DecodeSoftOut(rest: string, w: string, room: nat)
    requires rest != "" && |w| < room
    ensures Decode(SOFT + rest, w, room).out == w + Decode(rest, "", room - |w|).out
  {
    DecodeSoft(rest, w, room);
  }

  lemma KeepNone(w: string)
    ensures Keep(w, |w|) == ""
  {
  }

  lemma EncodeNone(lineLen: nat, ws: bool)
    requires lineLen <= QP_LINE_MAX
    ensures Encode([], lineLen, ws) == ""
  {
  }

  lemma NewlineCuts(c: Byte, lineLen: nat, ws: bool)
    ensures c == '\n' && ws ==> Cuts(c, lineLen, ws)
  {
  }

  lemma LineEndOnly(w: string, more: string, room: nat)
    requires room > 0
    ensures Decode("\n" + more, w, room).out == "\n" + Decode(more, "", room - 1).out
  {
    assert ("\n" + more)[1..] == more;
    UnfoldChar("\n" + more, room);
  }

  lemma KeepMore(kept: string, w1: string, c: Byte, tail: string, lost: nat, end: string)
    requires lost <= |tail| + (if IsWs(c) then |w1| + 1 else 0)
    ensures lost <= |kept + w1 + ([c] + tail)|
    ensures Keep(kept + w1 + ([c] + tail), lost) + end ==
            kept + (if IsWs(c) then Keep(w1 + [c] + tail, lost) + end else w1 + [c] + (Keep("" + tail, lost) + end))
  {
    assert kept + w1 + ([c] + tail) == kept + (w1 + [c] + tail);
    assert "" + tail == tail;
  }
}
