/**
 * The quoted-printable encoder and decoder. Each is a loop over a bounded output buffer, proved
 * against a function of the input: `Encode` gives the whole encoding, `Decode` the run of the decoder.
 */
module QuotedPrintable {
  import opened Text

  const QP_LINE_MAX: nat := 76
  const SOFT := "=\n"
  const HEX := "0123456789ABCDEF"

  predicate Simple(c: char) {
    ' ' <= c <= '<' || '>' <= c <= '~' || c == '\t' || c == '\n'
  }

  /** Whether the encoder cuts the line before `c`: `ws` says the byte before it was a space or a tab. */
  predicate Cuts(c: char, lineLen: nat, ws: bool) {
    || lineLen == QP_LINE_MAX
    || (c == '\n' && ws)
    || (!Simple(c) && lineLen >= QP_LINE_MAX - 3)
  }

  function Cut(c: char, lineLen: nat, ws: bool): string {
    if Cuts(c, lineLen, ws) then SOFT else ""
  }

  /** What stands for one byte once any soft break is out of the way. */
  function Atom(c: Byte): (a: string)
    ensures 1 <= |a| <= 3
  {
    if Simple(c) then [c] else ['=', Hex(c as int / 16), Hex(c as int % 16)]
  }

  function Hex(d: nat): (h: char)
    requires d < 16
    ensures !IsWs(h)
  {
    HEX[d]
  }

  function NextLen(c: Byte, lineLen: nat, ws: bool): (n: nat)
    requires lineLen <= QP_LINE_MAX
    ensures n <= QP_LINE_MAX
  {
    if c == '\n' then 0
    else (if Cuts(c, lineLen, ws) then 0 else lineLen) + |Atom(c)|
  }

  /** The encoding of `s` when the current output line already holds `lineLen` characters. */
  function Encode(s: Bytes, lineLen: nat, ws: bool): string
    requires lineLen <= QP_LINE_MAX
  {
    if s == [] then ""
    else Cut(s[0], lineLen, ws) + Atom(s[0]) + Encode(s[1..], NextLen(s[0], lineLen, ws), IsWs(s[0]))
  }

  /** How many bytes go through unquoted, and how many soft breaks the encoder inserts. */
  function Unquoted(s: Bytes): nat {
    if s == [] then 0 else (if Simple(s[0]) then 1 else 0) + Unquoted(s[1..])
  }

  function SoftBreaks(s: Bytes, lineLen: nat, ws: bool): nat
    requires lineLen <= QP_LINE_MAX
  {
    if s == [] then 0
    else (if Cuts(s[0], lineLen, ws) then 1 else 0) + SoftBreaks(s[1..], NextLen(s[0], lineLen, ws), IsWs(s[0]))
  }

  predicate LastWs(out: string) { out != "" && IsWs(out[|out| - 1]) }

  /** What is written and what is to come, before and after one soft break or one byte. */
  ghost predicate Written(full: string, out: string, s: Bytes, k: nat, lineLen: nat)
    requires k <= |s| && lineLen <= QP_LINE_MAX
  {
    full == out + Encode(s[k..], lineLen, LastWs(out))
  }

  lemma WriteCut(full: string, out: string, s: Bytes, k: nat, lineLen: nat)
    requires k < |s| && lineLen <= QP_LINE_MAX && Written(full, out, s, k, lineLen)
    requires Cuts(s[k], lineLen, LastWs(out))
    ensures Written(full, out + SOFT, s, k, 0) && |full| >= |out| + 2
    ensures !Cuts(s[k], 0, LastWs(out + SOFT))
  {
    hide Encode, NextLen, Atom;
    var c, next := s[k], NextLen(s[k], 0, false);
    EncodeFirst(s[k..], lineLen, LastWs(out));
    EncodeFirst(s[k..], 0, false);
    CutThenNext(c, lineLen, LastWs(out));
    SoftRegroup(out, Atom(c), Encode(s[k..][1..], next, IsWs(c)));
  }

  lemma SoftRegroup(out: string, atom: string, rest: string)
    ensures out + (SOFT + atom + rest) == out + SOFT + ("" + atom + rest)
    ensures !LastWs(out + SOFT)
  {
  }

  lemma CutThenNext(c: Byte, lineLen: nat, ws: bool)
    requires lineLen <= QP_LINE_MAX && Cuts(c, lineLen, ws)
    ensures NextLen(c, lineLen, ws) == NextLen(c, 0, false)
  {
  }

  lemma WriteAtom(full: string, out: string, s: Bytes, k: nat, lineLen: nat)
    requires k < |s| && lineLen <= QP_LINE_MAX && Written(full, out, s, k, lineLen)
    requires !Cuts(s[k], lineLen, LastWs(out))
    ensures Written(full, out + Atom(s[k]), s, k + 1, NextLen(s[k], lineLen, LastWs(out)))
    ensures |full| >= |out| + |Atom(s[k])|
  {
    hide Encode, Cuts, NextLen, Atom;
    var ws, next := LastWs(out), NextLen(s[k], lineLen, LastWs(out));
    EncodeFirst(s[k..], lineLen, ws);
    AtomEnds(s[k], lineLen, ws);
    assert s[k..][1..] == s[k + 1..];
    assert out + ("" + Atom(s[k]) + Encode(s[k + 1..], next, IsWs(s[k]))) == out + Atom(s[k]) + Encode(s[k + 1..], next, IsWs(s[k]));
  }

  lemma AtomEnds(c: Byte, lineLen: nat, ws: bool)
    ensures LastWs(Atom(c)) == IsWs(c)
    ensures Cut(c, lineLen, ws) == if Cuts(c, lineLen, ws) then SOFT else ""
  {
  }

  lemma EncodeFirst(s: Bytes, lineLen: nat, ws: bool)
    requires lineLen <= QP_LINE_MAX && s != []
    ensures Encode(s, lineLen, ws)
         == Cut(s[0], lineLen, ws) + Atom(s[0]) + Encode(s[1..], NextLen(s[0], lineLen, ws), IsWs(s[0]))
  {
  }

  lemma WriteEnd(full: string, out: string, s: Bytes, lineLen: nat)
    requires lineLen <= QP_LINE_MAX && Written(full, out, s, |s|, lineLen)
    ensures full == out
  {
  }

  lemma WriteNothing(s: Bytes, lineLen: nat)
    requires lineLen <= QP_LINE_MAX
    ensures Written(Encode(s, lineLen, false), "", s, 0, lineLen)
  {
    assert s[0..] == s;
  }

  lemma WriteLeft(full: string, out: string, s: Bytes, k: nat, lineLen: nat)
    requires k <= |s| && lineLen <= QP_LINE_MAX && Written(full, out, s, k, lineLen)
    ensures full == out + Encode(s[k..], lineLen, LastWs(out))
  {
  }

  lemma AtomIs(c: Byte, lineLen: nat, ws: bool)
    requires lineLen <= QP_LINE_MAX && !Cuts(c, lineLen, ws)
    ensures Atom(c) == if Simple(c) then [c] else ['=', Hex(c as int / 16), Hex(c as int % 16)]
    ensures NextLen(c, lineLen, ws) == if c == '\n' then 0 else lineLen + |Atom(c)|
    ensures c == '\n' ==> Simple(c)
  {
  }

  /** The `*optr++ =` writes of one step: `text` lands at `n`, nothing else changes. */
  method Put(buf: array<char>, n: nat, text: string)
    requires n + |text| <= buf.Length
    modifies buf
    ensures buf[..n + |text|] == old(buf[..n]) + text
    ensures forall i :: n + |text| <= i < buf.Length ==> buf[i] == old(buf[i])
  {
    forall i | 0 <= i < |text| { buf[n + i] := text[i]; }
  }

  /**
   * `qp_encode`: stops at the first byte whose encoding does not fit in what is left of `optr`.
   * Everything is consumed exactly when the whole encoding fits; in any case what was written,
   * followed by the encoding of the bytes left from where the line stands, is the whole encoding.
   */
  method QpEncode(iptr: Bytes, optr: array<char>, osize: nat, lineLen0: nat)
    returns (consumed: nat, nbytes: nat, lineLen: nat)
    requires osize <= optr.Length && lineLen0 <= QP_LINE_MAX
    modifies optr
    ensures consumed <= |iptr| && nbytes <= osize && lineLen <= QP_LINE_MAX
    ensures consumed == |iptr| <==> |Encode(iptr, lineLen0, false)| <= osize
    ensures Encode(iptr, lineLen0, false)
         == optr[..nbytes] + Encode(iptr[consumed..], lineLen, LastWs(optr[..nbytes]))
    ensures forall i :: nbytes <= i < optr.Length ==> optr[i] == old(optr[i])
  {
    hide Encode, Written, Hex, Simple, IsWs, NextLen, Atom;
    consumed, nbytes, lineLen := 0, 0, lineLen0;
    ghost var full, out := Encode(iptr, lineLen0, false), "";
    WriteNothing(iptr, lineLen0);
    while consumed < |iptr|
      invariant consumed <= |iptr| && nbytes <= osize && lineLen <= QP_LINE_MAX
      invariant consumed > 0 <==> nbytes > 0
      invariant optr[..nbytes] == out
      invariant Written(full, out, iptr, consumed, lineLen)
      invariant forall i :: nbytes <= i < optr.Length ==> optr[i] == old(optr[i])
    {
      var c: Byte := iptr[consumed];
      var simple := Simple(c);
      if lineLen == QP_LINE_MAX || (c == '\n' && consumed > 0 && IsWs(optr[nbytes - 1]))
         || (!simple && lineLen >= QP_LINE_MAX - 3) {
        WriteCut(full, out, iptr, consumed, lineLen);
        if nbytes + 2 > osize { WriteLeft(full, out, iptr, consumed, lineLen); return; }
        Put(optr, nbytes, SOFT);
        nbytes := nbytes + 2;
        lineLen := 0;
        out := out + SOFT;
      }
      WriteAtom(full, out, iptr, consumed, lineLen);
      AtomIs(c, lineLen, LastWs(out));
      ghost var next := NextLen(c, lineLen, LastWs(out));
      if simple {
        if nbytes + 1 > osize { WriteLeft(full, out, iptr, consumed, lineLen); return; }
        Put(optr, nbytes, [c]);
        nbytes, lineLen, consumed := nbytes + 1, lineLen + 1, consumed + 1;
        if c == '\n' { lineLen := 0; }
      } else {
        if nbytes + 3 > osize { WriteLeft(full, out, iptr, consumed, lineLen); return; }
        Put(optr, nbytes, ['=', Hex(c as int / 16), Hex(c as int % 16)]);
        nbytes, lineLen, consumed := nbytes + 3, lineLen + 3, consumed + 1;
      }
      assert lineLen == next;
      out := out + Atom(c);
    }
    WriteEnd(full, out, iptr, lineLen);
    WriteLeft(full, out, iptr, consumed, lineLen);
  }

  /** `QuotedPrintable::encode`: a buffer of 3n + 1 characters, None when it is too small. */
  method EncodeBuffer(data: Bytes) returns (r: Option<array<char>>, dataLen: nat)
    ensures r.Some? ==> fresh(r.value)
    ensures data == [] ==> r == None && dataLen == 0
    ensures data != [] ==> (r.Some? <==> |Encode(data, 0, false)| <= 3 * |data|)
    ensures r.None? ==> dataLen == 0
    ensures r.Some? ==> dataLen < r.value.Length && r.value[..dataLen] == Encode(data, 0, false) && r.value[dataLen] == NUL
  {
    var outputLen := |data| * 3 + 1;
    if data == [] { return None, 0; }
    var buffer := new char[outputLen];
    var consumed, nbytes, lineLen := QpEncode(data, buffer, outputLen, 0);
    if |data| > consumed { return None, 0; }
    if nbytes < outputLen {
      buffer[nbytes] := NUL;
    } else {
      return None, 0;
    }
    return Some(buffer), nbytes;
  }

  function HexDigit(c: char): Option<nat> {
    if '0' <= c <= '9' then Some(c as int - '0' as int)
    else if 'A' <= c <= 'F' then Some(c as int - 'A' as int + 10)
    else if 'a' <= c <= 'f' then Some(c as int - 'a' as int + 10)
    else None
  }

  predicate IsSpace(c: char) { c == ' ' || 9 <= c as int <= 13 }

  /** `strtoul` in base 16 on the two characters after '=', then cut to one byte. */
  function Strtoul16(a: char, b: char): (n: nat)
    ensures n < 256
  {
    var da, db := HexDigit(a), HexDigit(b);
    if da.Some? then (if db.Some? then (da.value * 16 + db.value) % 256 else da.value % 256)
    else if (IsSpace(a) || a == '+') && db.Some? then db.value % 256
    else if a == '-' && db.Some? then (256 - db.value % 256) % 256
    else 0
  }

  /** One run of the decoder: what it stored, and how many input characters it accounts for. */
  datatype Decoding = Decoding(out: string, used: int)

  function Prepend(text: string, used: int, d: Decoding): Decoding {
    Decoding(text + d.out, used + d.used)
  }

  /**
   * `qp_decode` from a point where `t` is still to be read, the white space `w` has been read but
   * not stored yet, and the output has `room` characters left. White space in front of a line end
   * is dropped; the run stops early when the output is full or an escape is cut short.
   */
  function Decode(t: string, w: string, room: nat): Decoding
    decreases |t|
  {
    if t == "" || room == 0 then Decoding("", -|w|)
    else if IsWs(t[0]) then Prepend("", 1, Decode(t[1..], w + [t[0]], room))
    else if w != "" && t[0] != '\r' && t[0] != '\n' then
      if |w| >= room then Decoding(w[..room], room - |w|)
      else Prepend(w, 0, DecodeChar(t, room - |w|))
    else DecodeChar(t, room)
  }

  function DecodeChar(t: string, room: nat): Decoding
    requires t != "" && room > 0
    decreases |t|, 0
  {
    if t[0] == '=' then
      if |t| <= 2 then Decoding("", 0)
      else if t[1] == '\n' then Prepend("", 2, Decode(t[2..], "", room))
      else Prepend([Strtoul16(t[1], t[2]) as char], 3, Decode(t[3..], "", room - 1))
    else if t[0] == '\r' then
      if |t| <= 1 then Decoding("", 0)
      else Prepend("\n", 2, Decode(t[2..], "", room - 1))
    else Prepend([t[0]], 1, Decode(t[1..], "", room - 1))
  }

  lemma PrependTwice(a: string, n: int, b: string, m: int, d: Decoding)
    ensures Prepend(a, n, Prepend(b, m, d)) == Prepend(a + b, n + m, d)
  {
    assert a + (b + d.out) == a + b + d.out;
  }

  lemma PrependNothing(d: Decoding)
    ensures Prepend("", 0, d) == d
  {
    assert "" + d.out == d.out;
  }

  lemma PrependEnd(a: string, n: int, b: string, m: int)
    ensures Prepend(a, n, Decoding(b, m)) == Decoding(a + b, n + m)
    ensures a + "" == a
  {
  }

  lemma Unfold(t: string, w: string, room: nat)
    requires t != "" && room > 0
    ensures Decode(t, w, room) ==
            if IsWs(t[0]) then Prepend("", 1, Decode(t[1..], w + [t[0]], room))
            else if w != "" && t[0] != '\r' && t[0] != '\n' then
              if |w| >= room then Decoding(w[..room], room - |w|)
              else Prepend(w, 0, DecodeChar(t, room - |w|))
            else DecodeChar(t, room)
  {
  }

  lemma UnfoldChar(t: string, room: nat)
    requires t != "" && room > 0
    ensures DecodeChar(t, room) ==
            if t[0] == '=' then
              if |t| <= 2 then Decoding("", 0)
              else if t[1] == '\n' then Prepend("", 2, Decode(t[2..], "", room))
              else Prepend([Strtoul16(t[1], t[2]) as char], 3, Decode(t[3..], "", room - 1))
            else if t[0] == '\r' then
              if |t| <= 1 then Decoding("", 0)
              else Prepend("\n", 2, Decode(t[2..], "", room - 1))
            else Prepend([t[0]], 1, Decode(t[1..], "", room - 1))
  {
  }

  lemma DecodeStops(t: string, w: string, room: nat)
    requires t == "" || room == 0
    ensures Decode(t, w, room) == Decoding("", -|w|)
  {
  }

  /** The pending white space is stored, unless a line end follows it; `stop` when the output is full. */
  method Flush(iptr: string, start: nat, ws: nat, optr: array<char>, n: nat, osize: nat)
    returns (nbytes: nat, wscount: nat, stop: bool)
    requires ws <= start < |iptr| && n < osize <= optr.Length && !IsWs(iptr[start])
    modifies optr
    ensures n <= nbytes <= osize && wscount <= ws
    ensures stop ==> Decode(iptr[start..], iptr[start - ws..start], osize - n) == Decoding(optr[n..nbytes], 0 - wscount)
    ensures !stop ==> wscount == 0 && nbytes < osize
    ensures !stop ==> (
      Decode(iptr[start..], iptr[start - ws..start], osize - n)
      == Prepend(optr[n..nbytes], 0, DecodeChar(iptr[start..], osize - nbytes)))
    ensures optr[..n] == old(optr[..n])
    ensures forall i :: nbytes <= i < optr.Length ==> optr[i] == old(optr[i])
  {
    hide Decode, DecodeChar;
    var c := iptr[start];
    ghost var w := iptr[start - ws..start];
    Unfold(iptr[start..], w, osize - n);
    nbytes, wscount, stop := n, ws, false;
    if wscount > 0 {
      if c != '\r' && c != '\n' {
        var sz := if nbytes + wscount > osize then osize - nbytes else wscount;
        forall i | 0 <= i < sz { optr[n + i] := iptr[start - ws + i]; }
        nbytes := nbytes + sz;
        assert forall i :: 0 <= i < sz ==> w[i] == iptr[start - ws + i] && optr[n..nbytes][i] == optr[n + i];
        assert optr[n..nbytes] == w[..sz];
        if wscount > sz {
          return nbytes, wscount - sz, true;
        }
      }
      wscount := 0;
      stop := nbytes == osize;
    }
  }

  /** The branches of `qp_decode` for a character that is not white space. */
  method DecodeOne(iptr: string, start: nat, optr: array<char>, n: nat, osize: nat)
    returns (consumed: nat, nbytes: nat, stop: bool)
    requires start < |iptr| && n < osize <= optr.Length
    modifies optr
    ensures start <= consumed <= |iptr| && n <= nbytes <= osize
    ensures stop ==> consumed == start && nbytes == n && DecodeChar(iptr[start..], osize - n) == Decoding("", 0)
    ensures !stop ==> consumed > start
    ensures !stop ==> (
      DecodeChar(iptr[start..], osize - n)
      == Prepend(optr[n..nbytes], consumed - start, Decode(iptr[consumed..], "", osize - nbytes)))
    ensures optr[..n] == old(optr[..n])
    ensures forall i :: nbytes <= i < optr.Length ==> optr[i] == old(optr[i])
  {
    hide Decode, DecodeChar, Strtoul16;
    var c := iptr[start];
    ghost var t := iptr[start..];
    UnfoldChar(t, osize - n);
    consumed, nbytes, stop := start, n, false;
    if c == '=' {
      if consumed + 2 >= |iptr| { stop := true; return; }
      if iptr[consumed + 1] != '\n' {
        var new_c := Strtoul16(iptr[consumed + 1], iptr[consumed + 2]) as char;
        optr[nbytes] := new_c;
        nbytes, consumed := nbytes + 1, consumed + 3;
        assert t[3..] == iptr[consumed..];
      } else {
        consumed := consumed + 2;
        assert t[2..] == iptr[consumed..];
      }
    } else if c == '\r' {
      if consumed + 1 >= |iptr| { stop := true; return; }
      optr[nbytes] := '\n';
      nbytes, consumed := nbytes + 1, consumed + 2;
      assert t[2..] == iptr[consumed..];
    } else {
      optr[nbytes] := c;
      nbytes, consumed := nbytes + 1, consumed + 1;
      assert t[1..] == iptr[consumed..];
    }
  }

  /** `qp_decode`: the loop computes `Decode`, storing into `optr` and returning the count consumed. */
  method QpDecode(iptr: string, optr: array<char>, osize: nat) returns (used: int, nbytes: nat)
    requires osize <= optr.Length
    modifies optr
    ensures nbytes <= osize
    ensures Decoding(optr[..nbytes], used) == Decode(iptr, "", osize)
    ensures forall i :: nbytes <= i < optr.Length ==> optr[i] == old(optr[i])
  {
    hide Decode, DecodeChar, Strtoul16, Prepend, IsWs;
    var consumed: nat, wscount: nat := 0, 0;
    nbytes := 0;
    ghost var goal, out, w, stopped := Decode(iptr, "", osize), "", "", false;
    assert iptr[0..] == iptr;
    PrependNothing(goal);
    while consumed < |iptr| && nbytes < osize
      invariant wscount <= consumed <= |iptr| && nbytes <= osize
      invariant optr[..nbytes] == out && w == iptr[consumed - wscount..consumed]
      invariant goal == Prepend(out, consumed, Decode(iptr[consumed..], w, osize - nbytes))
      invariant forall i :: nbytes <= i < optr.Length ==> optr[i] == old(optr[i])
    {
      var c := iptr[consumed];
      ghost var t := iptr[consumed..];
      Unfold(t, w, osize - nbytes);
      if IsWs(c) {
        PrependTwice(out, consumed, "", 1, Decode(t[1..], w + [c], osize - nbytes));
        assert out + "" == out && t[1..] == iptr[consumed + 1..];
        assert w + [c] == iptr[consumed - wscount..consumed + 1];
        wscount, consumed, w := wscount + 1, consumed + 1, w + [c];
        continue;
      }
      ghost var n0, c0 := nbytes, consumed;
      var stop;
      nbytes, wscount, stop := Flush(iptr, consumed, wscount, optr, nbytes, osize);
      ghost var text := optr[n0..nbytes];
      out := out + text;
      assert optr[..nbytes] == out;
      if stop {
        PrependEnd(out[..n0], consumed, text, 0 - wscount);
        assert goal == Decoding(optr[..nbytes], consumed - wscount);
        stopped := true;
        break;
      }
      PrependTwice(out[..n0], consumed, text, 0, DecodeChar(t, osize - nbytes));
      n0 := nbytes;
      consumed, nbytes, stop := DecodeOne(iptr, consumed, optr, nbytes, osize);
      assert optr[..nbytes] == out + optr[n0..nbytes];
      if stop {
        PrependEnd(out, consumed, "", 0);
        assert goal == Decoding(optr[..nbytes], consumed - wscount);
        stopped := true;
        break;
      }
      PrependTwice(out, c0, optr[n0..nbytes], consumed - c0, Decode(iptr[consumed..], "", osize - nbytes));
      out, w := out + optr[n0..nbytes], "";
    }
    used := consumed - wscount;
    if !stopped {
      DecodeStops(iptr[consumed..], w, osize - nbytes);
      PrependEnd(out, consumed, "", 0 - wscount);
    }
  }
}
