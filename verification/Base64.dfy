/**
 * Base64 as the encoder and the decoder compute it: loops over bounded buffers, proved against
 * `Encode` (all of the encoding) and `Unpack` (what a list of sextets decodes to).
 */
module Base64 {
  import opened Text
  import opened Base64Standard

  const CODE := "ABCDEFGHIJKLMNOPQRSTUVWXYZ" + "abcdefghijklmnopqrstuvwxyz" + "0123456789+/"
  const B64NOP: nat := 128
  const B64EOF: nat := 64

  type Sextet = n: nat | n < 64

  /** `code[n]`, by the range of the table that n falls in. */
  function Sym(n: Sextet): char {
    if n < 26 then ('A' as int + n) as char
    else if n < 52 then ('a' as int + n - 26) as char
    else if n < 62 then ('0' as int + n - 52) as char
    else if n == 62 then '+' else '/'
  }

  lemma SymIsCode(n: Sextet)
    ensures |CODE| == 64 && CODE[n] == Sym(n)
  {
    if n < 26 {
      assert CODE[n] == "ABCDEFGHIJKLMNOPQRSTUVWXYZ"[n];
    } else if n < 52 {
      assert CODE[n] == "abcdefghijklmnopqrstuvwxyz"[n - 26];
    } else {
      assert CODE[n] == "0123456789+/"[n - 52];
    }
  }

  function Word(b0: Byte, b1: Byte, b2: Byte): (w: nat)
    ensures w < 0x100_0000
  {
    b0 as int * 0x1_0000 + b1 as int * 0x100 + b2 as int
  }

  /** The four symbols of a 24-bit word: `code[(w >> 18) & 63]` and so on. */
  function Quad(w: nat): (q: string)
    requires w < 0x100_0000
    ensures |q| == 4
  {
    [Sym(w / 0x4_0000 % 64), Sym(w / 0x1000 % 64), Sym(w / 64 % 64), Sym(w % 64)]
  }

  const ZERO: Byte := 0 as char

  /** The Base64 encoding of a byte string (section 6.8 of RFC 2045). */
  function Encode(d: Bytes): string {
    if |d| == 0 then ""
    else if |d| == 1 then Quad(Word(d[0], ZERO, ZERO))[..2] + "=="
    else if |d| == 2 then Quad(Word(d[0], d[1], ZERO))[..3] + "="
    else Quad(Word(d[0], d[1], d[2])) + Encode(d[3..])
  }

  lemma LettersInParts()
    ensures LETTERS == "ABCDEFGHIJKLMNOPQRSTUVWXYZ" + "abcdefghijklmnopqrstuvwxyz" + "0123456789+/"
  {
  }

  lemma SymIsLetter(n: Sextet)
    ensures |LETTERS| == 64 && LETTERS[n] == Sym(n)
  {
    hide LETTERS;
    LettersInParts();
    SymIsCode(n);
  }

  /** The four symbols of a word are the letters of its bytes. */
  lemma QuadIs(b0: Byte, b1: Byte, b2: Byte)
    ensures Quad(Word(b0, b1, b2)) == Letters(b0, b1, b2)
  {
    hide LETTERS, Sym;
    var a, b, c := b0 as int, b1 as int, b2 as int;
    var x, y, z, t := a / 4, a % 4 * 16 + b / 16, b % 16 * 4 + c / 64, c % 64;
    assert Word(b0, b1, b2) == x * 0x4_0000 + y * 0x1000 + z * 64 + t;
    Digits64(x, y, z, t);
    SymIsLetter(x);
    SymIsLetter(y);
    SymIsLetter(z);
    SymIsLetter(t);
  }

  lemma Digits64(x: nat, y: nat, z: nat, t: nat)
    requires x < 64 && y < 64 && z < 64 && t < 64
    ensures var w := x * 0x4_0000 + y * 0x1000 + z * 64 + t;
      w / 0x4_0000 % 64 == x && w / 0x1000 % 64 == y && w / 64 % 64 == z && w % 64 == t
  {
    var w := x * 0x4_0000 + y * 0x1000 + z * 64 + t;
    assert w / 0x4_0000 == x;
    assert w / 0x1000 == x * 64 + y;
    assert w / 64 == x * 0x1000 + y * 64 + z;
    assert (x * 64 + y) * 64 + z == w / 64;
  }

  /** The encoding is the standard's. */
  lemma {:induction false} EncodeIsStandard(d: Bytes)
    ensures Encode(d) == Standard(d)
  {
    hide Quad, Word, Letters;
    if d == [] {
    } else if |d| == 1 {
      QuadIs(d[0], ZERO, ZERO);
    } else if |d| == 2 {
      QuadIs(d[0], d[1], ZERO);
    } else {
      QuadIs(d[0], d[1], d[2]);
      EncodeIsStandard(d[3..]);
    }
  }

  lemma {:induction false} EncodedLength(d: Bytes)
    ensures |Encode(d)| == (|d| + 2) / 3 * 4
  {
    hide Quad, Word;
    if |d| >= 3 { EncodedLength(d[3..]); }
  }

  /** The encoder takes the length through `unsigned` before its remainder by 3. */
  function Slack(dsiz: nat): (slack: nat)
    ensures slack < 3 && slack <= dsiz
  {
    dsiz % 0x1_0000_0000 % 3
  }

  /** ... which is the remainder it wants exactly when 2^32 goes into the length a multiple of 3 times. */
  lemma SlackIff(dsiz: nat)
    ensures Slack(dsiz) == dsiz % 3 <==> dsiz / 0x1_0000_0000 % 3 == 0
  {
    var q, r := dsiz / 0x1_0000_0000, dsiz % 0x1_0000_0000;
    assert dsiz == q * 0x5555_5555 * 3 + (q + r);
    assert dsiz % 3 == (q + r) % 3;
    assert (q + r) % 3 == (q % 3 + r % 3) % 3;
  }

  /** One past the last byte that the encoder reads for a length: whole groups of three, then the slack. */
  function ReadsUpTo(dsiz: nat): (end: nat)
    ensures end >= dsiz
  {
    (dsiz - Slack(dsiz) + 2) / 3 * 3 + Slack(dsiz)
  }

  /** So the encoder stays inside the data, and reads all of it, exactly when the remainder is right. */
  lemma ReadsDataIff(dsiz: nat)
    ensures ReadsUpTo(dsiz) == dsiz <==> Slack(dsiz) == dsiz % 3
  {
    hide Slack;
    WholeGroups(dsiz - Slack(dsiz));
    SameRemainder(dsiz, Slack(dsiz));
  }

  lemma WholeGroups(n: nat)
    ensures (n + 2) / 3 * 3 == n <==> n % 3 == 0
  {
  }

  lemma SameRemainder(n: nat, slack: nat)
    requires slack < 3 && slack <= n
    ensures (n - slack) % 3 == 0 <==> slack == n % 3
  {
  }

  /** The decode table: the symbol's value, B64EOF for '=' and NUL, B64NOP for anything else. */
  function Dec(c: char): (v: nat)
    ensures v < 64 || v == B64EOF || v == B64NOP
  {
    if 'A' <= c <= 'Z' then c as int - 'A' as int
    else if 'a' <= c <= 'z' then c as int - 'a' as int + 26
    else if '0' <= c <= '9' then c as int - '0' as int + 52
    else if c == '+' then 62
    else if c == '/' then 63
    else if c == '=' || c == NUL then B64EOF
    else B64NOP
  }

  lemma DecSym(n: Sextet)
    ensures Dec(Sym(n)) == n
  {
  }

  lemma SymDec(c: char)
    requires Dec(c) < 64
    ensures Sym(Dec(c)) == c
  {
  }

  /** A letter's value is its place in the alphabet. */
  lemma DecIsPlace(c: char)
    ensures if c in LETTERS then Dec(c) == IndexOf(LETTERS, c, 0) < 64 && c != '=' && c != NUL
            else if c == '=' || c == NUL then Dec(c) == B64EOF else Dec(c) == B64NOP
  {
    hide LETTERS, Sym, Dec;
    DecMarks(c);
    if c in LETTERS {
      var n :| 0 <= n < |LETTERS| && LETTERS[n] == c;
      SymIsLetter(0);
      SymIsLetter(n);
      DecSym(n);
      forall k | 0 <= k < n ensures LETTERS[k] != c {
        SymIsLetter(k);
        DecSym(k);
      }
      IndexOfIs(LETTERS, c, 0, n);
    } else if Dec(c) < 64 {
      SymDec(c);
      SymIsLetter(Dec(c));
    }
  }

  lemma DecMarks(c: char)
    ensures c == '=' || c == NUL <==> Dec(c) == B64EOF
  {
  }

  /** The sextets in front of the first '=' or NUL; other characters outside the alphabet are skipped. */
  function Sextets(s: string): seq<Sextet> {
    if s == "" || Dec(s[0]) == B64EOF then []
    else (if Dec(s[0]) == B64NOP then [] else [Dec(s[0])]) + Sextets(s[1..])
  }

  /** The decoder takes the values that the standard gives. */
  lemma {:induction false} SextetsAreValues(s: string)
    ensures Sextets(s) == Values(s)
  {
    hide LETTERS, Dec;
    if s == "" {
    } else {
      DecIsPlace(s[0]);
      SextetsAreValues(s[1..]);
    }
  }

  function Octet0(b1: Sextet, b2: Sextet): Byte { (b1 * 4 + b2 / 16) as char }
  function Octet1(b2: Sextet, b3: Sextet): Byte { (b2 % 16 * 16 + b3 / 4) as char }
  function Octet2(b3: Sextet, b4: Sextet): Byte { (b3 % 4 * 64 + b4) as char }

  /** The bytes that k sextets hold: floor(3k / 4) of them, a lone last sextet holding none. */
  function Unpack(v: seq<Sextet>): (d: Bytes)
    ensures |d| == |v| * 3 / 4
  {
    if |v| <= 1 then []
    else if |v| == 2 then [Octet0(v[0], v[1])]
    else if |v| == 3 then [Octet0(v[0], v[1]), Octet1(v[1], v[2])]
    else [Octet0(v[0], v[1]), Octet1(v[1], v[2]), Octet2(v[2], v[3])] + Unpack(v[4..])
  }

  /** The bytes read so far, and the symbols they encode to. */
  lemma EncodeStep(d: Bytes, i: nat)
    requires i + 3 <= |d|
    ensures Encode(d[i..]) == Quad(Word(d[i], d[i + 1], d[i + 2])) + Encode(d[i + 3..])
  {
    hide Quad, Word;
    assert d[i..][3..] == d[i + 3..];
  }

  /** The group of the last one or two bytes, with '=' where a byte is missing. */
  function LastGroup(d: Bytes, i: nat): (q: string)
    requires i < |d| < i + 3
    ensures |q| == 4
  {
    var w := if |d| - i == 2 then Word(d[i], d[i + 1], ZERO) else Word(d[i], ZERO, ZERO);
    [Quad(w)[0], Quad(w)[1], if |d| - i == 2 then Quad(w)[2] else '=', '=']
  }

  lemma EncodeSlack(d: Bytes, i: nat)
    requires i < |d| < i + 3
    ensures Encode(d[i..]) == LastGroup(d, i)
  {
    hide Quad, Word;
  }

  lemma SlackSplit(dsiz: nat)
    ensures ReadsUpTo(dsiz) == 3 * ((dsiz - Slack(dsiz) + 2) / 3) + Slack(dsiz) && Slack(dsiz) < 3 && Slack(dsiz) <= dsiz
  {
  }

  function Min(a: int, b: int): int { if a < b then a else b }

  /**
   * A buffer of `bsize` characters to which the symbols `out` were offered. While open it holds all
   * of them; once closed, as many as leave room for the NUL in its last place.
   */
  function Filled(was: string, bsize: nat, out: string): (now: string)
    requires 0 < bsize <= |was|
    ensures |now| == |was|
  {
    if |out| < bsize then out + was[|out|..] else out[..bsize - 1] + [NUL] + was[bsize..]
  }

  /** Offering one more group of four symbols to an open buffer. */
  lemma FilledMore(was: string, bsize: nat, out: string, q: string)
    requires |out| < bsize <= |was| && |q| == 4
    ensures Filled(Filled(was, bsize, out), bsize, out + q) == Filled(was, bsize, out + q)
  {
  }

  function Slot(was: string, bsize: nat, n: nat, q: string, k: nat): char
    requires n < bsize <= |was| && |q| == 4 && k < |was|
  {
    if k < n then was[k]
    else if n + 4 < bsize then (if k < n + 4 then q[k - n] else was[k])
    else if k < bsize - 1 then q[k - n]
    else if k == bsize - 1 then NUL else was[k]
  }

  /** A buffer equal to `Filled` place by place. */
  lemma FilledAt(now: string, was: string, bsize: nat, n: nat, q: string)
    requires n < bsize <= |was| == |now| && |q| == 4
    requires forall k :: 0 <= k < |was| ==> now[k] == Slot(was, bsize, n, q, k)
    ensures now == Filled(was, bsize, was[..n] + q)
  {
  }

  /** The group of three bytes in the middle of the data. */
  method StoreQuad(buf: array<char>, bsize: nat, n: nat, q: string) returns (open: bool)
    requires n < bsize <= buf.Length && |q| == 4
    modifies buf
    ensures open == (n + 4 < bsize)
    ensures buf[..] == Filled(old(buf[..]), bsize, old(buf[..])[..n] + q)
  {
    hide Filled;
    open := n + 4 < bsize;
    if open {
      buf[n], buf[n + 1], buf[n + 2], buf[n + 3] := q[0], q[1], q[2], q[3];
    } else {
      if n + 1 < bsize { buf[n] := q[0]; }
      if n + 2 < bsize { buf[n + 1] := q[1]; }
      if n + 3 < bsize { buf[n + 2] := q[2]; }
      buf[bsize - 1] := NUL;
    }
    FilledAt(buf[..], old(buf[..]), bsize, n, q);
  }

  /** The group of the last one or two bytes. */
  method StoreSlack(buf: array<char>, bsize: nat, n: nat, q: string) returns (open: bool)
    requires n < bsize <= buf.Length && |q| == 4
    modifies buf
    ensures open == (n + 4 < bsize)
    ensures buf[..] == Filled(old(buf[..]), bsize, old(buf[..])[..n] + q)
  {
    hide Filled;
    open := true;
    if n + 1 < bsize { buf[n] := q[0]; }
    if n + 2 < bsize { buf[n + 1] := q[1]; }
    if n + 3 < bsize { buf[n + 2] := q[2]; }
    if n + 3 < bsize { buf[n + 3] := q[3]; }
    if n + 4 >= bsize {
      buf[bsize - 1] := NUL;
      open := false;
    }
    FilledAt(buf[..], old(buf[..]), bsize, n, q);
  }

  /** What has been offered so far is what the buffer holds; `s` says whether it is still open. */
  ghost predicate Offered(now: string, was: string, bsiz: nat, out: string, s: bool)
    requires bsiz <= |was|
  {
    if bsiz == 0 then now == was && !s
    else now == Filled(was, bsiz, out) && s == (|out| < bsiz)
  }

  /** The same for a buffer that may be missing: the encoder then only counts. */
  ghost predicate Holds(buf: array?<char>, bsiz: nat, was: string, out: string, s: bool)
    reads buf
  {
    if buf == null then !s else bsiz <= |was| == buf.Length && Offered(buf[..], was, bsiz, out, s)
  }

  /** One group offered to the buffer, if it is still open. */
  method Offer(buf: array?<char>, bsiz: nat, n: nat, q: string, last: bool, s: bool, ghost was: string, ghost out: string)
    returns (s': bool)
    requires |q| == 4 && |out| == n && Holds(buf, bsiz, was, out, s)
    modifies buf
    ensures Holds(buf, bsiz, was, out + q, s')
  {
    s' := s;
    if s {
      assert buf[..][..n] == out;
      FilledMore(was, bsiz, out, q);
      if last {
        s' := StoreSlack(buf, bsiz, n, q);
      } else {
        s' := StoreQuad(buf, bsiz, n, q);
      }
    } else if buf != null && bsiz > 0 {
      FilledClosed(was, bsiz, out, q);
    }
  }

  /**
   * `base64_e` on the first `dsiz` bytes of `data`, and as many behind them as it goes on to read:
   * returns the length of the encoding of all those; a buffer of at least one character ends up
   * with the longest prefix of the encoding that leaves room for a NUL, and the NUL. `end` is one
   * past the last byte read.
   */
  method Base64E(buf: array?<char>, bsiz: nat, data: Bytes, dsiz: nat) returns (n: nat, ghost end: nat)
    requires buf != null ==> bsiz <= buf.Length
    requires ReadsUpTo(dsiz) <= |data|
    modifies buf
    ensures n == |Encode(data[..ReadsUpTo(dsiz)])|
    ensures end <= ReadsUpTo(dsiz) && (buf != null && n < bsiz ==> end == ReadsUpTo(dsiz))
    ensures buf != null && bsiz > 0 ==>
      var m := Min(n, bsiz - 1);
      buf[..] == Encode(data[..ReadsUpTo(dsiz)])[..m] + [NUL] + old(buf[..])[m + 1..]
    ensures buf != null && bsiz == 0 ==> buf[..] == old(buf[..])
  {
    hide Encode, Quad, Word, Holds, Offered, Filled, Slack, LastGroup, Min, ReadsUpTo;
    var s := buf != null && bsiz > 0;
    ghost var was := if buf != null then buf[..] else "";
    var slack := Slack(dsiz);
    SlackSplit(dsiz);
    var dsize := dsiz - slack;
    ghost var all, done := data[..ReadsUpTo(dsiz)], 0;
    ghost var groups := (dsize + 2) / 3;
    end := 0;
    var i := 0;
    n := 0;
    ghost var out := "";
    EncodeFrom(all, 0);
    OfferedNone(buf, bsiz);
    while i < dsize
      invariant i == 3 * done == end && done <= groups
      invariant n == |out| && Encode(all) == out + Encode(all[i..])
      invariant Holds(buf, bsiz, was, out, s)
    {
      var w := Word(data[i], data[i + 1], data[i + 2]);
      end := i + 3;
      EncodeStep(all, i);
      s := Offer(buf, bsiz, n, Quad(w), false, s, was, out);
      Assoc(out, Quad(w), Encode(all[i + 3..]));
      out := out + Quad(w);
      i, n := i + 3, n + 4;
      done := done + 1;
    }
    OpenWhileRoom(buf, bsiz, was, out, s);
    if slack > 0 {
      ghost var q := LastGroup(all, i);
      EncodeSlack(all, i);
      if s {
        end := i + slack;
        s := Offer(buf, bsiz, n, LastGroup(data[..i + slack], i), true, s, was, out);
      } else {
        StillHolds(buf, bsiz, was, out, q);
      }
      out := out + q;
      n := n + 4;
    } else {
      EncodeFrom(all, i);
    }
    HoldsAtEnd(buf, bsiz, was, out, s);
    if s { Terminate(buf, n); }
  }

  lemma OpenWhileRoom(buf: array?<char>, bsiz: nat, was: string, out: string, s: bool)
    requires Holds(buf, bsiz, was, out, s)
    ensures buf != null && |out| < bsiz ==> s
  {
  }

  lemma StillHolds(buf: array?<char>, bsiz: nat, was: string, out: string, q: string)
    requires Holds(buf, bsiz, was, out, false)
    ensures Holds(buf, bsiz, was, out + q, false)
  {
    if buf != null && bsiz > 0 { FilledClosed(was, bsiz, out, q); }
  }

  lemma EncodeFrom(data: Bytes, i: nat)
    requires i <= |data|
    ensures i == 0 ==> Encode(data) == "" + Encode(data[i..])
    ensures i == |data| ==> forall out: string :: out + Encode(data[i..]) == out
  {
    if i == 0 { assert data[0..] == data; }
  }

  method Terminate(buf: array<char>, n: nat)
    requires n < buf.Length
    modifies buf
    ensures buf[..] == old(buf[..])[n := NUL]
  {
    buf[n] := NUL;
  }

  lemma OfferedNone(buf: array?<char>, bsiz: nat)
    requires buf != null ==> bsiz <= buf.Length
    ensures Holds(buf, bsiz, if buf != null then buf[..] else "", "", buf != null && bsiz > 0)
  {
  }

  lemma HoldsAtEnd(buf: array?<char>, bsiz: nat, was: string, out: string, s: bool)
    requires Holds(buf, bsiz, was, out, s)
    ensures s ==> buf != null && |out| < buf.Length
    ensures buf != null && bsiz == 0 ==> buf[..] == was && !s
    ensures buf != null && bsiz > 0 ==>
      var m := Min(|out|, bsiz - 1);
      m < |was| && m <= |out| && (if s then buf[..][|out| := NUL] else buf[..]) == out[..m] + [NUL] + was[m + 1..]
  {
    if |out| < bsiz { assert out[..|out|] == out; }
  }

  lemma FilledClosed(was: string, bsize: nat, out: string, q: string)
    requires 0 < bsize <= |was| && |out| >= bsize
    ensures Filled(was, bsize, out + q) == Filled(was, bsize, out)
  {
    assert (out + q)[..bsize - 1] == out[..bsize - 1];
  }

  /**
   * `Base64::encode` of `dataLen` bytes: two passes, the first to size the buffer; no data gives
   * None. What lies behind the data is encoded too if the encoder reads it.
   */
  method EncodeBuffer(data: Bytes, dataLen: nat) returns (r: Option<array<char>>, encodedLen: nat)
    requires ReadsUpTo(dataLen) <= |data|
    ensures r.None? <==> dataLen == 0
    ensures r.None? ==> encodedLen == 0
    ensures r.Some? ==>
      var encoding := Standard(data[..ReadsUpTo(dataLen)]);
      encoding == Encode(data[..ReadsUpTo(dataLen)]) && fresh(r.value) && r.value[..] == encoding + [NUL] && encodedLen == |encoding|
    ensures Slack(dataLen) == dataLen % 3 ==> ReadsUpTo(dataLen) == dataLen
  {
    hide LETTERS, Standard, Encode;
    ReadsDataIff(dataLen);
    EncodeIsStandard(data[..ReadsUpTo(dataLen)]);
    if dataLen == 0 { return None, 0; }
    ghost var end;
    var size;
    size, end := Base64E(null, 0, data, dataLen);
    var buffer := new char[size + 1];
    var again;
    again, end := Base64E(buffer, size + 1, data, dataLen);
    buffer[size] := NUL;
    return Some(buffer), size;
  }

  /** The lazily filled table of `base64_d`. */
  method PrepareTable() returns (decode: array<nat>)
    ensures fresh(decode) && decode.Length == 256
    ensures forall c: Byte :: decode[c as int] == Dec(c)
  {
    decode := new nat[256];
    for i := 0 to 256
      invariant forall k :: 0 <= k < i ==> decode[k] == B64NOP
    {
      decode[i] := B64NOP;
    }
    for i := 0 to 64
      invariant forall k :: 0 <= k < 256 ==>
        decode[k] == if Dec(k as char) < i then Dec(k as char) else B64NOP
    {
      SymIsCode(i);
      DecSym(i);
      decode[CODE[i] as int] := i;
      forall c: Byte | Dec(c) == i ensures c == Sym(i) { SymDec(c); }
    }
    decode['=' as int] := B64EOF;
    decode[0] := B64EOF;
  }

  /** `while ((b = decode[*s++]) == B64NOP)`: the next significant character of a C string. */
  method Next(decode: array<nat>, s: Bytes, p: nat) returns (b: nat, p': nat)
    requires decode.Length == 256 && forall c: Byte :: decode[c as int] == Dec(c)
    requires p < |s| && NUL in s[p..]
    ensures p < p' <= |s|
    ensures b < 64 ==> Sextets(s[p..]) == [b] + Sextets(s[p'..]) && p' < |s| && NUL in s[p'..]
    ensures b >= 64 ==> b == B64EOF && Sextets(s[p..]) == []
  {
    hide Sextets, Dec;
    p' := p;
    b := B64NOP;
    while b == B64NOP
      invariant p <= p' <= |s|
      invariant b == B64NOP ==> p' < |s| && NUL in s[p'..] && Sextets(s[p..]) == Sextets(s[p'..])
      invariant b != B64NOP ==> p < p' && (b < 64 || b == B64EOF)
      invariant b < 64 ==> Sextets(s[p..]) == [b] + Sextets(s[p'..]) && p' < |s| && NUL in s[p'..]
      invariant b == B64EOF ==> Sextets(s[p..]) == []
      decreases |s| - p'
    {
      SextetsStep(s, p');
      b := decode[s[p'] as int];
      p' := p' + 1;
    }
  }

  lemma SextetsStep(s: Bytes, p: nat)
    requires p < |s| && NUL in s[p..]
    ensures var c := Dec(s[p]);
      && (c < 64 || c == B64EOF || c == B64NOP)
      && Sextets(s[p..]) == (if c == B64EOF then [] else if c == B64NOP then Sextets(s[p + 1..]) else [c] + Sextets(s[p + 1..]))
      && (c != B64EOF ==> p + 1 < |s| && NUL in s[p + 1..])
  {
    assert s[p..] == [s[p]] + s[p + 1..] && s[p..][1..] == s[p + 1..];
  }

  lemma {:induction false} UnpackSplit(v: seq<Sextet>, j: nat)
    requires 4 * j <= |v|
    ensures 3 * j <= |Unpack(v)| && Unpack(v) == Unpack(v)[..3 * j] + Unpack(v[4 * j..])
  {
    hide Unpack;
    if j == 0 {
      assert v[0..] == v;
    } else {
      UnpackSplit(v[4..], j - 1);
      assert v[4..][4 * (j - 1)..] == v[4 * j..];
      UnpackFirst(v);
      PrefixSplit(Unpack(v)[..3], Unpack(v[4..]), 3 * (j - 1), Unpack(v[4 * j..]));
    }
  }

  lemma PrefixSplit(a: string, b: string, k: nat, rest: string)
    requires k <= |b| && b == b[..k] + rest
    ensures a + b == (a + b)[..|a| + k] + rest
  {
    assert (a + b)[..|a| + k] == a + b[..k];
  }

  lemma UnpackFirst(v: seq<Sextet>)
    requires |v| >= 4
    ensures |Unpack(v)| >= 3 && Unpack(v) == Unpack(v)[..3] + Unpack(v[4..])
  {
    hide Octet0, Octet1, Octet2;
  }

  /** How many bytes `base64_d` stores in a buffer said to hold `bsiz`: whole groups of three. */
  function StoredBytes(total: nat, bsiz: nat): (n: nat)
    ensures n <= total
  {
    Min(total, (bsiz + 2) / 3 * 3)
  }

  /**
   * The promise at line 42 of Base64.cc, that nothing is stored beyond `bsiz`, is kept exactly when
   * the buffer takes everything or a multiple of three bytes.
   */
  lemma StoresWithinSizeIff(total: nat, bsiz: nat)
    ensures StoredBytes(total, bsiz) <= bsiz <==> bsiz >= total || bsiz % 3 == 0
  {
  }

  lemma StoresAll(total: nat)
    ensures StoredBytes(total, total + 1) == total
  {
  }

  /**
   * `base64_d` on a C string: returns the decoded length and stores that many bytes, up to the end
   * of the group that reaches `bsiz`. No character after the terminating NUL is read.
   */
  method Base64D(buf: array?<char>, bsiz: nat, b64s: Bytes) returns (total: nat)
    requires NUL in b64s
    requires buf != null ==> StoredBytes(|Unpack(Sextets(b64s))|, bsiz) <= buf.Length
    modifies buf
    ensures total == |Unpack(Sextets(b64s))|
    ensures buf != null ==>
      var m := StoredBytes(total, bsiz);
      buf[..m] == Unpack(Sextets(b64s))[..m] && forall k :: m <= k < buf.Length ==> buf[k] == old(buf[k])
  {
    hide Dec, Unpack, Sextets;
    var decode := PrepareTable();
    assert b64s[0..] == b64s;
    var len := CountSextets(decode, b64s);
    total, len := len * 3 / 4, len * 3 / 4;
    if buf == null || bsiz == 0 { return; }
    if len > bsiz { len := bsiz; }
    DecodeGroups(decode, buf, bsiz, len, b64s, Sextets(b64s));
  }

  /** The loop that decodes a group of four characters at a time. */
  method DecodeGroups(decode: array<nat>, buf: array<char>, bsiz: nat, len: nat, b64s: Bytes, ghost v: seq<Sextet>)
    requires decode.Length == 256 && forall c: Byte :: decode[c as int] == Dec(c)
    requires NUL in b64s && v == Sextets(b64s) && bsiz > 0 && len == Min(|Unpack(v)|, bsiz)
    requires StoredBytes(|Unpack(v)|, bsiz) <= buf.Length
    modifies buf
    ensures var m := StoredBytes(|Unpack(v)|, bsiz);
      buf[..m] == Unpack(v)[..m] && forall k :: m <= k < buf.Length ==> buf[k] == old(buf[k])
  {
    hide Dec, Octet0, Octet1, Octet2, Unpack, Sextets, StoredBytes, Min;
    NothingStored(|Unpack(v)|, bsiz);
    assert b64s[0..] == b64s && v[4 * 0..] == v;
    var b1: nat, b2: nat, b3: nat, b4: nat := B64EOF, B64EOF, B64EOF, B64EOF;
    var i: nat, p: nat := 0, 0;
    ghost var j: nat := 0;
    while i < len
      invariant i == 3 * j && i <= StoredBytes(|Unpack(v)|, bsiz) && 4 * j <= |v|
      invariant i < len ==> p < |b64s| && NUL in b64s[p..] && v[4 * j..] == Sextets(b64s[p..])
      invariant i >= len ==> i == StoredBytes(|Unpack(v)|, bsiz)
      invariant buf[..i] == Unpack(v)[..i]
      invariant forall c: Byte :: decode[c as int] == Dec(c)
      invariant forall k :: i <= k < buf.Length ==> buf[k] == old(buf[k])
      decreases len - i
    {
      GroupLength(|v|, bsiz, j);
      UnpackSplit(v, j);
      b1, b2, b3, b4, p := ReadGroup(decode, b64s, p, b2, b3, b4);
      ghost var rest := v[4 * j..];
      MinThree(|Unpack(rest)|);
      var more;
      i, more := StoreGroup(buf, i, b1, b2, b3, b4, rest);
      PrefixMore(Unpack(v), 3 * j, Unpack(rest), i);
      if !more { break; }
      j := j + 1;
    }
  }

  lemma NothingStored(total: nat, bsiz: nat)
    requires bsiz > 0
    ensures 0 >= Min(total, bsiz) ==> StoredBytes(total, bsiz) == 0
  {
  }

  lemma MinThree(n: nat)
    ensures Min(3, n) == if n < 3 then n else 3
  {
  }

  lemma PrefixMore(all: string, k: nat, rest: string, i: nat)
    requires k <= i <= |all| && all == all[..k] + rest && i - k <= |rest|
    ensures all[..k] + rest[..i - k] == all[..i]
  {
  }

  /** How the group at sextet 4j ends, for a string of k sextets and a buffer of `bsiz`. */
  lemma GroupLength(k: nat, bsiz: nat, j: nat)
    requires 4 * j <= k && 3 * j < Min(k * 3 / 4, bsiz)
    ensures k - 4 * j >= 2
    ensures var total, left := k * 3 / 4, k - 4 * j;
      && total == 3 * j + left * 3 / 4
      && 3 * j + Min(3, left * 3 / 4) <= StoredBytes(total, bsiz)
      && (left < 4 ==> 3 * j + left * 3 / 4 == StoredBytes(total, bsiz))
      && (3 * j + 3 >= Min(total, bsiz) && left >= 4 ==> 3 * j + 3 == StoredBytes(total, bsiz))
  {
  }

  /**
   * One turn of the reading half of the loop. `b2`, `b3` and `b4` come in with the values of the
   * turn before; with two characters still to come none of these can be mistaken for fresh ones.
   */
  method ReadGroup(decode: array<nat>, s: Bytes, p0: nat, stale2: nat, stale3: nat, stale4: nat)
    returns (b1: nat, b2: nat, b3: nat, b4: nat, p: nat)
    requires decode.Length == 256 && forall c: Byte :: decode[c as int] == Dec(c)
    requires p0 < |s| && NUL in s[p0..] && |Sextets(s[p0..])| >= 2
    ensures var rest := Sextets(s[p0..]);
      && p0 < p <= |s|
      && b1 == rest[0] && b2 == rest[1]
      && b3 == (if |rest| == 2 then B64EOF else rest[2])
      && (|rest| == 3 ==> b4 == B64EOF)
      && (|rest| >= 4 ==> b4 == rest[3] && p < |s| && NUL in s[p..] && Sextets(s[p..]) == rest[4..])
  {
    hide Dec, Sextets;
    p, b2, b3, b4 := p0, stale2, stale3, stale4;
    b1, p := Next(decode, s, p);
    if b1 != B64EOF { b2, p := Next(decode, s, p); }
    if b2 != B64EOF { b3, p := Next(decode, s, p); }
    if b3 != B64EOF { b4, p := Next(decode, s, p); }
  }

  /** The storing half of the loop: three bytes and on, or the last one or two and out. */
  method StoreGroup(buf: array<char>, i: nat, b1: Sextet, b2: Sextet, b3: nat, b4: nat, ghost rest: seq<Sextet>)
    returns (i': nat, more: bool)
    requires |rest| >= 2 && b1 == rest[0] && b2 == rest[1]
    requires b3 == (if |rest| == 2 then B64EOF else rest[2])
    requires if |rest| == 3 then b4 == B64EOF else |rest| >= 4 ==> b4 == rest[3]
    requires i + |Unpack(rest)| <= buf.Length || i + 3 <= buf.Length
    modifies buf
    ensures more <==> |rest| >= 4
    ensures i' == i + Min(3, |Unpack(rest)|)
    ensures buf[..i'] == old(buf[..i]) + Unpack(rest)[..i' - i]
    ensures forall k :: i' <= k < buf.Length ==> buf[k] == old(buf[k])
  {
    hide Octet0, Octet1, Octet2;
    i', more := i, false;
    if b1 < 64 && b2 < 64 && b3 < 64 && b4 < 64 {
      var w := b1 * 0x4_0000 + b2 * 0x1000 + b3 * 64 + b4;
      SplitWord(b1, b2, b3, b4);
      buf[i] := (w / 0x1_0000 % 256) as char;
      buf[i + 1] := (w / 0x100 % 256) as char;
      buf[i + 2] := (w % 256) as char;
      return i + 3, true;
    }
    if b1 == B64EOF || b2 == B64EOF { return; }
    buf[i'] := Octet0(b1, b2);
    i' := i' + 1;
    if b3 != B64EOF {
      buf[i'] := Octet1(b2, b3);
      i' := i' + 1;
      if b4 != B64EOF {
        assert false; // line 137 of Base64.cc: unreachable, four sextets make a full group
      }
    }
  }

  /** The shifts of the 24-bit word take out the same bits as the three octets. */
  lemma SplitWord(b1: Sextet, b2: Sextet, b3: Sextet, b4: Sextet)
    ensures var w := b1 * 0x4_0000 + b2 * 0x1000 + b3 * 64 + b4;
      && (w / 0x1_0000 % 256) as char == Octet0(b1, b2)
      && (w / 0x100 % 256) as char == Octet1(b2, b3)
      && (w % 256) as char == Octet2(b3, b4)
  {
    var x, y, z := b1 * 4 + b2 / 16, b2 % 16 * 16 + b3 / 4, b3 % 4 * 64 + b4;
    assert b1 * 0x4_0000 + b2 * 0x1000 + b3 * 64 + b4 == x * 0x1_0000 + y * 0x100 + z;
    Digits256(x, y, z);
  }

  lemma Digits256(x: nat, y: nat, z: nat)
    requires x < 256 && y < 256 && z < 256
    ensures var w := x * 0x1_0000 + y * 0x100 + z;
      w / 0x1_0000 % 256 == x && w / 0x100 % 256 == y && w % 256 == z
  {
    var w := x * 0x1_0000 + y * 0x100 + z;
    assert w / 0x1_0000 == x;
    assert w / 0x100 == x * 256 + y;
  }

  /** The first loop of `base64_d`, which counts the significant characters. */
  method CountSextets(decode: array<nat>, s: Bytes) returns (len: nat)
    requires decode.Length == 256 && forall c: Byte :: decode[c as int] == Dec(c)
    requires NUL in s
    ensures len == |Sextets(s)|
  {
    hide Sextets, Dec;
    len := 0;
    var p := 0;
    var c := B64NOP;
    assert s[0..] == s;
    while c != B64EOF
      invariant p <= |s|
      invariant c != B64EOF ==> p < |s| && NUL in s[p..] && |Sextets(s)| == len + |Sextets(s[p..])|
      invariant c == B64EOF ==> |Sextets(s)| == len
      decreases |s| - p
    {
      SextetsStep(s, p);
      c := decode[s[p] as int];
      p := p + 1;
      if c != B64EOF && c != B64NOP { len := len + 1; }
    }
  }

  /** `Base64::decode`: sized by a first pass, so everything fits; the length argument only rejects 0. */
  method DecodeBuffer(data: Bytes, dataLen0: nat) returns (r: Option<array<char>>, dataLen: nat)
    requires NUL in data
    ensures r.None? <==> dataLen0 == 0
    ensures r.None? ==> dataLen == 0
    ensures r.Some? ==>
      var d := Unpack(Sextets(data));
      Sextets(data) == Values(data) && fresh(r.value) && r.value[..] == d + [NUL] && dataLen == |d|
  {
    if dataLen0 == 0 { return None, 0; }
    hide Unpack, Sextets, StoredBytes, LETTERS, Values;
    SextetsAreValues(data);
    var size := Base64D(null, 0, data);
    var buffer := new char[size + 1];
    StoresAll(size);
    var again := Base64D(buffer, size + 1, data);
    ghost var d := Unpack(Sextets(data));
    assert buffer[..size] == d[..size] && d[..size] == d;
    buffer[size] := NUL;
    assert buffer[..size] == d && buffer[..] == buffer[..size] + [NUL];
    return Some(buffer), size;
  }
}
