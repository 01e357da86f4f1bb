/**
 * `asciiOnly`: a header value with bytes outside ASCII becomes an encoded word (section 4.2 of
 * RFC 2047), made from the quoted-printable encoding by two rewriting loops.
 */
module EncodedWord {
  import opened Text
  import opened QuotedPrintable
  import opened QpContent
  import Size = QuotedPrintableSize
  import RoundTrip = QuotedPrintableRoundTrip

  const SPECIALS := {'?', ' ', '_'}

  predicate Special(c: char) { c in SPECIALS }

  /** What the first loop makes of one character. */
  function Replacement(c: char): string {
    if c == '?' then "=3F" else if c == ' ' then "_" else if c == '_' then "=5F" else [c]
  }

  function Replaced(t: string): string {
    if t == "" then "" else Replacement(t[0]) + Replaced(t[1..])
  }

  /** What the second loop makes of a text: soft breaks erased, left to right. */
  function Unbroken(t: string): string {
    if t == "" then ""
    else if SOFT <= t then Unbroken(t[2..])
    else [t[0]] + Unbroken(t[1..])
  }

  /** The text of an encoded word, byte by byte. */
  function WordAtom(c: Byte): string {
    if Special(c) then Replacement(c) else Atom(c)
  }

  function WordText(s: Bytes): string {
    if s == [] then "" else WordAtom(s[0]) + WordText(s[1..])
  }

  predicate IsAscii(s: string) { forall c :: c in s ==> c as int < 128 }

  const OPEN := "=?UTF-8?Q?"
  const CLOSE := "?="

  /** The result of `asciiOnly`, which goes through C strings. */
  function AsciiOnly(value: Bytes): string {
    if !IsAscii(value) && Encodable(value) then OPEN + WordText(value) + CLOSE else CStr(value)
  }

  predicate SoftAt(s: string, k: nat) {
    k + 2 <= |s| && s[k] == '=' && s[k + 1] == '\n'
  }

  function FindSoft(s: string, from: nat): (i: nat)
    requires from <= |s|
    ensures from <= i <= |s|
    ensures i < |s| ==> SoftAt(s, i)
    ensures forall k :: from <= k < i ==> !SoftAt(s, k)
    decreases |s| - from
  {
    if from == |s| || SoftAt(s, from) then from else FindSoft(s, from + 1)
  }

  lemma {:induction false} ReplacedPlain(a: string, b: string)
    requires forall i :: 0 <= i < |a| ==> !Special(a[i])
    ensures Replaced(a + b) == a + Replaced(b)
  {
    if a == "" {
      assert a + b == b;
    } else {
      assert (a + b)[0] == a[0] && (a + b)[1..] == a[1..] + b;
      ReplacedPlain(a[1..], b);
    }
  }

  /** The first loop: each special character found from `extraPos` on is replaced in place. */
  method ReplaceSpecials(encoded: string) returns (word: string)
    ensures word == Replaced(encoded)
  {
    hide Replaced, Replacement, SPECIALS;
    word := encoded;
    var extraPos := FindFirstOf(word, SPECIALS, 0);
    ghost var done, rest := "", encoded;
    assert done + Replaced(rest) == Replaced(rest);
    while extraPos != |word|
      invariant extraPos <= |word| && word == done + rest
      invariant Replaced(encoded) == done + Replaced(rest)
      invariant |done| <= extraPos && forall k :: |done| <= k < extraPos ==> !Special(word[k])
      invariant extraPos < |word| ==> Special(word[extraPos])
      decreases |rest|
    {
      var c := word[extraPos];
      ghost var m := extraPos - |done|;
      ReplaceOne(word, done, rest, m);
      ReplacementIs(c);
      done, rest := done + rest[..m] + Replacement(c), rest[m + 1..];
      word := word[..extraPos] + Replacement(c) + word[extraPos + 1..];
      if c == ' ' {
        if extraPos + 1 < |word| {
          extraPos := extraPos + 1;
        } else {
          break;
        }
      } else {
        assert word[extraPos + 2] == Replacement(c)[2];
        extraPos := extraPos + 2;
      }
      extraPos := FindFirstOf(word, SPECIALS, extraPos);
    }
    SkipOrdinary(word, done, rest, |rest|);
    ReplacedNone(rest[|rest|..]);
  }

  lemma ReplacementIs(c: char)
    requires Special(c)
    ensures |Replacement(c)| == if c == ' ' then 1 else 3
    ensures c != ' ' ==> !Special(Replacement(c)[2])
  {
  }

  /** One special character replaced: what is done and what is left, before and after. */
  lemma ReplaceOne(word: string, done: string, rest: string, m: nat)
    requires word == done + rest && m < |rest|
    requires forall k :: |done| <= k < |done| + m ==> !Special(word[k])
    ensures var done' := done + rest[..m] + Replacement(rest[m]);
      && done + Replaced(rest) == done' + Replaced(rest[m + 1..])
      && word[..|done| + m] + Replacement(rest[m]) + word[|done| + m + 1..] == done' + rest[m + 1..]
      && word[|done| + m] == rest[m]
  {
    hide Replaced, Replacement, Special;
    SkipOrdinary(word, done, rest, m);
    CutInSecond(word, done, rest, m);
    ReplacedFirst(rest[m..]);
    Assoc4(done, rest[..m], Replacement(rest[m]), Replaced(rest[m + 1..]));
  }

  lemma ReplacedFirst(t: string)
    requires t != ""
    ensures Replaced(t) == Replacement(t[0]) + Replaced(t[1..])
  {
  }

  lemma ReplacedNone(t: string)
    requires t == ""
    ensures Replaced(t) == ""
  {
  }

  lemma SkipOrdinary(word: string, done: string, rest: string, m: nat)
    requires word == done + rest && m <= |rest|
    requires forall k :: |done| <= k < |done| + m ==> !Special(word[k])
    ensures Replaced(rest) == rest[..m] + Replaced(rest[m..])
  {
    hide Replaced, Special;
    OrdinaryThere(word, done, rest, m);
    SkipFirst(rest, m);
  }

  lemma OrdinaryThere(word: string, done: string, rest: string, m: nat)
    requires word == done + rest && m <= |rest|
    requires forall k :: |done| <= k < |done| + m ==> !Special(word[k])
    ensures forall i :: 0 <= i < m ==> !Special(rest[i])
  {
    hide Special;
    forall i | 0 <= i < m ensures !Special(rest[i]) { assert rest[i] == word[|done| + i]; }
  }

  lemma {:induction false} SkipFirst(rest: string, m: nat)
    requires m <= |rest| && forall i :: 0 <= i < m ==> !Special(rest[i])
    ensures Replaced(rest) == rest[..m] + Replaced(rest[m..])
  {
    hide Replaced, Special;
    ReplacedPlain(rest[..m], rest[m..]);
    assert rest[..m] + rest[m..] == rest;
  }

  lemma {:induction false} UnbrokenPlain(t: string, m: nat)
    requires m <= |t| && forall k :: 0 <= k < m ==> !SoftAt(t, k)
    ensures Unbroken(t) == t[..m] + Unbroken(t[m..])
    decreases |t|
  {
    hide Unbroken, SoftAt;
    if m == 0 {
      assert t[0..] == t;
    } else {
      assert !SoftAt(t, 0);
      UnbrokenFirst(t);
      forall k | 0 <= k < m - 1 ensures !SoftAt(t[1..], k) { SoftShift(t, k); }
      UnbrokenPlain(t[1..], m - 1);
      assert t[1..][m - 1..] == t[m..] && t[..m] == [t[0]] + t[1..][..m - 1];
      Assoc([t[0]], t[1..][..m - 1], Unbroken(t[m..]));
    }
  }

  lemma SoftShift(t: string, k: nat)
    requires t != ""
    ensures SoftAt(t[1..], k) <==> SoftAt(t, k + 1)
  {
  }

  lemma UnbrokenFirst(t: string)
    requires t != "" && !SoftAt(t, 0)
    ensures Unbroken(t) == [t[0]] + Unbroken(t[1..])
  {
  }

  /** The second loop: every "=\n" found from `extraPos` on is erased. */
  method EraseSoftBreaks(encoded: string) returns (word: string)
    ensures word == Unbroken(encoded)
  {
    hide Unbroken;
    word := encoded;
    var extraPos := FindSoft(word, 0);
    ghost var done, rest := "", encoded;
    assert "" + Unbroken(encoded) == Unbroken(encoded);
    while extraPos != |word|
      invariant |done| <= extraPos <= |word| && word == done + rest
      invariant Unbroken(encoded) == done + Unbroken(rest)
      invariant extraPos == FindSoft(word, |done|)
      decreases |rest|
    {
      ghost var m := extraPos - |done|;
      SkipPlain(word, done, rest, m);
      SoftFirst(rest[m..]);
      ghost var left := rest[m..][2..];
      assert word[..extraPos] == done + rest[..m] && word[extraPos + 2..] == left;
      done, rest := done + rest[..m], left;
      word := word[..extraPos] + word[extraPos + 2..];
      extraPos := FindSoft(word, extraPos);
    }
    SkipPlain(word, done, rest, |rest|);
    UnbrokenNone(rest[|rest|..]);
  }

  lemma SkipPlain(word: string, done: string, rest: string, m: nat)
    requires word == done + rest && m <= |rest| && FindSoft(word, |done|) == |done| + m
    ensures Unbroken(rest) == rest[..m] + Unbroken(rest[m..])
    ensures m < |rest| ==> SOFT <= rest[m..]
  {
    forall k | 0 <= k < m ensures !SoftAt(rest, k) { assert !SoftAt(word, |done| + k); }
    UnbrokenPlain(rest, m);
    if m < |rest| { assert SoftAt(word, |done| + m); }
  }

  lemma SoftFirst(t: string)
    requires SOFT <= t
    ensures Unbroken(t) == Unbroken(t[2..])
  {
  }

  lemma UnbrokenNone(t: string)
    requires t == ""
    ensures Unbroken(t) == ""
  {
  }

  /** Replacing, then erasing the soft breaks, leaves the text of the encoded word. */
  lemma {:induction false} RewriteEncoding(s: Bytes, lineLen: nat, ws: bool)
    requires lineLen <= QP_LINE_MAX
    ensures Unbroken(Replaced(Encode(s, lineLen, ws))) == WordText(s)
  {
    if s == [] {
    } else {
      RewriteEncoding(s[1..], NextLen(s[0], lineLen, ws), IsWs(s[0]));
      RewriteByte(s, lineLen, ws);
    }
  }

  lemma RewriteByte(s: Bytes, lineLen: nat, ws: bool)
    requires s != [] && lineLen <= QP_LINE_MAX
    ensures Unbroken(Replaced(Encode(s, lineLen, ws)))
         == WordAtom(s[0]) + Unbroken(Replaced(Encode(s[1..], NextLen(s[0], lineLen, ws), IsWs(s[0]))))
  {
    hide Replaced, Unbroken, WordAtom, Encode;
    var rest := Encode(s[1..], NextLen(s[0], lineLen, ws), IsWs(s[0]));
    var t := Atom(s[0]) + rest;
    RewriteAtom(s[0], rest);
    EncodeFirst(s, lineLen, ws);
    if Cuts(s[0], lineLen, ws) {
      assert SOFT + Atom(s[0]) + rest == SOFT + t;
      RewriteSoft(t);
    } else {
      assert "" + Atom(s[0]) + rest == t;
    }
  }

  lemma RewriteSoft(t: string)
    ensures Unbroken(Replaced(SOFT + t)) == Unbroken(Replaced(t))
  {
    var r := Replaced(t);
    ReplacedPlain(SOFT, t);
    assert SOFT <= SOFT + r && (SOFT + r)[2..] == r;
  }

  lemma RewriteAtom(c: Byte, rest: string)
    ensures Unbroken(Replaced(Atom(c) + rest)) == WordAtom(c) + Unbroken(Replaced(rest))
  {
    var r := Replaced(rest);
    if Simple(c) {
      assert (Atom(c) + rest)[1..] == rest;
      assert Replaced(Atom(c) + rest) == Replacement(c) + r;
    } else {
      HexIsAlnum(c as int / 16);
      HexIsAlnum(c as int % 16);
      ReplacedPlain(Atom(c), rest);
    }
    NoSoftInAtom(WordAtom(c), r);
  }

  lemma NoSoftInAtom(a: string, r: string)
    requires forall k :: 0 <= k < |a| && a[k] == '=' ==> k + 1 < |a| && a[k + 1] != '\n'
    ensures Unbroken(a + r) == a + Unbroken(r)
  {
    var t := a + r;
    forall k | 0 <= k < |a| ensures !SoftAt(t, k) { assert t[k] == a[k]; }
    UnbrokenPlain(t, |a|);
    assert t[|a|..] == r && t[..|a|] == a;
  }

  /** `asciiOnly`. */
  method MakeAsciiOnly(value: Bytes) returns (r: string)
    ensures r == AsciiOnly(value)
  {
    hide Encode, SoftBreaks, Unquoted, Replaced, Unbroken, WordText;
    var isAscii, pos := true, 0;
    while pos < |value|
      invariant pos <= |value| && isAscii
      invariant forall k :: 0 <= k < pos ==> value[k] as int < 128
    {
      if value[pos] as int >= 128 {
        isAscii := false;
        break;
      }
      pos := pos + 1;
    }
    assert isAscii == IsAscii(value) by {
      if !isAscii { assert value[pos] in value; }
    }
    var encoded: Option<array<char>>, wordLen := None, |value|;
    if !isAscii {
      encoded, wordLen := EncodeBuffer(value);
      Size.FitsIffBreaksPaidFor(value);
    }
    if encoded.None? { return CStr(value); }
    EncodeIsPrintable(value, 0, false);
    CStrOfBuffer(encoded.value[..], wordLen);
    var word := ReplaceSpecials(CStr(encoded.value[..]));
    word := EraseSoftBreaks(word);
    RewriteEncoding(value, 0, false);
    r := OPEN + word + CLOSE;
  }

  lemma {:induction false} CStrOfBuffer(buffer: string, n: nat)
    requires n < |buffer| && buffer[n] == NUL && NUL !in buffer[..n]
    ensures CStr(buffer) == buffer[..n]
  {
    if n == 0 {
    } else {
      assert buffer[..n] == [buffer[0]] + buffer[1..][..n - 1];
      CStrOfBuffer(buffer[1..], n - 1);
    }
  }

  /** How a reader takes the text of a "Q" encoded word (section 4.2 of RFC 2047). */
  function QDecode(t: string): string {
    if t == "" then ""
    else if t[0] == '=' && |t| >= 3 then [Strtoul16(t[1], t[2]) as char] + QDecode(t[3..])
    else [if t[0] == '_' then ' ' else t[0]] + QDecode(t[1..])
  }

  lemma {:induction false} WordTextDecodes(s: Bytes)
    ensures QDecode(WordText(s)) == s
    ensures ' ' !in WordText(s) && '?' !in WordText(s)
  {
    if s == [] {
    } else {
      var c, rest := s[0], WordText(s[1..]);
      WordTextDecodes(s[1..]);
      WordAtomDecodes(c, rest);
      assert s == [c] + s[1..];
    }
  }

  lemma WordAtomDecodes(c: Byte, rest: string)
    ensures QDecode(WordAtom(c) + rest) == [c] + QDecode(rest)
    ensures ' ' !in WordAtom(c) && '?' !in WordAtom(c)
  {
    var t := WordAtom(c) + rest;
    if |WordAtom(c)| == 1 {
      assert t[1..] == rest;
    } else {
      if !Special(c) {
        HexIsAlnum(c as int / 16);
        HexIsAlnum(c as int % 16);
        RoundTrip.StrtoulOfHex(c as int);
      }
      assert t[3..] == rest;
    }
  }

  /** What section 4.2 of RFC 2047 allows in the text of a word: printable ASCII without spaces. */
  predicate WordChars(t: string) {
    forall c :: c in t ==> '!' <= c <= '~'
  }

  /** Tabs and line feeds go through unquoted, and nothing else that the text of a word must not have. */
  lemma {:induction false} WordCharsIff(value: Bytes)
    ensures WordChars(WordText(value)) <==> '\t' !in value && '\n' !in value
  {
    hide WordAtom;
    if value == [] {
    } else {
      var c, rest := value[0], WordText(value[1..]);
      WordCharsIff(value[1..]);
      WordAtomChars(c);
      assert value == [c] + value[1..];
      assert WordChars(WordAtom(c) + rest) <==> WordChars(WordAtom(c)) && WordChars(rest) by {
        forall x ensures x in WordAtom(c) + rest <==> x in WordAtom(c) || x in rest {}
      }
    }
  }

  lemma WordAtomChars(c: Byte)
    ensures WordChars(WordAtom(c)) <==> c != '\t' && c != '\n'
  {
    if Simple(c) && !Special(c) {
      assert c in WordAtom(c);
    } else if !Special(c) {
      HexIsAlnum(c as int / 16);
      HexIsAlnum(c as int % 16);
    }
  }

  /**
   * A NUL-free value comes back as it is, or as an encoded word of its own ASCII text, without space
   * or "?", that a reader decodes to exactly the value. A value with bytes outside ASCII becomes a
   * word exactly when the quoted-printable encoder has room for it.
   */
  lemma EncodedWordRoundTrip(value: Bytes)
    requires NUL !in value
    ensures var r := AsciiOnly(value);
      if (forall c :: c in value ==> c as int < 128) || !Encodable(value) then r == value
      else exists text :: r == "=?UTF-8?Q?" + text + "?=" && ' ' !in text && '?' !in text && QDecode(text) == value
    ensures (forall c :: c in AsciiOnly(value) ==> c as int < 128) <==> (forall c :: c in value ==> c as int < 128) || Encodable(value)
  {
    hide Encodable, WordText, QDecode;
    if !IsAscii(value) && Encodable(value) {
      WordTextDecodes(value);
      WordTextIsAscii(value);
      assert AsciiOnly(value) == "=?UTF-8?Q?" + WordText(value) + "?=";
      assert forall c :: c in AsciiOnly(value) ==> c in "=?UTF-8?Q?" || c in WordText(value) || c in "?=";
    }
  }

  lemma {:induction false} WordTextIsAscii(value: Bytes)
    ensures IsAscii(WordText(value))
  {
    if value == [] {
    } else {
      WordTextIsAscii(value[1..]);
      var c := value[0];
      if !Special(c) && !Simple(c) {
        HexIsAlnum(c as int / 16);
        HexIsAlnum(c as int % 16);
      }
    }
  }
}
