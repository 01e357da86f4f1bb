/** Quoted CSV columns: how they are printed, and how a line is read back column by column. */
module Csv {
  import opened Text

  const SPECIALS := {'"', '\r', '\n'}

  predicate Special(c: char) { c in SPECIALS }

  /** What `quoteColumn` makes of one character. */
  function Escaped(c: char): string {
    if c == '"' then "\"\"" else if Special(c) then " " else [c]
  }

  /** What it puts between the quotes. */
  function Escape(text: string): string {
    if text == "" then "" else Escaped(text[0]) + Escape(text[1..])
  }

  function Quoted(text: string): string { "\"" + Escape(text) + "\"" }

  /** What is left of a text after printing: line ends have become spaces. */
  function Flat(text: string): (flat: string)
    ensures |flat| == |text|
    ensures forall i :: 0 <= i < |text| ==> flat[i] == if text[i] in "\r\n" then ' ' else text[i]
  {
    if text == "" then "" else [if text[0] == '\r' || text[0] == '\n' then ' ' else text[0]] + Flat(text[1..])
  }

  predicate Pair(s: string, k: nat) { k + 2 <= |s| && s[k] == '"' && s[k + 1] == '"' }

  /** `unescapeColumn`: a pair of quotes stands for one. */
  function Unescape(column: string): string {
    if column == "" then ""
    else if Pair(column, 0) then "\"" + Unescape(column[2..])
    else [column[0]] + Unescape(column[1..])
  }

  /** `find("\"\"", from)`. */
  function FindPair(s: string, from: nat): (i: nat)
    requires from <= |s|
    ensures from <= i <= |s|
    ensures i < |s| ==> Pair(s, i)
    ensures forall k :: from <= k < i ==> !Pair(s, k)
    decreases |s| - from
  {
    if from == |s| || Pair(s, from) then from else FindPair(s, from + 1)
  }

  /** `quoteColumn`: special characters are replaced in place. */
  method QuoteColumn(text: string) returns (quoted: string)
    ensures quoted == Quoted(text)
  {
    hide Escape, Escaped;
    var quotedText := text;
    var quotesPos := FindFirstOf(quotedText, SPECIALS, 0);
    ghost var done, rest := "", text;
    assert "" + Escape(rest) == Escape(rest);
    while quotesPos != |quotedText|
      invariant quotesPos <= |quotedText| && quotedText == done + rest && |done| <= quotesPos
      invariant Escape(text) == done + Escape(rest)
      invariant forall k :: |done| <= k < quotesPos ==> !Special(quotedText[k])
      invariant quotesPos < |quotedText| ==> Special(quotedText[quotesPos])
      decreases |rest|
    {
      var c := quotedText[quotesPos];
      ghost var m := quotesPos - |done|;
      EscapedIs(c);
      EscapeOne(quotedText, done, rest, m);
      done, rest := done + rest[..m] + Escaped(c), rest[m + 1..];
      if c == '"' {
        quotedText := quotedText[..quotesPos] + "\"\"" + quotedText[quotesPos + 1..];
        quotesPos := quotesPos + 2;
      } else {
        quotedText := quotedText[..quotesPos] + " " + quotedText[quotesPos + 1..];
        quotesPos := quotesPos + 1;
      }
      if quotesPos >= |quotedText| { break; }
      quotesPos := FindFirstOf(quotedText, SPECIALS, quotesPos);
    }
    EscapeEnd(quotedText, done, rest);
    return "\"" + quotedText + "\"";
  }

  lemma EscapedIs(c: char)
    requires Special(c)
    ensures Escaped(c) == if c == '"' then "\"\"" else " "
  {
  }

  /** Ordinary characters stay, one special character is replaced. */
  lemma EscapeOne(word: string, done: string, rest: string, m: nat)
    requires word == done + rest && m < |rest| && Special(rest[m])
    requires forall k :: |done| <= k < |done| + m ==> !Special(word[k])
    ensures var sub := Escaped(rest[m]);
      && done + Escape(rest) == done + rest[..m] + sub + Escape(rest[m + 1..])
      && word[..|done| + m] + sub + word[|done| + m + 1..] == done + rest[..m] + sub + rest[m + 1..]
  {
    hide Special, Escape, Escaped;
    EscapeUpTo(word, done, rest, m);
    CutInSecond(word, done, rest, m);
    EscapeFirst(rest[m..]);
    Assoc4(done, rest[..m], Escaped(rest[m]), Escape(rest[m + 1..]));
  }

  lemma EscapeUpTo(word: string, done: string, rest: string, m: nat)
    requires word == done + rest && m <= |rest|
    requires forall k :: |done| <= k < |done| + m ==> !Special(word[k])
    ensures Escape(rest) == rest[..m] + Escape(rest[m..])
  {
    hide Escape, Special;
    forall k | 0 <= k < m ensures !Special(rest[k]) { assert rest[k] == word[|done| + k]; }
    EscapeSkip(rest, m);
  }

  lemma EscapeFirst(t: string)
    requires t != ""
    ensures Escape(t) == Escaped(t[0]) + Escape(t[1..])
  {
  }

  lemma {:induction false} EscapeSkip(rest: string, m: nat)
    requires m <= |rest| && forall k :: 0 <= k < m ==> !Special(rest[k])
    ensures Escape(rest) == rest[..m] + Escape(rest[m..])
  {
    hide Escape, Escaped, Special;
    if m == 0 {
      assert rest[0..] == rest && rest[..0] == "" && "" + Escape(rest) == Escape(rest);
    } else {
      EscapeSkip(rest[1..], m - 1);
      EscapeFirst(rest);
      EscapedPlain(rest[0]);
      assert rest[1..][m - 1..] == rest[m..];
      Assoc([rest[0]], rest[1..m], Escape(rest[m..]));
      assert rest[1..][..m - 1] == rest[1..m] && [rest[0]] + rest[1..m] == rest[..m];
    }
  }

  lemma EscapedPlain(c: char)
    ensures !Special(c) ==> Escaped(c) == [c]
  {
  }

  lemma EscapeEnd(word: string, done: string, rest: string)
    requires word == done + rest
    ensures |done| == |word| || (forall k :: |done| <= k < |word| ==> !Special(word[k])) ==> done + Escape(rest) == word
  {
    if |done| == |word| || forall k :: |done| <= k < |word| ==> !Special(word[k]) {
      EscapeUpTo(word, done, rest, |rest|);
      assert rest[..|rest|] == rest;
    }
  }

  /** `unescapeColumn`: the first quote of each pair is erased in place. */
  method UnescapeColumn(column: string) returns (clean: string)
    ensures clean == Unescape(column)
  {
    hide Unescape, Pair;
    if column == "" { UnescapeNone(); return ""; }
    clean := column;
    var startPos := FindPair(clean, 0);
    ghost var n: nat := 0;
    assert clean[0..] == column && clean[..0] == "" && "" + Unescape(column) == Unescape(column);
    while startPos != |clean|
      invariant n <= startPos <= |clean|
      invariant Unescape(column) == clean[..n] + Unescape(clean[n..])
      invariant forall k :: n <= k < startPos ==> !Pair(clean, k)
      invariant startPos < |clean| ==> Pair(clean, startPos)
      decreases |clean| - n
    {
      UnescapeOne(clean, n, startPos);
      clean := clean[..startPos] + clean[startPos + 1..];
      startPos := startPos + 1;
      n := startPos;
      if startPos > |clean| { break; }
      startPos := FindPair(clean, startPos);
    }
    UnescapeEnd(clean, n);
  }

  lemma UnescapeNone()
    ensures Unescape("") == ""
  {
  }

  lemma {:induction false} UnescapeSkip(s: string, n: nat, m: nat)
    requires n <= m <= |s| && forall k :: n <= k < m ==> !Pair(s, k)
    ensures Unescape(s[n..]) == s[n..m] + Unescape(s[m..])
    decreases m - n
  {
    if n < m {
      UnescapeSkip(s, n + 1, m);
      assert s[n..][1..] == s[n + 1..] && s[n..m] == [s[n]] + s[n + 1..m];
      assert Pair(s[n..], 0) == Pair(s, n);
    }
  }

  lemma UnescapeOne(s: string, n: nat, m: nat)
    requires n <= m <= |s| && Pair(s, m) && forall k :: n <= k < m ==> !Pair(s, k)
    ensures m + 2 <= |s|
    ensures var t := s[..m] + s[m + 1..];
      s[..n] + Unescape(s[n..]) == t[..m + 1] + Unescape(t[m + 1..])
  {
    hide Unescape, Pair;
    PairAt(s, m);
    UnescapeSkip(s, n, m);
    var t := s[..m] + s[m + 1..];
    assert t[m + 1..] == s[m + 2..] && t[..m + 1] == s[..n] + s[n..m] + "\"";
  }

  lemma PairAt(s: string, m: nat)
    requires Pair(s, m)
    ensures m + 2 <= |s| && s[m + 1] == '"' && Unescape(s[m..]) == "\"" + Unescape(s[m + 2..])
  {
    assert s[m..][2..] == s[m + 2..] && Pair(s[m..], 0);
  }

  lemma UnescapeEnd(s: string, n: nat)
    requires n <= |s|
    ensures (forall k :: n <= k < |s| ==> !Pair(s, k)) ==> s[..n] + Unescape(s[n..]) == s
    ensures n == |s| ==> s[..n] + Unescape(s[n..]) == s
  {
    if forall k :: n <= k < |s| ==> !Pair(s, k) {
      UnescapeSkip(s, n, |s|);
      assert s[|s|..] == "" && s[..n] + s[n..] == s;
    }
    if n == |s| { assert s[n..] == ""; }
  }

  /** A printed text stands between quotes (section 2 of RFC 4180), each quote in it twice and each line end a space. */
  lemma QuotedText(a: string, c: char, b: string)
    ensures Quoted("") == "\"\""
    ensures Escape(a + [c] + b) == Escape(a) + (if c == '"' then "\"\"" else if c in "\r\n" then " " else [c]) + Escape(b)
    ensures Quoted(a) == "\"" + Escape(a) + "\""
  {
    EscapeOneChar(c);
    hide Escape;
    EscapeAppend(a + [c], b);
    EscapeAppend(a, [c]);
  }

  lemma EscapeOneChar(c: char)
    ensures Escape([c]) == if c == '"' then "\"\"" else if c in "\r\n" then " " else [c]
    ensures Escape("") == "" && Quoted("") == "\"\""
  {
    assert [c][1..] == "";
  }

  lemma {:induction false} EscapeAppend(a: string, b: string)
    ensures Escape(a + b) == Escape(a) + Escape(b)
  {
    if a == "" {
      assert a + b == b;
    } else {
      assert (a + b)[0] == a[0] && (a + b)[1..] == a[1..] + b;
      EscapeAppend(a[1..], b);
      Assoc(Escaped(a[0]), Escape(a[1..]), Escape(b));
    }
  }

  /** Printing and reading one text gives it back, with line ends as spaces. */
  lemma {:induction false} UnescapeEscape(text: string)
    ensures Unescape(Escape(text)) == Flat(text)
  {
    if text == "" {
    } else {
      var e := Escape(text);
      UnescapeEscape(text[1..]);
      if text[0] == '"' {
        assert e[2..] == Escape(text[1..]);
      } else {
        assert e[1..] == Escape(text[1..]);
      }
    }
  }
}
