/** Characters, C strings and the CRLF line structure that every other module speaks of. */
module Text {

  /** One octet of a message. Text is `string`; `Byte` marks data whose codes must fit 8 bits. */
  type Byte = c: char | c as int < 256 witness 'a'
  type Bytes = seq<Byte>

  datatype Option<+T> = None | Some(value: T)

  const NUL: Byte := 0 as char
  const CRLF := "\r\n"

  predicate IsWs(c: char) { c == ' ' || c == '\t' }

  /** What a reader of the NUL-terminated C string at the start of `s` sees. */
  function CStr(s: string): (r: string)
    ensures r <= s && NUL !in r
    ensures r == s <==> NUL !in s
  {
    if s == "" || s[0] == NUL then "" else [s[0]] + CStr(s[1..])
  }

  /** `s[i]` of a std::string, which has a NUL at its end. */
  function At(s: string, i: nat): char
    requires i <= |s|
  {
    if i < |s| then s[i] else NUL
  }

  /** Index of the first `c` in `s` at or after `from`, or |s| when there is none. */
  function IndexOf(s: string, c: char, from: nat): (i: nat)
    requires from <= |s|
    ensures from <= i <= |s|
    ensures i < |s| ==> s[i] == c
    ensures c !in s[from..i]
    decreases |s| - from
  {
    if from == |s| || s[from] == c then from
    else
      var i := IndexOf(s, c, from + 1);
      assert s[from..i] == [s[from]] + s[from + 1..i];
      i
  }

  /** `find_first_of`: index of the first of `chars` in `s` at or after `from`, or |s|. */
  function FindFirstOf(s: string, chars: set<char>, from: nat): (i: nat)
    requires from <= |s|
    ensures from <= i <= |s|
    ensures i < |s| ==> s[i] in chars
    ensures forall k :: from <= k < i ==> s[k] !in chars
    decreases |s| - from
  {
    if from == |s| || s[from] in chars then from else FindFirstOf(s, chars, from + 1)
  }

  lemma {:induction false} IndexOfIs(s: string, c: char, from: nat, i: nat)
    requires from <= i <= |s| && (i < |s| ==> s[i] == c)
    requires forall k :: from <= k < i ==> s[k] != c
    ensures IndexOf(s, c, from) == i
    decreases i - from
  {
    if from == i {
    } else {
      IndexOfIs(s, c, from + 1, i);
    }
  }

  predicate StartsBreak(t: string) { |t| >= 2 && t[0] == '\r' && t[1] == '\n' }

  /** The lines of a text whose line break is CRLF; n breaks give n + 1 lines. */
  function Lines(t: string): (ls: seq<string>)
    ensures |ls| > 0
    decreases |t|
  {
    if t == "" then [""]
    else if StartsBreak(t) then [""] + Lines(t[2..])
    else
      var rest := Lines(t[1..]);
      [[t[0]] + rest[0]] + rest[1..]
  }

  /** The lines put back together, each separated from the next by `sep`. */
  function Join(ls: seq<string>, sep: string): string {
    if ls == [] then ""
    else if |ls| == 1 then ls[0]
    else ls[0] + sep + Join(ls[1..], sep)
  }

  function Concat(chunks: seq<string>): string {
    if chunks == [] then "" else chunks[0] + Concat(chunks[1..])
  }

  lemma Assoc<T>(a: seq<T>, b: seq<T>, c: seq<T>)
    ensures a + b + c == a + (b + c)
  {
  }

  /** Two texts in one, cut at the m-th character of the second. */
  lemma CutInSecond(word: string, done: string, rest: string, m: nat)
    requires word == done + rest && m < |rest|
    ensures word[|done| + m] == rest[m]
    ensures word[..|done| + m] == done + rest[..m] && word[|done| + m + 1..] == rest[m + 1..]
    ensures rest[m..] != "" && rest[m..][0] == rest[m] && rest[m..][1..] == rest[m + 1..]
  {
  }

  lemma Assoc4<T>(a: seq<T>, b: seq<T>, c: seq<T>, d: seq<T>)
    ensures a + b + c + d == a + (b + (c + d))
  {
  }

  /** CRLF separates: breaking a text at any of its CRLFs breaks its lines there. */
  lemma {:induction false} LinesAtBreak(a: string, b: string)
    ensures Lines(a + CRLF + b) == Lines(a) + Lines(b)
    decreases |a|
  {
    hide Lines, StartsBreak;
    ghost var t := a + CRLF + b;
    Appended(a, b);
    LinesStep(t);
    if a == "" {
      LinesEmpty();
    } else {
      LinesStep(a);
      BreakIsTwo(a);
      if StartsBreak(a) {
        LinesAtBreak(a[2..], b);
        Assoc([""], Lines(a[2..]), Lines(b));
      } else {
        LinesAtBreak(a[1..], b);
        FirstApart(Lines(a[1..]), Lines(b), [a[0]]);
      }
    }
  }

  lemma BreakIsTwo(t: string)
    ensures StartsBreak(t) ==> |t| >= 2
  {
  }

  lemma FirstApart(x: seq<string>, y: seq<string>, c: string)
    requires x != []
    ensures [c + (x + y)[0]] + (x + y)[1..] == [c + x[0]] + x[1..] + y
  {
  }

  /** How a + CRLF + b starts, and what its tails are. */
  lemma Appended(a: string, b: string)
    ensures var t := a + CRLF + b;
      && t != "" && StartsBreak(t) == (a == "" || StartsBreak(a))
      && (a == "" ==> t[2..] == b)
      && (a != "" ==> t[0] == a[0] && t[1..] == a[1..] + CRLF + b)
      && (StartsBreak(a) ==> t[2..] == a[2..] + CRLF + b)
  {
  }

  lemma LinesEmpty()
    ensures Lines("") == [""]
  {
  }

  lemma LinesStep(t: string)
    requires t != ""
    ensures Lines(t) == if StartsBreak(t) then [""] + Lines(t[2..])
                        else [[t[0]] + Lines(t[1..])[0]] + Lines(t[1..])[1..]
  {
  }

  lemma {:induction false} LinesNoBreak(t: string)
    requires '\r' !in t
    ensures Lines(t) == [t]
    decreases |t|
  {
    if t == "" {
    } else {
      LinesNoBreak(t[1..]);
      assert t == [t[0]] + t[1..];
      assert t[0] != '\r';
    }
  }

  lemma {:induction false} LinesOfLine(a: string, b: string)
    requires '\r' !in a
    ensures Lines(a + CRLF + b) == [a] + Lines(b)
  {
    LinesAtBreak(a, b);
    LinesNoBreak(a);
  }

  lemma {:induction false} ConcatAppend(a: seq<string>, b: seq<string>)
    ensures Concat(a + b) == Concat(a) + Concat(b)
  {
    if a == [] {
      assert a + b == b;
    } else {
      assert (a + b)[0] == a[0] && (a + b)[1..] == a[1..] + b;
      ConcatAppend(a[1..], b);
    }
  }
}
