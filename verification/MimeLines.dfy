/**
 * How a reader takes a multipart body apart (section 5.1.1 of RFC 2046): a line that starts with
 * the delimiter begins the next part, one that goes on with "--" ends the last.
 */
module MimeLines {
  import opened Text

  predicate IsDelimiter(l: string, d: string) { d <= l }
  predicate IsClose(l: string, d: string) { d + "--" <= l }

  datatype Multipart = Multipart(preamble: seq<string>, parts: seq<seq<string>>, epilogue: seq<string>)

  /** The index of the first delimiter line, |ls| when there is none. */
  function FirstDelimiter(ls: seq<string>, d: string): (i: nat)
    ensures i <= |ls|
    ensures i < |ls| ==> IsDelimiter(ls[i], d)
  {
    if ls == [] || IsDelimiter(ls[0], d) then 0 else 1 + FirstDelimiter(ls[1..], d)
  }

  /** The parts that follow an opening delimiter, and the lines after the closing one. */
  function ReadParts(ls: seq<string>, d: string): Option<Multipart>
    decreases |ls|
  {
    var i := FirstDelimiter(ls, d);
    if i == |ls| then None
    else if IsClose(ls[i], d) then Some(Multipart([], [ls[..i]], ls[i + 1..]))
    else
      var rest := ReadParts(ls[i + 1..], d);
      if rest.None? then None
      else Some(Multipart([], [ls[..i]] + rest.value.parts, rest.value.epilogue))
  }

  /** A reader's view of a multipart body; None if it is not opened or not closed. */
  function ReadMultipart(ls: seq<string>, d: string): Option<Multipart> {
    var i := FirstDelimiter(ls, d);
    if i == |ls| || IsClose(ls[i], d) then None
    else
      var rest := ReadParts(ls[i + 1..], d);
      if rest.None? then None else Some(rest.value.(preamble := ls[..i]))
  }

  /** The lines of parts, each behind its delimiter. */
  function Delimited(parts: seq<seq<string>>, d: string): seq<string> {
    if parts == [] then [] else [d] + parts[0] + Delimited(parts[1..], d)
  }

  predicate Free(ls: seq<string>, d: string) {
    forall l :: l in ls ==> !IsDelimiter(l, d)
  }

  lemma {:induction false} FirstDelimiterAt(ls: seq<string>, d: string, rest: seq<string>)
    requires Free(ls, d) && rest != [] && IsDelimiter(rest[0], d)
    ensures FirstDelimiter(ls + rest, d) == |ls|
    ensures (ls + rest)[..|ls|] == ls && (ls + rest)[|ls|..] == rest
  {
    var all := ls + rest;
    if ls == [] {
      assert all == rest;
    } else {
      assert all[0] == ls[0] && all[1..] == ls[1..] + rest;
      FirstDelimiterAt(ls[1..], d, rest);
    }
  }

  /** The lines up to a delimiter are one part; what follows it is read on its own. */
  lemma ReadPartsStep(part: seq<string>, line: string, rest: seq<string>, d: string)
    requires Free(part, d) && IsDelimiter(line, d)
    ensures ReadParts(part + ([line] + rest), d) ==
      if IsClose(line, d) then Some(Multipart([], [part], rest))
      else if ReadParts(rest, d).None? then None
      else Some(Multipart([], [part] + ReadParts(rest, d).value.parts, ReadParts(rest, d).value.epilogue))
  {
    var ls := part + ([line] + rest);
    FirstDelimiterAt(part, d, [line] + rest);
    assert ls[|part|] == line && ls[|part| + 1..] == rest;
  }

  lemma DelimitedFirst(parts: seq<seq<string>>, d: string, tail: seq<string>)
    requires parts != []
    ensures Delimited(parts, d) + tail == [d] + (parts[0] + (Delimited(parts[1..], d) + tail))
  {
  }

  lemma CloseIsDelimiter(d: string)
    ensures IsDelimiter(d, d) && !IsClose(d, d) && IsDelimiter(d + "--", d) && IsClose(d + "--", d)
  {
  }

  /** Parts without delimiter lines of their own are read back as they were, however many. */
  lemma {:induction false} ReadDelimited(part: seq<string>, parts: seq<seq<string>>, d: string, epilogue: seq<string>)
    requires Free(part, d) && forall p :: p in parts ==> Free(p, d)
    ensures ReadParts(part + (Delimited(parts, d) + ([d + "--"] + epilogue)), d)
         == Some(Multipart([], [part] + parts, epilogue))
    decreases |parts|
  {
    hide ReadParts, Free, IsDelimiter, IsClose;
    var tail := [d + "--"] + epilogue;
    CloseIsDelimiter(d);
    if parts == [] {
      assert Delimited(parts, d) + tail == tail && [part] + parts == [part];
      ReadPartsStep(part, d + "--", epilogue, d);
    } else {
      DelimitedFirst(parts, d, tail);
      ReadDelimited(parts[0], parts[1..], d, epilogue);
      ReadPartsStep(part, d, parts[0] + (Delimited(parts[1..], d) + tail), d);
      assert [part] + ([parts[0]] + parts[1..]) == [part] + parts;
    }
  }

  lemma ReadWhole(preamble: seq<string>, parts: seq<seq<string>>, d: string, epilogue: seq<string>)
    requires parts != [] && Free(preamble, d) && forall p :: p in parts ==> Free(p, d)
    ensures ReadMultipart(preamble + (Delimited(parts, d) + ([d + "--"] + epilogue)), d)
         == Some(Multipart(preamble, parts, epilogue))
  {
    hide ReadParts, Free, IsDelimiter, IsClose, FirstDelimiter;
    var tail := [d + "--"] + epilogue;
    var next := parts[0] + (Delimited(parts[1..], d) + tail);
    CloseIsDelimiter(d);
    DelimitedFirst(parts, d, tail);
    FirstDelimiterAt(preamble, d, [d] + next);
    var ls := preamble + ([d] + next);
    assert ls[|preamble|] == d && ls[|preamble| + 1..] == next;
    ReadDelimited(parts[0], parts[1..], d, epilogue);
    assert [parts[0]] + parts[1..] == parts;
  }

  /** A text made of whole lines. */
  function Lined(ls: seq<string>): string {
    if ls == [] then "" else ls[0] + CRLF + Lined(ls[1..])
  }

  predicate NoCr(ls: seq<string>) {
    forall l :: l in ls ==> '\r' !in l
  }

  lemma {:induction false} LinesOfLined(ls: seq<string>, rest: string)
    requires NoCr(ls)
    ensures Lines(Lined(ls) + rest) == ls + Lines(rest)
  {
    hide Lines;
    if ls == [] {
      assert Lined(ls) + rest == rest;
      assert [] + Lines(rest) == Lines(rest);
    } else {
      LinesOfLined(ls[1..], rest);
      LinedBefore(ls, rest);
      LinesOfLine(ls[0], Lined(ls[1..]) + rest);
      assert ls == [ls[0]] + ls[1..];
      Assoc([ls[0]], ls[1..], Lines(rest));
    }
  }

  lemma LinedBefore(ls: seq<string>, rest: string)
    requires ls != []
    ensures Lined(ls) + rest == ls[0] + CRLF + (Lined(ls[1..]) + rest)
  {
    Assoc4(ls[0], CRLF, Lined(ls[1..]), rest);
  }

  lemma {:induction false} LinedAppend(a: seq<string>, b: seq<string>)
    ensures Lined(a + b) == Lined(a) + Lined(b)
  {
    if a == [] {
      assert a + b == b;
    } else {
      assert (a + b)[0] == a[0] && (a + b)[1..] == a[1..] + b;
      LinedAppend(a[1..], b);
    }
  }

  /** Any text is made of its lines. */
  lemma {:induction false} LinedLines(t: string)
    ensures Lined(Lines(t)) == t + CRLF
    decreases |t|
  {
    hide Lined, Lines;
    if t == "" {
      LinesEmpty();
      LinedOne("");
    } else if StartsBreak(t) {
      LinesStep(t);
      LinedLines(t[2..]);
      LinedFirst("", Lines(t[2..]));
      assert "" + CRLF + (t[2..] + CRLF) == t + CRLF;
    } else {
      LinesStep(t);
      var rest := Lines(t[1..]);
      LinedLines(t[1..]);
      LinedFirst([t[0]] + rest[0], rest[1..]);
      LinedFirst(rest[0], rest[1..]);
      assert rest == [rest[0]] + rest[1..];
      Reattach(t[0], rest[0], Lined(rest[1..]), t[1..]);
      assert t == [t[0]] + t[1..];
    }
  }

  lemma LinedOne(l: string)
    ensures Lined([l]) == l + CRLF
  {
  }

  lemma Reattach(c: char, l: string, rest: string, t: string)
    requires l + CRLF + rest == t + CRLF
    ensures [c] + l + CRLF + rest == [c] + t + CRLF
  {
    assert [c] + l + CRLF + rest == [c] + (l + CRLF + rest);
  }

  lemma LinedFirst(l: string, ls: seq<string>)
    ensures Lined([l] + ls) == l + CRLF + Lined(ls)
  {
    assert ([l] + ls)[1..] == ls;
  }
}
