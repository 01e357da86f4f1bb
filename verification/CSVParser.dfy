/** Reading a CSV line column by column, and what becomes of a printed row. */
module CSVParsers {
  import opened Text

  /** Where the quoted text that goes on at `from` ends: at the first quote that no other follows. */
  function CloseQuote(line: string, from: nat): (i: nat)
    requires from <= |line|
    ensures from <= i <= |line|
    decreases |line| - from
  {
    var i := IndexOf(line, '"', from);
    if i + 1 < |line| && line[i + 1] == '"' then CloseQuote(line, i + 2) else i
  }

  /** What is left to read from position `i` on: nothing when it is within `near` of the end. */
  function Rest(line: string, i: nat, near: nat): Option<string> {
    if i + near >= |line| then None else Some(line[i..])
  }

  /** The first column of a text and what is left after it. */
  function Read(t: string): (r: (string, Option<string>))
    ensures r.1.Some? ==> |r.1.value| < |t|
  {
    if t == "" || t[0] != '"' then
      var i := IndexOf(t, ',', 0);
      if i == |t| then (t, None) else (t[..i], Rest(t, i + 1, 1))
    else
      var i := CloseQuote(t, 1);
      if i == |t| then (t[1..], None) else (t[1..i], Rest(t, i + 2, 2))
  }

  function Columns(t: string): seq<string>
    decreases |t|
  {
    var r := Read(t);
    [r.0] + (if r.1.None? then [] else Columns(r.1.value))
  }

  lemma {:induction false} IndexOfShift(line: string, c: char, p: nat, from: nat)
    requires p <= from <= |line|
    ensures IndexOf(line, c, from) == p + IndexOf(line[p..], c, from - p)
    decreases |line| - from
  {
    if from == |line| {
    } else {
      IndexOfShift(line, c, p, from + 1);
    }
  }

  lemma {:induction false} CloseQuoteShift(line: string, p: nat, from: nat)
    requires p <= from <= |line|
    ensures CloseQuote(line, from) == p + CloseQuote(line[p..], from - p)
    decreases |line| - from
  {
    hide IndexOf, CloseQuote;
    IndexOfShift(line, '"', p, from);
    var t, i := line[p..], IndexOf(line, '"', from);
    CloseQuoteStep(line, from, i);
    CloseQuoteStep(t, from - p, i - p);
    if i + 1 < |line| {
      assert t[i + 1 - p] == line[i + 1];
      if line[i + 1] == '"' { CloseQuoteShift(line, p, i + 2); }
    }
  }

  lemma CloseQuoteStep(line: string, from: nat, i: nat)
    requires from <= |line| && i == IndexOf(line, '"', from)
    ensures CloseQuote(line, from) == if i + 1 < |line| && line[i + 1] == '"' then CloseQuote(line, i + 2) else i
  {
  }

  /** `Read` on a text that is the end of a line, by positions in the line. */
  lemma ReadAt(line: string, p: nat)
    requires p <= |line|
    ensures Read(line[p..]) == if At(line, p) == '"' then QuotedAt(line, p) else PlainAt(line, p)
  {
    hide IndexOf, CloseQuote;
    var t := line[p..];
    if At(line, p) != '"' {
      var i := IndexOf(line, ',', p);
      IndexOfShift(line, ',', p, p);
      RestShift(line, p, i + 1, 1);
      assert t[..i - p] == line[p..i];
    } else {
      var i := CloseQuote(line, p + 1);
      CloseQuoteShift(line, p, p + 1);
      CloseQuoteShift(t, 1, 1);
      assert t[1..] == line[p + 1..] && t[1..i - p] == line[p + 1..i];
      RestShift(line, p, i + 2, 2);
    }
  }

  function PlainAt(line: string, p: nat): (string, Option<string>)
    requires p <= |line|
  {
    var i := IndexOf(line, ',', p);
    if i == |line| then (line[p..], None) else (line[p..i], Rest(line, i + 1, 1))
  }

  function QuotedAt(line: string, p: nat): (string, Option<string>)
    requires p < |line|
  {
    var i := CloseQuote(line, p + 1);
    if i == |line| then (line[p + 1..], None) else (line[p + 1..i], Rest(line, i + 2, 2))
  }

  lemma RestShift(line: string, p: nat, i: nat, near: nat)
    requires p <= i && p <= |line| && near > 0
    ensures Rest(line, i, near) == Rest(line[p..], i - p, near)
  {
    if i < |line| { assert line[p..][i - p..] == line[i..]; }
  }

  class CSVParser {
    var line: string
    /** The position of the next column; None once there is no more (`npos`). */
    var pos: Option<nat>

    ghost predicate Valid()
      reads this
    {
      pos.Some? ==> pos.value <= |line|
    }

    /** What the next columns are read from. */
    function Left(): Option<string>
      requires Valid()
      reads this
    {
      if pos.None? then None else Some(line[pos.value..])
    }

    /** As after `nextLine` has read a line. */
    constructor (line: string)
      ensures Valid() && Left() == Some(line)
    {
      this.line, pos := line, Some(0);
      new;
      assert line[0..] == line;
    }

    /** `nextColumn`. */
    method NextColumn() returns (ok: bool, column: string)
      requires Valid()
      modifies `pos
      ensures Valid()
      ensures ok <==> old(Left()).Some?
      ensures ok ==> (column, Left()) == Read(old(Left()).value)
      ensures !ok ==> pos.None?
    {
      hide CloseQuote, IndexOf, Read;
      if pos.None? { return false, ""; }
      var start := pos.value;
      ReadAt(line, start);
      var increment := 1;
      var i;
      if At(line, start) != '"' {
        i := IndexOf(line, ',', start);
      } else {
        start := start + 1;
        i := IndexOf(line, '"', start);
        ghost var goal := CloseQuote(line, start);
        CloseQuoteStep(line, start, i);
        while i != |line| && i + 1 < |line| && line[i + 1] == '"'
          invariant start <= i <= |line|
          invariant goal == if i + 1 < |line| && line[i + 1] == '"' then CloseQuote(line, i + 2) else i
        {
          CloseQuoteStep(line, i + 2, IndexOf(line, '"', i + 2));
          i := IndexOf(line, '"', i + 2);
        }
        increment := 2;
      }
      if i == |line| {
        column := line[start..];
        pos := None;
        return true, column;
      }
      column := line[start..i];
      if i + increment + increment >= |line| {
        pos := None;
      } else {
        pos := Some(i + increment);
      }
      return true, column;
    }

    /** The loop that callers run over a line. */
    method ReadColumns() returns (columns: seq<string>)
      requires Valid() && pos.Some?
      modifies `pos
      ensures columns == Columns(old(Left()).value) && pos.None?
    {
      hide Read, Columns;
      columns := [];
      ghost var goal := Columns(Left().value);
      ColumnsOnward([], Left().value);
      var more, column := NextColumn();
      while more
        invariant Valid()
        invariant more ==> goal == Onwards(columns + [column], Left())
        invariant !more ==> goal == columns && pos.None?
        decreases more, if pos.Some? then |line| - pos.value + 1 else 0
      {
        columns := columns + [column];
        ghost var left := Left();
        if left.Some? { ColumnsOnward(columns, left.value); }
        more, column := NextColumn();
      }
    }
  }

  /** The columns read so far and those of what is left. */
  ghost function Onwards(columns: seq<string>, left: Option<string>): seq<string> {
    if left.None? then columns else columns + Columns(left.value)
  }

  lemma ColumnsOnward(columns: seq<string>, t: string)
    ensures columns + Columns(t) == Onwards(columns + [Read(t).0], Read(t).1)
    ensures columns == [] ==> columns + Columns(t) == Columns(t)
  {
    hide Read;
  }

  lemma ColumnsStep(t: string)
    ensures Columns(t) == [Read(t).0] + (if Read(t).1.None? then [] else Columns(Read(t).1.value))
  {
  }
}
