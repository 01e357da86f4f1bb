/** Which columns of a printed row come back when its line is read. */
module CsvRoundTrip {
  import opened Text
  import opened Csv
  import opened CSVParsers

  /** A column printed through `quoteColumn`, or as it is. */
  datatype Cell = QuotedCell(text: string) | PlainCell(text: string)
  {
    function Print(): string { if QuotedCell? then Quoted(text) else text }

    /** The column as the parser returns it. */
    function Raw(): string { if QuotedCell? then Escape(text) else text }

    /** How little text after this column the parser takes for none. */
    function Near(): nat { if QuotedCell? then 2 else 1 }
  }

  /** A plain column must not read as a quoted one, nor as two. */
  predicate Printable(c: Cell) {
    c.PlainCell? ==> ',' !in c.text && (c.text == "" || c.text[0] != '"')
  }

  function Row(cells: seq<Cell>): string {
    if cells == [] then "" else if |cells| == 1 then cells[0].Print() else cells[0].Print() + "," + Row(cells[1..])
  }

  /** What follows the last column on its line; lines end in CRLF and `getline` keeps the CR. */
  predicate LineEnd(end: string) { end == "" || end == "\r" }

  /** The columns that are read: all, up to one after which too little text follows. */
  function Kept(cells: seq<Cell>, end: string): seq<string>
    requires cells != []
  {
    if |cells| == 1 then [cells[0].Raw() + (if cells[0].PlainCell? then end else "")]
    else [cells[0].Raw()] + (if |Row(cells[1..]) + end| <= cells[0].Near() then [] else Kept(cells[1..], end))
  }

  /** The parser finds the closing quote of a printed text. */
  lemma {:induction false} CloseOfEscape(pre: string, text: string, more: string)
    requires more == "" || more[0] != '"'
    ensures CloseQuote(pre + Escape(text) + "\"" + more, |pre|) == |pre| + |Escape(text)|
    decreases |text|
  {
    hide CloseQuote, IndexOf, Escape;
    var line, p := pre + Escape(text) + "\"" + more, |pre|;
    IndexOfStep(line, '"', p);
    CloseQuoteStep(line, p, IndexOf(line, '"', p));
    EscapeParts(text);
    if text == "" {
    } else {
      var e := Escaped(text[0]);
      assert pre + (e + Escape(text[1..])) + "\"" + more == pre + e + Escape(text[1..]) + "\"" + more;
      CloseOfEscape(pre + e, text[1..], more);
      if text[0] != '"' {
        IndexOfStep(line, '"', p);
        CloseQuoteStep(line, p + 1, IndexOf(line, '"', p + 1));
      }
    }
  }

  lemma IndexOfStep(s: string, c: char, from: nat)
    requires from <= |s|
    ensures IndexOf(s, c, from) == if from == |s| || s[from] == c then from else IndexOf(s, c, from + 1)
  {
  }

  lemma EscapeParts(text: string)
    ensures text == "" ==> Escape(text) == ""
    ensures text != "" ==> Escape(text) == Escaped(text[0]) + Escape(text[1..])
    ensures text != "" && text[0] == '"' ==> |Escaped(text[0])| == 2 && Escaped(text[0])[0] == '"' && Escaped(text[0])[1] == '"'
    ensures text != "" && text[0] != '"' ==> |Escaped(text[0])| == 1 && Escaped(text[0])[0] != '"'
  {
  }

  lemma ReadQuoted(text: string, more: string)
    requires more == "" || more[0] != '"'
    ensures var e := Escape(text);
      |more| + |e| + 2 == |Quoted(text) + more|
      && Read(Quoted(text) + more) == (e, Rest(Quoted(text) + more, |e| + 3, 2))
  {
    hide IndexOf, CloseQuote, Escape, Rest;
    var e := Escape(text);
    var t := Quoted(text) + more;
    CloseOfEscape("\"", text, more);
    assert t == "\"" + e + "\"" + more;
    assert t[1..1 + |e|] == e;
  }

  lemma ReadPlain(text: string, more: string)
    requires Printable(PlainCell(text)) && (more == "" || more[0] == ',' || ',' !in more) && (more != "" ==> more[0] != '"')
    ensures Read(text + more) ==
            if more != "" && more[0] == ',' then (text, Rest(text + more, |text| + 1, 1)) else (text + more, None)
  {
    hide IndexOf, Rest;
    NoComma(text, more);
    assert (text + more)[..|text|] == text;
  }

  /** The last printed column of a line. */
  lemma ReadLast(c: Cell, end: string)
    requires Printable(c) && LineEnd(end)
    ensures Read(c.Print() + end) == (c.Raw() + (if c.PlainCell? then end else ""), None)
  {
    hide Read, Quoted, Escape;
    if c.QuotedCell? {
      ReadQuoted(c.text, end);
      assert c.Raw() + "" == c.Raw();
    } else {
      ReadPlain(c.text, end);
    }
  }

  /** One printed column, and the text that follows its separator. */
  lemma ReadNext(c: Cell, after: string)
    requires Printable(c)
    ensures Read(c.Print() + "," + after) == (c.Raw(), if |after| <= c.Near() then None else Some(after))
  {
    hide Read, Quoted, Escape;
    var more := "," + after;
    assert c.Print() + "," + after == c.Print() + more;
    if c.QuotedCell? {
      ReadQuoted(c.text, more);
    } else {
      ReadPlain(c.text, more);
    }
    assert (c.Print() + more)[|c.Print()| + 1..] == after;
  }

  lemma NoComma(a: string, more: string)
    requires ',' !in a
    ensures more != "" && more[0] == ',' ==> IndexOf(a + more, ',', 0) == |a|
    ensures ',' !in more ==> IndexOf(a + more, ',', 0) == |a + more|
  {
    hide IndexOf;
    forall k | 0 <= k < |a| ensures (a + more)[k] != ',' { assert a[k] in a; }
    if more != "" && more[0] == ',' {
      IndexOfIs(a + more, ',', 0, |a|);
    } else if ',' !in more {
      forall k | |a| <= k < |a + more| ensures (a + more)[k] != ',' { assert (a + more)[k] in more; }
      IndexOfIs(a + more, ',', 0, |a + more|);
    }
  }

  /** A row is read back up to the first column after which too little text follows. */
  lemma {:induction false} RowReadBack(cells: seq<Cell>, end: string)
    requires cells != [] && LineEnd(end) && forall c :: c in cells ==> Printable(c)
    ensures Columns(Row(cells) + end) == Kept(cells, end)
    decreases |cells|
  {
    hide Read, Escape, LineEnd, Printable, Row, Kept, Columns;
    var c := cells[0];
    ColumnsStep(Row(cells) + end);
    RowStep(cells, end);
    if |cells| == 1 {
      ReadLast(c, end);
    } else {
      RowReadBack(cells[1..], end);
      ReadNext(c, Row(cells[1..]) + end);
    }
  }

  lemma RowStep(cells: seq<Cell>, end: string)
    requires cells != []
    ensures |cells| == 1 ==> (
      Row(cells) == cells[0].Print() &&
      Kept(cells, end) == [cells[0].Raw() + (if cells[0].PlainCell? then end else "")])
    ensures |cells| > 1 ==> (
      var after := Row(cells[1..]) + end;
      Row(cells) + end == cells[0].Print() + "," + after &&
      Kept(cells, end) == [cells[0].Raw()] + (if |after| <= cells[0].Near() then [] else Kept(cells[1..], end)))
  {
  }

  function Quotes(texts: seq<string>): seq<Cell> {
    if texts == [] then [] else [QuotedCell(texts[0])] + Quotes(texts[1..])
  }

  function Flats(texts: seq<string>): seq<string> {
    if texts == [] then [] else [Flat(texts[0])] + Flats(texts[1..])
  }

  function Unescapes(columns: seq<string>): seq<string> {
    if columns == [] then [] else [Unescape(columns[0])] + Unescapes(columns[1..])
  }

  /** Two columns or more, the last one empty, and nothing after its quotes. */
  predicate LastIsLost(texts: seq<string>, end: string) {
    |texts| >= 2 && texts[|texts| - 1] == "" && end == ""
  }

  /**
   * Round trip: the texts printed in a row come back with line ends as spaces, all of them or, in
   * the one case above, all but the last.
   */
  lemma {:induction false} QuotedRowReadBack(texts: seq<string>, end: string)
    requires texts != [] && LineEnd(end)
    ensures Unescapes(Columns(Row(Quotes(texts)) + end))
         == Flats(if LastIsLost(texts, end) then texts[..|texts| - 1] else texts)
  {
    QuotesArePrintable(texts);
    RowReadBack(Quotes(texts), end);
    KeptQuotes(texts, end);
  }

  lemma {:induction false} QuotesArePrintable(texts: seq<string>)
    ensures |Quotes(texts)| == |texts| && forall c :: c in Quotes(texts) ==> Printable(c)
  {
    if texts == [] {
    } else {
      QuotesArePrintable(texts[1..]);
    }
  }

  lemma {:induction false} KeptQuotes(texts: seq<string>, end: string)
    requires texts != [] && LineEnd(end) && Quotes(texts) != []
    ensures Unescapes(Kept(Quotes(texts), end)) == Flats(if LastIsLost(texts, end) then texts[..|texts| - 1] else texts)
    decreases |texts|
  {
    hide Escape, Unescape, Flat, Kept, Row, Quotes, Unescapes, Flats;
    var t, rest := texts[0], texts[1..];
    UnescapeEscape(t);
    QuotesCons(t, rest);
    RowStep(Quotes(texts), end);
    assert texts == [t] + rest && Escape(t) + "" == Escape(t);
    FlatsCons(t, rest);
    UnescapesCons(Escape(t), []);
    FlatsCons(t, []);
    assert [Escape(t)] + [] == [Escape(t)] && [t] + [] == [t];
    assert Quotes(texts)[1..] == Quotes(rest) && Quotes(texts)[0] == QuotedCell(t);
    if rest == [] {
    } else {
      QuotedRowLength(rest, end);
      KeptQuotes(rest, end);
      UnescapesCons(Escape(t), Kept(Quotes(rest), end));
      FlatsCons(t, rest[..|rest| - 1]);
      assert texts[..|texts| - 1] == [t] + rest[..|rest| - 1];
    }
  }

  lemma QuotesCons(t: string, rest: seq<string>)
    ensures Quotes([t] + rest) == [QuotedCell(t)] + Quotes(rest) && |Quotes(rest)| == |rest|
  {
    assert ([t] + rest)[1..] == rest;
    QuotesArePrintable(rest);
  }

  lemma FlatsCons(t: string, rest: seq<string>)
    ensures Flats([t] + rest) == [Flat(t)] + Flats(rest) && Flats([]) == []
  {
    assert ([t] + rest)[1..] == rest;
  }

  lemma UnescapesCons(t: string, rest: seq<string>)
    ensures Unescapes([t] + rest) == [Unescape(t)] + Unescapes(rest) && Unescapes([]) == []
  {
    assert ([t] + rest)[1..] == rest;
  }

  /** At most two characters are left only for one empty column with nothing after it. */
  lemma QuotedRowLength(texts: seq<string>, end: string)
    requires texts != []
    ensures |Row(Quotes(texts)) + end| <= 2 <==> |texts| == 1 && texts[0] == "" && end == ""
  {
  }

  /** All columns of a row as the parser would return them. */
  function Raws(cells: seq<Cell>, end: string): (r: seq<string>)
    ensures |r| == |cells|
  {
    if cells == [] then []
    else if |cells| == 1 then [cells[0].Raw() + (if cells[0].PlainCell? then end else "")]
    else [cells[0].Raw()] + Raws(cells[1..], end)
  }

  /** Whether so little text follows column k that the parser takes it for none. */
  predicate Short(cells: seq<Cell>, end: string, k: nat)
    requires k < |cells|
  {
    k + 1 < |cells| && |Row(cells[k + 1..]) + end| <= cells[k].Near()
  }

  /** The columns up to the first one after which too little text follows. */
  lemma ReadUpTo(cells: seq<Cell>, end: string, k: nat)
    requires k < |cells| && LineEnd(end) && forall c :: c in cells ==> Printable(c)
    requires (forall i :: 0 <= i < k ==> !Short(cells, end, i)) && (k == |cells| - 1 || Short(cells, end, k))
    ensures Columns(Row(cells) + end) == Raws(cells, end)[..k + 1]
  {
    RowReadBack(cells, end);
    KeptUpTo(cells, end, k);
  }

  lemma {:induction false} KeptUpTo(cells: seq<Cell>, end: string, k: nat)
    requires k < |cells|
    requires (forall i :: 0 <= i < k ==> !Short(cells, end, i)) && (k == |cells| - 1 || Short(cells, end, k))
    ensures Kept(cells, end) == Raws(cells, end)[..k + 1]
    decreases k
  {
    hide Row, Kept;
    RowStep(cells, end);
    if k == 0 {
      assert |cells| > 1 ==> Short(cells, end, 0);
    } else {
      var rest := cells[1..];
      assert !Short(cells, end, 0);
      forall i | 0 <= i < |rest| ensures Short(rest, end, i) == Short(cells, end, i + 1) {
        assert rest[i + 1..] == cells[i + 1 + 1..];
      }
      KeptUpTo(rest, end, k - 1);
      assert Raws(cells, end)[..k + 1] == [cells[0].Raw()] + Raws(rest, end)[..k];
    }
  }

  /** All columns come back exactly when enough text follows each but the last. */
  lemma AllColumnsIff(cells: seq<Cell>, end: string)
    requires cells != [] && LineEnd(end) && forall c :: c in cells ==> Printable(c)
    ensures Columns(Row(cells) + end) == Raws(cells, end) <==> forall k :: 0 <= k < |cells| ==> !Short(cells, end, k)
  {
    hide Short, Columns, Row, Raws, Printable, LineEnd;
    var k := 0;
    while k < |cells| - 1 && !Short(cells, end, k)
      invariant k < |cells| && forall i :: 0 <= i < k ==> !Short(cells, end, i)
    {
      k := k + 1;
    }
    LastNotShort(cells, end);
    ReadUpTo(cells, end, k);
  }

  lemma LastNotShort(cells: seq<Cell>, end: string)
    requires cells != []
    ensures !Short(cells, end, |cells| - 1)
  {
  }

  /** The characters of plain columns, without the commas between them. */
  function Letters(cells: seq<Cell>): nat {
    if cells == [] then 0 else |cells[0].text| + Letters(cells[1..])
  }

  predicate AllPlain(cells: seq<Cell>) { forall c :: c in cells ==> c.PlainCell? }

  /**
   * The tails that are lost: after a quoted column one empty quoted column that ends its line, and
   * after any column plain ones of so few characters, commas and line end included.
   */
  lemma LostTailIff(tail: seq<Cell>, end: string, near: nat)
    requires tail != [] && 1 <= near <= 2
    ensures |Row(tail) + end| <= near <==>
      || (near == 2 && tail == [QuotedCell("")] && end == "")
      || (AllPlain(tail) && Letters(tail) + |tail| - 1 + |end| <= near)
  {
    RowLength(tail);
    if !AllPlain(tail) { QuotedLength(tail); }
  }

  lemma {:induction false} RowLength(cells: seq<Cell>)
    requires cells != []
    ensures |Row(cells)| >= Letters(cells) + |cells| - 1
    ensures AllPlain(cells) ==> |Row(cells)| == Letters(cells) + |cells| - 1
    ensures !AllPlain(cells) ==> |Row(cells)| >= Letters(cells) + |cells| + 1
  {
    EscapeIsLonger(cells[0].text);
    assert cells == [cells[0]] + cells[1..] && cells[0] in cells;
    if |cells| == 1 {
      assert cells[1..] == [];
    } else {
      RowLength(cells[1..]);
    }
  }

  lemma {:induction false} EscapeIsLonger(text: string)
    ensures |Escape(text)| >= |text|
  {
    if text == "" {
    } else {
      EscapeIsLonger(text[1..]);
    }
  }

  /** With a quoted column in it, two characters are one empty quoted column. */
  lemma QuotedLength(cells: seq<Cell>)
    requires cells != [] && !AllPlain(cells)
    ensures |Row(cells)| <= 2 ==> cells == [QuotedCell("")]
  {
    RowLength(cells);
  }

  /** A last column of two characters, two columns at once, and a last column of one character. */
  lemma ShortTailsLost()
    ensures Columns("\"x\",ab") == ["x"] && Columns("\"x\",,") == ["x"] && Columns("a,b") == ["a"]
  {
    hide Columns;
    OnlyFirst(QuotedCell("x"), [PlainCell("ab")]);
    OnlyFirst(QuotedCell("x"), [PlainCell(""), PlainCell("")]);
    OnlyFirst(PlainCell("a"), [PlainCell("b")]);
    assert Escape("x") == "x" by { assert "x"[1..] == ""; }
    assert Quoted("x") + ("," + "ab") == "\"x\",ab";
    assert Quoted("x") + ("," + ",") == "\"x\",,";
    assert "a" + ("," + "b") == "a,b";
    assert Row([PlainCell(""), PlainCell("")]) == "," by {
      assert [PlainCell(""), PlainCell("")][1..] == [PlainCell("")];
    }
  }

  lemma OnlyFirst(c: Cell, tail: seq<Cell>)
    requires tail != [] && forall x :: x in [c] + tail ==> Printable(x)
    requires |Row(tail)| <= c.Near()
    ensures Columns(c.Print() + ("," + Row(tail))) == [c.Raw()]
  {
    hide Columns, Row, Printable, Kept;
    var cells := [c] + tail;
    RowReadBack(cells, "");
    RowStep(cells, "");
    assert cells[1..] == tail && Row(tail) + "" == Row(tail);
    assert Row(cells) + "" == c.Print() + ("," + Row(tail));
    assert [c.Raw()] + [] == [c.Raw()];
  }
}
