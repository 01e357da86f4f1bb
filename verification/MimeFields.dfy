/** What a reader learns of a part from its header: type, disposition, names, and how to decode its content. */
module MimeFields {
  import opened Text
  import opened Rendering
  import opened MimeStructure
  import opened MimeContent

  /** A part as a reader takes it. */
  datatype Entity = Entity(contentType: string, charset: string, name: string, disposition: string, fileName: string,
                           contentId: string, content: string)

  /** The rest of the first header line that starts with `name`; "" when there is none. */
  function Field(ls: seq<string>, name: string): string {
    if ls == [] || ls[0] == "" then ""
    else if name <= ls[0] then ls[0][|name|..]
    else Field(ls[1..], name)
  }

  function UpTo(s: string, c: char): string {
    s[..IndexOf(s, c, 0)]
  }

  /** What follows the first `c`. */
  function Behind(s: string, c: char): string {
    s[IndexOf(s, c, 0)..]
  }

  function Stripped(s: string, prefix: string): string {
    if prefix <= s then s[|prefix|..] else ""
  }

  function Decoded(encoding: string, ls: seq<string>): string {
    if encoding == "base64" then B64Data(ls)
    else if encoding == "quoted-printable" then QpText(ls)
    else Join(ls, "\n")
  }

  function ReadEntity(ls: seq<string>): Entity {
    var contentType := Field(ls, "Content-Type: ");
    Entity(UpTo(contentType, ';'),
           UpTo(Stripped(Behind(contentType, ';'), "; charset=\""), '"'),
           UpTo(Field(ls, "\tname=\""), '"'),
           UpTo(Field(ls, "Content-Disposition: "), ';'),
           UpTo(Field(ls, "\tfilename=\""), '"'),
           UpTo(Field(ls, "Content-ID: <"), '>'),
           Decoded(Field(ls, "Content-Transfer-Encoding: "), AfterHeader(ls)))
  }

  /** A header line of another kind than those that describe content, and not continuing one. */
  predicate OtherHeader(l: string) {
    l != "" && l[0] != '\t' && !("Content-" <= l)
  }

  predicate NoFields(hs: seq<string>) {
    forall l :: l in hs ==> OtherHeader(l)
  }

  predicate FieldName(name: string) {
    name != "" && (name[0] == '\t' || "Content-" <= name)
  }

  lemma FieldNames()
    ensures FieldName("Content-Type: ") && FieldName("Content-Disposition: ") && FieldName("\tfilename=\"") && FieldName("\tname=\"")
    ensures FieldName("Content-ID: <") && FieldName("Content-Transfer-Encoding: ")
  {
  }

  lemma {:induction false} FieldAfter(hs: seq<string>, ls: seq<string>, name: string)
    requires NoFields(hs) && FieldName(name)
    ensures Field(hs + ls, name) == Field(ls, name)
  {
    if hs == [] {
      assert hs + ls == ls;
    } else {
      assert (hs + ls)[0] == hs[0] && hs[0] in hs && (hs + ls)[1..] == hs[1..] + ls;
      if name <= hs[0] { PrefixChars(name, hs[0]); }
      forall l | l in hs[1..] ensures l in hs {}
      FieldAfter(hs[1..], ls, name);
    }
  }

  lemma PrefixChars(name: string, l: string)
    requires name <= l && FieldName(name)
    ensures l != "" && (l[0] == '\t' || "Content-" <= l)
  {
  }

  lemma FieldHere(l: string, rest: seq<string>, name: string)
    ensures Field([l] + rest, name) == if l == "" then "" else if name <= l then l[|name|..] else Field(rest, name)
  {
    assert ([l] + rest)[1..] == rest;
  }

  lemma OtherName(name: string, l: string, i: nat)
    requires i < |name| && i < |l| && name[i] != l[i]
    ensures !(name <= l)
  {
  }

  /** The end of a quoted value, or of a type, is the first mark. */
  lemma UpToIs(v: string, c: char, rest: string)
    ensures UpTo(v + [c] + rest, c) == v <==> c !in v
    ensures c !in v ==> Behind(v + [c] + rest, c) == [c] + rest
  {
    var s := v + [c] + rest;
    var i := IndexOf(s, c, 0);
    assert s[0..i] == s[..i];
    if c !in v {
      IndexOfIs(s, c, 0, |v|);
    }
  }

  lemma UpToNothing(c: char)
    ensures UpTo("", c) == ""
  {
  }

  /** The fields of a text: its type, charset and encoding, whatever headers come in front and text behind. */
  lemma TextFields(hs: seq<string>, header: seq<string>, kind: string, rest: seq<string>)
    requires NoFields(hs) && ';' !in kind
    requires header == ["Content-Type: " + kind + "; charset=\"utf-8\"", "Content-Transfer-Encoding: quoted-printable", ""]
    ensures var e := ReadEntity(hs + (header + rest));
      && e.contentType == kind && e.charset == "utf-8" && e.disposition == "" && e.fileName == "" && e.name == "" && e.contentId == ""
      && e.content == QpText(AfterHeader(hs + (header + rest)))
  {
    hide Field, AfterHeader, QpText, B64Data, UpTo, NoFields, FieldName, Behind, OtherHeader;
    var ls := header + rest;
    FieldNames();
    FieldAfter(hs, ls, "Content-Type: ");
    FieldAfter(hs, ls, "Content-Disposition: ");
    FieldAfter(hs, ls, "\tfilename=\"");
    FieldAfter(hs, ls, "\tname=\"");
    FieldAfter(hs, ls, "Content-ID: <");
    FieldAfter(hs, ls, "Content-Transfer-Encoding: ");
    assert ls == [header[0]] + ([header[1]] + ([""] + rest));
    TextType(kind, [header[1]] + ([""] + rest));
    TextEncoding(kind, rest);
    TextOthers(kind, rest);
    UpToNothing(';');
    UpToNothing('"');
    UpToNothing('>');
  }

  lemma TextType(kind: string, rest: seq<string>)
    requires ';' !in kind
    ensures var v := Field(["Content-Type: " + kind + "; charset=\"utf-8\""] + rest, "Content-Type: ");
      UpTo(v, ';') == kind && UpTo(Stripped(Behind(v, ';'), "; charset=\""), '"') == "utf-8"
  {
    hide UpTo, Behind, Field;
    var l := "Content-Type: " + kind + "; charset=\"utf-8\"";
    FieldHere(l, rest, "Content-Type: ");
    TypeValue(kind);
    UpToIs(kind, ';', " charset=\"utf-8\"");
    UpToIs("utf-8", '"', "");
    assert "utf-8" + ['"'] + "" == "utf-8\"";
  }

  lemma TypeValue(kind: string)
    ensures var l := "Content-Type: " + kind + "; charset=\"utf-8\"";
      "Content-Type: " <= l && l[|"Content-Type: "|..] == kind + [';'] + " charset=\"utf-8\""
    ensures Stripped([';'] + " charset=\"utf-8\"", "; charset=\"") == "utf-8\""
  {
    assert [';'] + " charset=\"utf-8\"" == "; charset=\"utf-8\"";
    assert "; charset=\"" + "utf-8\"" == "; charset=\"utf-8\"";
  }

  lemma TextEncoding(kind: string, rest: seq<string>)
    ensures Field(["Content-Type: " + kind + "; charset=\"utf-8\""] + (["Content-Transfer-Encoding: quoted-printable"] + ([""] + rest)),
                  "Content-Transfer-Encoding: ") == "quoted-printable"
  {
    hide Field;
    var l, name := "Content-Type: " + kind + "; charset=\"utf-8\"", "Content-Transfer-Encoding: ";
    FieldHere(l, ["Content-Transfer-Encoding: quoted-printable"] + ([""] + rest), name);
    OtherName(name, l, 9);
    FieldHere("Content-Transfer-Encoding: quoted-printable", [""] + rest, name);
    assert "Content-Transfer-Encoding: " + "quoted-printable" == "Content-Transfer-Encoding: quoted-printable";
  }

  lemma TextOthers(kind: string, rest: seq<string>)
    ensures var ls := ["Content-Type: " + kind + "; charset=\"utf-8\""] + (["Content-Transfer-Encoding: quoted-printable"] + ([""] + rest));
      Field(ls, "Content-Disposition: ") == "" && Field(ls, "\tfilename=\"") == "" && Field(ls, "\tname=\"") == "" && Field(ls, "Content-ID: <") == ""
  {
    hide Field;
    var a, b := "Content-Type: " + kind + "; charset=\"utf-8\"", "Content-Transfer-Encoding: quoted-printable";
    NoOther(a, b, rest, "Content-Disposition: ", 8);
    NoOther(a, b, rest, "\tfilename=\"", 0);
    NoOther(a, b, rest, "\tname=\"", 0);
    NoOther(a, b, rest, "Content-ID: <", 8);
  }

  lemma NoOther(a: string, b: string, rest: seq<string>, name: string, i: nat)
    requires i < |a| && i < |b| && i < |name| && name[i] != a[i] && name[i] != b[i]
    ensures Field([a] + ([b] + ([""] + rest)), name) == ""
  {
    FieldHere(a, [b] + ([""] + rest), name);
    FieldHere(b, [""] + rest, name);
    FieldHere("", rest, name);
    OtherName(name, a, i);
    OtherName(name, b, i);
  }

  /** A header line that another field has is passed over. */
  lemma PassField(l: string, rest: seq<string>, name: string, i: nat)
    requires i < |l| && i < |name| && l[i] != name[i]
    ensures Field([l] + rest, name) == Field(rest, name)
  {
    FieldHere(l, rest, name);
    OtherName(name, l, i);
  }

  lemma TakeField(name: string, value: string, rest: seq<string>)
    requires name != ""
    ensures Field([name + value] + rest, name) == value
  {
    FieldHere(name + value, rest, name);
  }

  /** The header lines of a part, one in front of the other. */
  function HeaderOf(p: Part, rest: seq<string>): seq<string> {
    ["Content-Type: " + (p.contentType + ";")]
    + (["\tname=\"" + (p.fileName + "\"")]
       + (["Content-Transfer-Encoding: " + "base64"] + Disposition(p, ["\tfilename=\"" + (p.fileName + "\"")] + ([""] + rest))))
  }

  function Disposition(p: Part, rest: seq<string>): seq<string> {
    if p.contentId != "" then ["Content-ID: <" + (p.contentId + ">")] + (["Content-Disposition: " + "inline;"] + rest)
    else ["Content-Disposition: " + "attachment;"] + rest
  }

  lemma HeaderOfIs(p: Part)
    ensures PartLines(p) == HeaderOf(p, ContentLines(p) + ["", ""])
  {
    hide ContentLines;
    assert "Content-Transfer-Encoding: " + "base64" == "Content-Transfer-Encoding: base64";
    assert "inline" + ";" == "inline;" && "attachment" + ";" == "attachment;";
    Grouped("Content-Type: ", p.contentType, ";");
    Grouped("\tname=\"", p.fileName, "\"");
    Grouped("\tfilename=\"", p.fileName, "\"");
    Grouped("Content-ID: <", p.contentId, ">");
    Grouped("Content-Disposition: ", "inline", ";");
    Grouped("Content-Disposition: ", "attachment", ";");
  }

  lemma Grouped(a: string, b: string, c: string)
    ensures a + b + c == a + (b + c)
  {
  }

  lemma PartType(p: Part, rest: seq<string>)
    ensures Field(HeaderOf(p, rest), "Content-Type: ") == p.contentType + ";"
    ensures Field(HeaderOf(p, rest), "Content-Transfer-Encoding: ") == "base64"
    ensures Field(HeaderOf(p, rest), "\tname=\"") == p.fileName + "\""
  {
    hide Field, Disposition;
    var a, b := "Content-Type: " + (p.contentType + ";"), "\tname=\"" + (p.fileName + "\"");
    var tail := Disposition(p, ["\tfilename=\"" + (p.fileName + "\"")] + ([""] + rest));
    var more := ["Content-Transfer-Encoding: " + "base64"] + tail;
    TakeField("Content-Type: ", p.contentType + ";", [b] + more);
    PassField(a, [b] + more, "\tname=\"", 0);
    TakeField("\tname=\"", p.fileName + "\"", more);
    PassField(a, [b] + more, "Content-Transfer-Encoding: ", 9);
    PassField(b, more, "Content-Transfer-Encoding: ", 0);
    TakeField("Content-Transfer-Encoding: ", "base64", tail);
  }

  /** The first three lines have none of the other fields. */
  lemma PastType(p: Part, rest: seq<string>, name: string)
    requires name in ["Content-Disposition: ", "Content-ID: <", "\tfilename=\""]
    ensures Field(HeaderOf(p, rest), name) == Field(Disposition(p, ["\tfilename=\"" + (p.fileName + "\"")] + ([""] + rest)), name)
  {
    hide Field, Disposition;
    var a, b, c := "Content-Type: " + (p.contentType + ";"), "\tname=\"" + (p.fileName + "\""), "Content-Transfer-Encoding: " + "base64";
    var tail := Disposition(p, ["\tfilename=\"" + (p.fileName + "\"")] + ([""] + rest));
    var i := if name[0] == '\t' then 0 else 8;
    PassField(a, [b] + ([c] + tail), name, i);
    PassField(b, [c] + tail, name, if name[0] == '\t' then 1 else 0);
    PassField(c, tail, name, i);
  }

  lemma PartDisposition(p: Part, rest: seq<string>)
    ensures Field(HeaderOf(p, rest), "Content-Disposition: ") == if p.contentId != "" then "inline;" else "attachment;"
  {
    hide Field, HeaderOf;
    PastType(p, rest, "Content-Disposition: ");
    var tail := ["\tfilename=\"" + (p.fileName + "\"")] + ([""] + rest);
    if p.contentId != "" {
      PassField("Content-ID: <" + (p.contentId + ">"), ["Content-Disposition: " + "inline;"] + tail, "Content-Disposition: ", 8);
      TakeField("Content-Disposition: ", "inline;", tail);
    } else {
      TakeField("Content-Disposition: ", "attachment;", tail);
    }
  }

  lemma PartId(p: Part, rest: seq<string>)
    ensures Field(HeaderOf(p, rest), "Content-ID: <") == if p.contentId != "" then p.contentId + ">" else ""
  {
    hide Field, HeaderOf;
    PastType(p, rest, "Content-ID: <");
    var fileName := "\tfilename=\"" + (p.fileName + "\"");
    if p.contentId != "" {
      TakeField("Content-ID: <", p.contentId + ">", ["Content-Disposition: " + "inline;"] + ([fileName] + ([""] + rest)));
    } else {
      PassField("Content-Disposition: " + "attachment;", [fileName] + ([""] + rest), "Content-ID: <", 8);
      PassField(fileName, [""] + rest, "Content-ID: <", 0);
      FieldHere("", rest, "Content-ID: <");
    }
  }

  lemma PartName(p: Part, rest: seq<string>)
    ensures Field(HeaderOf(p, rest), "\tfilename=\"") == p.fileName + "\""
  {
    hide Field, HeaderOf;
    PastType(p, rest, "\tfilename=\"");
    var fileName := "\tfilename=\"" + (p.fileName + "\"");
    var tail := [fileName] + ([""] + rest);
    if p.contentId != "" {
      PassField("Content-ID: <" + (p.contentId + ">"), ["Content-Disposition: " + "inline;"] + tail, "\tfilename=\"", 0);
      PassField("Content-Disposition: " + "inline;", tail, "\tfilename=\"", 0);
    } else {
      PassField("Content-Disposition: " + "attachment;", tail, "\tfilename=\"", 0);
    }
    TakeField("\tfilename=\"", p.fileName + "\"", [""] + rest);
  }

  /**
   * A reader's part and what was to be sent: the bytes and the disposition are right, and so are
   * type, name and id unless they have the mark in them that ends them.
   */
  ghost predicate Describes(e: Entity, p: Part) {
    && e.content == p.data
    && e.disposition == (if p.contentId != "" then "inline" else "attachment")
    && (e.contentType == p.contentType <==> ';' !in p.contentType)
    && (e.fileName == p.fileName <==> '"' !in p.fileName) && (e.name == p.fileName <==> '"' !in p.fileName)
    && (e.contentId == p.contentId <==> '>' !in p.contentId)
  }

  lemma PartReadBack(p: Part)
    ensures Describes(ReadEntity(PartLines(p)), p)
  {
    hide Field, HeaderOf, PartLines, AfterHeader, B64Data, UpTo, Behind, Stripped;
    var rest := ContentLines(p) + ["", ""];
    HeaderOfIs(p);
    PartType(p, rest);
    PartDisposition(p, rest);
    PartId(p, rest);
    PartName(p, rest);
    DataReadBack(p);
    Marked(p.contentType, ';', ";");
    Marked(p.fileName, '"', "\"");
    Marked(p.contentId, '>', ">");
    Marked("inline", ';', ";");
    Marked("attachment", ';', ";");
    assert "inline" + ";" == "inline;" && "attachment" + ";" == "attachment;";
    UpToNothing('>');
  }

  lemma Marked(v: string, c: char, mark: string)
    requires mark == [c]
    ensures UpTo(v + mark, c) == v <==> c !in v
  {
    UpToIs(v, c, "");
    assert v + [c] + "" == v + mark;
  }
}
