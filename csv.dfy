/**
 * CSV field quoting (csvEscape, app.js:17) in the style of section 2 of
 * RFC 4180, together with a reader for that format.  The reader inverts
 * the two report writers: everything they write reads back as the
 * records they meant to write.
 */
module Csv {
  import opened Wrappers
  import opened Text

  /** A value handed to csvEscape: null/undefined, a string or a number. */
  datatype Cell = Missing | Str(s: string) | Num(n: int)

  /** `String(v ?? '')`. */
  function CellText(v: Cell): string
  {
    match v
    case Missing => ""
    case Str(s) => s
    case Num(n) => IntToDecimal(n)
  }

  /** `s.replace(/"/g, '""')`. */
  function Doubled(s: string): string
  {
    if s == [] then []
    else (if s[0] == '"' then "\"\"" else [s[0]]) + Doubled(s[1..])
  }

  /** csvEscape: the text of `v` between double quotes, inner quotes doubled. */
  function CsvEscape(v: Cell): (r: string)
    ensures |r| >= 2 && r[0] == '"' && r[|r| - 1] == '"'
  {
    "\"" + Doubled(CellText(v)) + "\""
  }

  /** Undoes the quote doubling; fails on a quote that is not doubled. */
  function Undoubled(s: string): Option<string>
    decreases |s|
  {
    if s == [] then Some([])
    else if s[0] == '"' then
      if |s| >= 2 && s[1] == '"' then
        match Undoubled(s[2..])
        case None => None
        case Some(t) => Some("\"" + t)
      else None
    else
      match Undoubled(s[1..])
      case None => None
      case Some(t) => Some([s[0]] + t)
  }

  /** Strips the enclosing quotes of an escaped field and undoes the doubling. */
  function Unquote(f: string): Option<string>
  {
    if |f| >= 2 && f[0] == '"' && f[|f| - 1] == '"' then Undoubled(f[1..|f| - 1]) else None
  }

  lemma {:induction false} UndoubledDoubled(s: string)
    ensures Undoubled(Doubled(s)) == Some(s)
  {
    if s != [] {
      UndoubledDoubled(s[1..]);
      var d := Doubled(s);
      if s[0] == '"' {
        assert d[2..] == Doubled(s[1..]);
      } else {
        assert d[1..] == Doubled(s[1..]);
      }
      assert s == [s[0]] + s[1..];
    }
  }

  lemma {:induction false} DoubledUndoubled(t: string, s: string)
    requires Undoubled(t) == Some(s)
    ensures Doubled(s) == t
    decreases |t|
  {
    if t != [] {
      if t[0] == '"' {
        var u := Undoubled(t[2..]).value;
        DoubledUndoubled(t[2..], u);
        assert t == "\"\"" + t[2..];
      } else {
        var u := Undoubled(t[1..]).value;
        DoubledUndoubled(t[1..], u);
        assert t == [t[0]] + t[1..];
      }
    }
  }

  /** Unquoting an escaped field gives back the original text. */
  lemma UnquoteEscape(v: Cell)
    ensures Unquote(CsvEscape(v)) == Some(CellText(v))
  {
    var f := CsvEscape(v);
    assert f[1..|f| - 1] == Doubled(CellText(v));
    UndoubledDoubled(CellText(v));
  }

  /** A sequence of at least two elements is its first, its middle and its last. */
  lemma Framed<T>(f: seq<T>)
    requires |f| >= 2
    ensures f == [f[0]] + f[1..|f| - 1] + [f[|f| - 1]]
  {
  }

  /** The only fields that unquote to `s` are the escaping of `s`. */
  lemma UnquoteOnlyEscaped(f: string, s: string)
    requires Unquote(f) == Some(s)
    ensures f == CsvEscape(Str(s))
  {
    var mid := f[1..|f| - 1];
    DoubledUndoubled(mid, s);
    Framed(f);
    assert [f[0]] == "\"" && [f[|f| - 1]] == "\"";
  }

  /** `cells.map(csvEscape).join(',')`. */
  function EscapedLine(cells: seq<Cell>): string
  {
    Join(seq(|cells|, k requires 0 <= k < |cells| => CsvEscape(cells[k])), ",")
  }

  function Texts(cells: seq<Cell>): (r: seq<string>)
    ensures |r| == |cells|
  {
    seq(|cells|, k requires 0 <= k < |cells| => CellText(cells[k]))
  }

  function StrCells(fields: seq<string>): (r: seq<Cell>)
    ensures |r| == |fields|
  {
    seq(|fields|, k requires 0 <= k < |fields| => Str(fields[k]))
  }

  /** The records of a document joined with CRLF, as both writers do. */
  function Document(lines: seq<string>): string
  {
    Join(lines, "\r\n")
  }

  // ---------------------------------------------------------------------
  // Reader (section 2 of RFC 4180: fields separated by commas, records by
  // CRLF, a field either enclosed in double quotes or free of quotes,
  // commas and line breaks)
  // ---------------------------------------------------------------------

  predicate IsTextData(c: char)
  {
    c != '"' && c != ',' && c != '\r' && c != '\n'
  }

  /** A field that may be written without quotes. */
  predicate Bare(f: string)
  {
    forall k :: 0 <= k < |f| ==> IsTextData(f[k])
  }

  /** Reads the inside of a quoted field, after its opening quote, up to the closing quote. */
  function ReadQuoted(s: string): (r: Option<(string, string)>)
    ensures r.Some? ==> |r.value.1| < |s|
    decreases |s|
  {
    if s == [] then None
    else if s[0] == '"' then
      if |s| >= 2 && s[1] == '"' then
        match ReadQuoted(s[2..])
        case None => None
        case Some(p) => Some(("\"" + p.0, p.1))
      else Some(("", s[1..]))
    else
      match ReadQuoted(s[1..])
      case None => None
      case Some(p) => Some(([s[0]] + p.0, p.1))
  }

  /** Reads an unquoted field. */
  function ReadBare(s: string): (r: (string, string))
    ensures r.0 + r.1 == s
  {
    if s != [] && IsTextData(s[0]) then
      var p := ReadBare(s[1..]);
      assert s == [s[0]] + s[1..];
      ([s[0]] + p.0, p.1)
    else ("", s)
  }

  function ReadField(s: string): (r: Option<(string, string)>)
    ensures r.Some? ==> |r.value.1| <= |s|
  {
    if s != [] && s[0] == '"' then ReadQuoted(s[1..]) else Some(ReadBare(s))
  }

  /** Reads comma-separated fields up to a line break or the end. */
  function ReadRecord(s: string): (r: Option<(seq<string>, string)>)
    ensures r.Some? ==> |r.value.1| <= |s|
    decreases |s|
  {
    match ReadField(s)
    case None => None
    case Some(p) =>
      if p.1 != [] && p.1[0] == ',' then
        match ReadRecord(p.1[1..])
        case None => None
        case Some(q) => Some(([p.0] + q.0, q.1))
      else Some(([p.0], p.1))
  }

  /** Reads a whole document: records separated by CRLF. */
  function ReadCsv(s: string): Option<seq<seq<string>>>
    decreases |s|
  {
    match ReadRecord(s)
    case None => None
    case Some(p) =>
      if p.1 == [] then Some([p.0])
      else if |p.1| >= 2 && p.1[0] == '\r' && p.1[1] == '\n' then
        match ReadCsv(p.1[2..])
        case None => None
        case Some(rs) => Some([p.0] + rs)
      else None
  }

  /** What may follow a field inside a record. */
  predicate FieldEnd(rest: string)
  {
    rest == [] || rest[0] == ',' || rest[0] == '\r'
  }

  lemma {:induction false} ReadQuotedDoubled(s: string, rest: string)
    requires rest == [] || rest[0] != '"'
    ensures ReadQuoted(Doubled(s) + "\"" + rest) == Some((s, rest))
  {
    var x := Doubled(s) + "\"" + rest;
    if s == [] {
      assert x == "\"" + rest;
      assert x[1..] == rest;
    } else {
      ReadQuotedDoubled(s[1..], rest);
      var y := Doubled(s[1..]) + "\"" + rest;
      if s[0] == '"' {
        assert x == "\"\"" + y;
        assert x[2..] == y;
        assert "\"" + s[1..] == s;
      } else {
        assert x == [s[0]] + y;
        assert x[1..] == y;
        assert [s[0]] + s[1..] == s;
      }
    }
  }

  lemma ReadFieldEscaped(v: Cell, rest: string)
    requires FieldEnd(rest)
    ensures ReadField(CsvEscape(v) + rest) == Some((CellText(v), rest))
  {
    var x := CsvEscape(v) + rest;
    assert x[1..] == Doubled(CellText(v)) + "\"" + rest;
    ReadQuotedDoubled(CellText(v), rest);
  }

  lemma {:induction false} ReadBareField(f: string, rest: string)
    requires Bare(f) && FieldEnd(rest)
    ensures ReadBare(f + rest) == (f, rest)
  {
    if f != [] {
      ReadBareField(f[1..], rest);
      assert (f + rest)[1..] == f[1..] + rest;
      assert [f[0]] + f[1..] == f;
    } else {
      assert f + rest == rest;
    }
  }

  /** `line` is a record whose fields are `rec`: either all escaped, or all written bare. */
  predicate Encodes(line: string, rec: seq<string>)
  {
    |rec| > 0 &&
    (line == EscapedLine(StrCells(rec)) ||
     (line == Join(rec, ",") && forall k :: 0 <= k < |rec| ==> Bare(rec[k])))
  }

  lemma EscapedLineTail(rec: seq<string>)
    requires |rec| >= 2
    ensures EscapedLine(StrCells(rec)) == CsvEscape(Str(rec[0])) + "," + EscapedLine(StrCells(rec[1..]))
  {
    var es := seq(|rec|, k requires 0 <= k < |rec| => CsvEscape(StrCells(rec)[k]));
    var ts := seq(|rec| - 1, k requires 0 <= k < |rec| - 1 => CsvEscape(StrCells(rec[1..])[k]));
    assert es[1..] == ts;
  }

  /** A bare field followed by a separator reads back unchanged. */
  lemma ReadFieldBare(f: string, rest: string)
    requires Bare(f) && FieldEnd(rest)
    ensures ReadField(f + rest) == Some((f, rest))
  {
    ReadBareField(f, rest);
    if f == [] {
      assert f + rest == rest;
    } else {
      assert (f + rest)[0] == f[0];
    }
  }

  /** A field followed by a comma and a record reads as one longer record. */
  lemma ReadRecordStep(s: string, f: string, after: string, fs: seq<string>, rest: string)
    requires ReadField(s) == Some((f, "," + after))
    requires ReadRecord(after) == Some((fs, rest))
    ensures ReadRecord(s) == Some(([f] + fs, rest))
  {
    assert ("," + after)[1..] == after;
  }

  /** A field followed by a line break or the end is a record of one field. */
  lemma ReadRecordLast(s: string, f: string, rest: string)
    requires ReadField(s) == Some((f, rest))
    requires rest == [] || rest[0] == '\r'
    ensures ReadRecord(s) == Some(([f], rest))
  {
  }

  lemma {:induction false} ReadEscapedLine(rec: seq<string>, rest: string)
    requires |rec| > 0 && (rest == [] || rest[0] == '\r')
    ensures ReadRecord(EscapedLine(StrCells(rec)) + rest) == Some((rec, rest))
    decreases |rec|
  {
    if |rec| == 1 {
      assert EscapedLine(StrCells(rec)) == CsvEscape(Str(rec[0]));
      ReadFieldEscaped(Str(rec[0]), rest);
      ReadRecordLast(EscapedLine(StrCells(rec)) + rest, rec[0], rest);
      assert [rec[0]] == rec;
    } else {
      var head := CsvEscape(Str(rec[0]));
      var tailLine := EscapedLine(StrCells(rec[1..]));
      EscapedLineTail(rec);
      ReadEscapedLine(rec[1..], rest);
      AppendAssoc(head, ",", tailLine, rest);
      ReadFieldEscaped(Str(rec[0]), "," + (tailLine + rest));
      ReadRecordStep(EscapedLine(StrCells(rec)) + rest, rec[0], tailLine + rest, rec[1..], rest);
      assert [rec[0]] + rec[1..] == rec;
    }
  }

  lemma {:induction false} ReadBareLine(rec: seq<string>, rest: string)
    requires |rec| > 0 && (rest == [] || rest[0] == '\r')
    requires forall k :: 0 <= k < |rec| ==> Bare(rec[k])
    ensures ReadRecord(Join(rec, ",") + rest) == Some((rec, rest))
    decreases |rec|
  {
    if |rec| == 1 {
      assert Join(rec, ",") == rec[0];
      ReadFieldBare(rec[0], rest);
      ReadRecordLast(Join(rec, ",") + rest, rec[0], rest);
      assert [rec[0]] == rec;
    } else {
      var tailLine := Join(rec[1..], ",");
      ReadBareLine(rec[1..], rest);
      AppendAssoc(rec[0], ",", tailLine, rest);
      ReadFieldBare(rec[0], "," + (tailLine + rest));
      ReadRecordStep(Join(rec, ",") + rest, rec[0], tailLine + rest, rec[1..], rest);
      assert [rec[0]] + rec[1..] == rec;
    }
  }

  lemma ReadEncodedLine(line: string, rec: seq<string>, rest: string)
    requires Encodes(line, rec) && (rest == [] || rest[0] == '\r')
    ensures ReadRecord(line + rest) == Some((rec, rest))
  {
    if line == EscapedLine(StrCells(rec)) {
      ReadEscapedLine(rec, rest);
    } else {
      ReadBareLine(rec, rest);
    }
  }

  /** A record followed by CRLF and a document reads as one more record in front. */
  lemma ReadCsvStep(s: string, rec: seq<string>, after: string, recs: seq<seq<string>>)
    requires ReadRecord(s) == Some((rec, "\r\n" + after))
    requires ReadCsv(after) == Some(recs)
    ensures ReadCsv(s) == Some([rec] + recs)
  {
    assert ("\r\n" + after)[2..] == after;
  }

  /** A CRLF-joined document of encoded records reads back as exactly those records. */
  lemma {:induction false} ReadDocument(lines: seq<string>, recs: seq<seq<string>>)
    requires |lines| == |recs| > 0
    requires forall k :: 0 <= k < |lines| ==> Encodes(lines[k], recs[k])
    ensures ReadCsv(Document(lines)) == Some(recs)
    decreases |lines|
  {
    if |lines| == 1 {
      ReadEncodedLine(lines[0], recs[0], "");
      assert Document(lines) == lines[0] + "";
      assert [recs[0]] == recs;
    } else {
      var tail := Document(lines[1..]);
      ReadDocument(lines[1..], recs[1..]);
      AppendAssoc(lines[0], "\r\n", tail, "");
      assert Document(lines) == lines[0] + ("\r\n" + tail);
      ReadEncodedLine(lines[0], recs[0], "\r\n" + tail);
      ReadCsvStep(Document(lines), recs[0], tail, recs[1..]);
      assert [recs[0]] + recs[1..] == recs;
    }
  }

  /** A header line followed by record lines reads back as the header's fields and then the records. */
  lemma ReadHeaderAndRecords(header: string, hrec: seq<string>, body: seq<string>, recs: seq<seq<string>>)
    requires Encodes(header, hrec)
    requires |body| == |recs|
    requires forall k :: 0 <= k < |body| ==> Encodes(body[k], recs[k])
    ensures ReadCsv(Document([header] + body)) == Some([hrec] + recs)
  {
    var lines := [header] + body;
    var all := [hrec] + recs;
    forall k | 0 <= k < |lines| ensures Encodes(lines[k], all[k]) {
      if k > 0 {
        assert lines[k] == body[k - 1] && all[k] == recs[k - 1];
      }
    }
    ReadDocument(lines, all);
  }

  /** Escaping a value is escaping its text. */
  lemma EscapedLineOfTexts(cells: seq<Cell>)
    ensures EscapedLine(cells) == EscapedLine(StrCells(Texts(cells)))
  {
    var a := seq(|cells|, k requires 0 <= k < |cells| => CsvEscape(cells[k]));
    var b := seq(|cells|, k requires 0 <= k < |cells| => CsvEscape(StrCells(Texts(cells))[k]));
    assert a == b;
  }
}
