/**
 The CSV writer, and a reader of section 2 of RFC 4180 that undoes it. A cell is the text String() gives
 for its value, or None for null and undefined.
 */
module Csv {
  import opened Wrappers

  type Cell = Option<string>

  const BOM: string := "\U{FEFF}"

  predicate EndsPlain(ch: char) { ch == ',' || ch == '\r' || ch == '\n' }

  predicate NeedsQuotes(text: string) {
    exists i :: 0 <= i < |text| && (text[i] == '"' || EndsPlain(text[i]))
  }

  function Doubled(text: string): string {
    if text == "" then "" else (if text[0] == '"' then "\"\"" else [text[0]]) + Doubled(text[1..])
  }

  function CellText(c: Cell): string {
    if c.None? then "" else if NeedsQuotes(c.value) then "\"" + Doubled(c.value) + "\"" else c.value
  }

  function Join(parts: seq<string>, separator: string): string {
    if parts == [] then "" else if |parts| == 1 then parts[0] else parts[0] + separator + Join(parts[1..], separator)
  }

  function Line(row: seq<Cell>): string {
    Join(seq(|row|, i requires 0 <= i < |row| => CellText(row[i])), ",")
  }

  function ToCsv(headers: seq<string>, rows: seq<seq<Cell>>): string {
    var all := AllRows(headers, rows);
    BOM + Join(seq(|all|, i requires 0 <= i < |all| => Line(all[i])), "\r\n") + "\r\n"
  }

  function AllRows(headers: seq<string>, rows: seq<seq<Cell>>): seq<seq<Cell>> {
    if |headers| > 0 then [seq(|headers|, i requires 0 <= i < |headers| => Some(headers[i]))] + rows else rows
  }

  // ----- The reader -----

  /**
   A document begins with the byte order mark; a cell is written as it is, or quoted if it could be misread
   otherwise.
  */
  lemma WrittenPlainly(headers: seq<string>, rows: seq<seq<Cell>>, text: string)
    ensures |ToCsv(headers, rows)| > 0 && ToCsv(headers, rows)[0] == '\U{FEFF}'
    ensures var misread := '"' in text || ',' in text || '\r' in text || '\n' in text;
            CellText(Some(text)) == if misread then "\"" + Doubled(text) + "\"" else text
    ensures CellText(None) == ""
  {
    assert NeedsQuotes(text) <==> '"' in text || ',' in text || '\r' in text || '\n' in text;
  }

  function ReadPlain(s: string): (string, string) {
    if s == "" || EndsPlain(s[0]) then ("", s)
    else var (field, rest) := ReadPlain(s[1..]); ([s[0]] + field, rest)
  }

  /** The rest of a quoted field, up to a quote that is not doubled. */
  function ReadQuoted(s: string): Option<(string, string)> {
    if s == "" then None
    else if s[0] != '"' then
      match ReadQuoted(s[1..])
      case None => None
      case Some((field, rest)) => Some(([s[0]] + field, rest))
    else if |s| > 1 && s[1] == '"' then
      match ReadQuoted(s[2..])
      case None => None
      case Some((field, rest)) => Some(("\"" + field, rest))
    else Some(("", s[1..]))
  }

  function ReadField(s: string): (r: Option<(string, string)>)
    ensures r.Some? ==> |r.value.1| <= |s|
  {
    if s != "" && s[0] == '"' then
      QuotedShorter(s[1..]);
      ReadQuoted(s[1..])
    else
      PlainShorter(s);
      Some(ReadPlain(s))
  }

  lemma PlainShorter(s: string)
    ensures |ReadPlain(s).1| <= |s|
  {}

  lemma QuotedShorter(s: string)
    ensures ReadQuoted(s).Some? ==> |ReadQuoted(s).value.1| < |s|
  {}

  /** Fields up to the end of the line. */
  function ReadRecord(s: string): (r: Option<(seq<string>, string)>)
    ensures r.Some? ==> |r.value.1| < |s|
    decreases |s|
  {
    match ReadField(s)
    case None => None
    case Some((field, rest)) =>
      if rest != "" && rest[0] == ',' then
        match ReadRecord(rest[1..])
        case None => None
        case Some((fields, after)) => Some(([field] + fields, after))
      else if |rest| >= 2 && rest[..2] == "\r\n" then Some(([field], rest[2..]))
      else None
  }

  function ReadRecords(s: string): Option<seq<seq<string>>>
    decreases |s|
  {
    if s == "" then Some([])
    else
      match ReadRecord(s)
      case None => None
      case Some((record, rest)) =>
        match ReadRecords(rest)
        case None => None
        case Some(records) => Some([record] + records)
  }

  function ReadCsv(document: string): Option<seq<seq<string>>> {
    if BOM <= document then ReadRecords(document[|BOM|..]) else ReadRecords(document)
  }

  // ----- Reading undoes writing -----

  function TextOf(c: Cell): string { if c.None? then "" else c.value }

  function Texts(row: seq<Cell>): (t: seq<string>)
    ensures |t| == |row| && forall i :: 0 <= i < |row| ==> t[i] == TextOf(row[i])
  {
    seq(|row|, i requires 0 <= i < |row| => TextOf(row[i]))
  }

  predicate EndsField(s: string) { s != "" && (s[0] == ',' || s[0] == '\r') }

  lemma {:induction false} PlainReadsBack(text: string, after: string)
    requires !NeedsQuotes(text) && EndsField(after)
    ensures ReadPlain(text + after) == (text, after)
    decreases |text|
  {
    if text == "" {
      assert text + after == after;
    } else {
      assert !EndsPlain(text[0]) && (text + after)[0] == text[0];
      assert (text + after)[1..] == text[1..] + after && text == [text[0]] + text[1..];
      assert forall i :: 0 <= i < |text[1..]| ==> text[1..][i] == text[i + 1];
      PlainReadsBack(text[1..], after);
    }
  }

  lemma Regroup(a: string, b: string, c: string)
    ensures (a + b) + c == a + (b + c)
  {}

  lemma {:induction false} QuotedReadsBack(text: string, after: string)
    requires EndsField(after)
    ensures ReadQuoted(Doubled(text) + ("\"" + after)) == Some((text, after))
    decreases |text|
  {
    hide ReadQuoted, EndsField;
    if text == "" {
      assert Doubled(text) + ("\"" + after) == "\"" + after;
      QuoteEnds(after);
    } else {
      var quote := "\"" + after;
      QuotedReadsBack(text[1..], after);
      QuotedStep(text[0], Doubled(text[1..]) + quote);
      Regroup(if text[0] == '"' then "\"\"" else [text[0]], Doubled(text[1..]), quote);
      assert text == [text[0]] + text[1..];
    }
  }

  lemma QuoteEnds(after: string)
    requires EndsField(after)
    ensures ReadQuoted("\"" + after) == Some(("", after))
  {
    assert ("\"" + after)[1] == after[0] && ("\"" + after)[1..] == after;
  }

  lemma QuotedStep(ch: char, tail: string)
    ensures var r := ReadQuoted(tail);
            ReadQuoted((if ch == '"' then "\"\"" else [ch]) + tail) ==
            if r.None? then None else Some(([ch] + r.value.0, r.value.1))
  {
    if ch == '"' {
      assert ("\"\"" + tail)[2..] == tail;
    } else {
      assert ([ch] + tail)[1..] == tail;
    }
  }

  lemma PlainStart(text: string)
    ensures !NeedsQuotes("") && (!NeedsQuotes(text) && text != "" ==> text[0] != '"')
  {}

  lemma CellReadsBack(c: Cell, after: string)
    requires EndsField(after)
    ensures ReadField(CellText(c) + after) == Some((TextOf(c), after))
  {
    hide ReadPlain, ReadQuoted, Doubled, NeedsQuotes;
    var text := TextOf(c);
    PlainStart(text);
    if NeedsQuotes(text) {
      QuotedReadsBack(text, after);
      var s := CellText(c) + after;
      assert s[1..] == Doubled(text) + ("\"" + after);
    } else {
      PlainReadsBack(text, after);
      assert (text + after)[0] == if text == "" then after[0] else text[0];
    }
  }

  lemma LineStep(row: seq<Cell>)
    requires row != []
    ensures Line(row) == if |row| == 1 then CellText(row[0]) else CellText(row[0]) + "," + Line(row[1..])
  {
    hide CellText;
    var parts := seq(|row|, i requires 0 <= i < |row| => CellText(row[i]));
    var rest := seq(|row[1..]|, i requires 0 <= i < |row[1..]| => CellText(row[1..][i]));
    assert parts[1..] == rest;
  }

  lemma {:induction false} LineReadsBack(row: seq<Cell>, rest: string)
    ensures ReadRecord(Line(row) + "\r\n" + rest) == Some((if row == [] then [""] else Texts(row), rest))
    decreases |row|
  {
    hide CellText, ReadField, Line;
    var end := "\r\n" + rest;
    assert end[..2] == "\r\n" && end[2..] == rest;
    if row == [] {
      EmptyLine();
      CellReadsBack(None, end);
      assert Line(row) + "\r\n" + rest == CellText(None) + end by { NoCell(); }
    } else {
      LineStep(row);
      if |row| == 1 {
        assert Line(row) + "\r\n" + rest == CellText(row[0]) + end;
        CellReadsBack(row[0], end);
        assert Texts(row) == [TextOf(row[0])];
      } else {
        var after := "," + (Line(row[1..]) + "\r\n" + rest);
        assert Line(row) + "\r\n" + rest == CellText(row[0]) + after;
        CellReadsBack(row[0], after);
        assert after[1..] == Line(row[1..]) + "\r\n" + rest;
        LineReadsBack(row[1..], rest);
        assert Texts(row) == [TextOf(row[0])] + Texts(row[1..]);
      }
    }
  }

  lemma EmptyLine()
    ensures Line([]) == ""
  {}

  lemma NoCell()
    ensures CellText(None) == ""
  {}

  /** What a reader sees of the rows: a row of no cells looks like one empty cell. */
  function Seen(all: seq<seq<Cell>>): (t: seq<seq<string>>)
    ensures |t| == |all| && forall i :: 0 <= i < |all| ==> t[i] == if all[i] == [] then [""] else Texts(all[i])
  {
    if all == [] then [] else [if all[0] == [] then [""] else Texts(all[0])] + Seen(all[1..])
  }

  function Body(all: seq<seq<Cell>>): string {
    Join(seq(|all|, i requires 0 <= i < |all| => Line(all[i])), "\r\n") + "\r\n"
  }

  lemma RecordThenRest(s: string, record: seq<string>, rest: string, records: seq<seq<string>>)
    requires ReadRecord(s) == Some((record, rest)) && ReadRecords(rest) == Some(records)
    ensures ReadRecords(s) == Some([record] + records)
  {
    hide ReadRecord;
  }

  lemma NothingLeft()
    ensures ReadRecords("") == Some([])
  {}

  lemma BodyStep(all: seq<seq<Cell>>)
    requires all != []
    ensures Body(all) == Line(all[0]) + "\r\n" + if |all| == 1 then "" else Body(all[1..])
  {
    hide Line;
    var lines, tail := seq(|all|, i requires 0 <= i < |all| => Line(all[i])), all[1..];
    assert lines[1..] == seq(|tail|, i requires 0 <= i < |tail| => Line(tail[i]));
  }

  lemma {:induction false} BodyReadsBack(all: seq<seq<Cell>>)
    requires all != []
    ensures ReadRecords(Body(all)) == Some(Seen(all))
    decreases |all|
  {
    hide Line, ReadRecord, ReadRecords, Texts, Body, Seen;
    var rest := if |all| == 1 then "" else Body(all[1..]);
    LineReadsBack(all[0], rest);
    BodyStep(all);
    if |all| == 1 { NothingLeft(); } else { BodyReadsBack(all[1..]); }
    var records := if |all| == 1 then [] else Seen(all[1..]);
    SeenStep(all);
    RecordThenRest(Body(all), Seen(all)[0], rest, records);
  }

  lemma SeenStep(all: seq<seq<Cell>>)
    requires all != []
    ensures Seen(all)[0] == (if all[0] == [] then [""] else Texts(all[0]))
    ensures Seen(all) == [Seen(all)[0]] + if |all| == 1 then [] else Seen(all[1..])
  {
    hide Texts;
    if |all| == 1 { assert Seen(all[1..]) == []; }
  }

  ghost predicate ReadsBack(headers: seq<string>, rows: seq<seq<Cell>>) {
    var all := AllRows(headers, rows);
    var read := ReadCsv(ToCsv(headers, rows));
    read.Some? && |read.value| == |all| && forall i :: 0 <= i < |all| ==> read.value[i] == Texts(all[i])
  }

  /**
   The document reads back cell for cell, nulls as empty text, exactly when it has a line and no row is without
   cells.
  */
  lemma ReadsBackIff(headers: seq<string>, rows: seq<seq<Cell>>)
    ensures ReadsBack(headers, rows) <==> (headers != [] || rows != []) && forall r :: r in rows ==> r != []
  {
    hide Texts, ReadRecords;
    var all := AllRows(headers, rows);
    var document := ToCsv(headers, rows);
    assert document == BOM + Body(all);
    assert BOM <= document && document[|BOM|..] == Body(all);
    if all != [] {
      BodyReadsBack(all);
      RowsAmong(headers, rows);
      forall i | 0 <= i < |all| ensures Seen(all)[i] == Texts(all[i]) <==> all[i] != [] { NoTexts(all[i]); }
    } else {
      NothingReadsAsALine();
    }
  }

  lemma RowsAmong(headers: seq<string>, rows: seq<seq<Cell>>)
    ensures (forall i :: 0 <= i < |AllRows(headers, rows)| ==> AllRows(headers, rows)[i] != [])
            <==> forall r :: r in rows ==> r != []
  {
    var all := AllRows(headers, rows);
    if forall i :: 0 <= i < |all| ==> all[i] != [] {
      forall r | r in rows ensures r != [] {
        var j :| 0 <= j < |rows| && rows[j] == r;
        assert all[|all| - |rows| + j] == r;
      }
    }
    if forall r :: r in rows ==> r != [] {
      forall i | 0 <= i < |all| ensures all[i] != [] {
        if i >= |all| - |rows| { assert all[i] == rows[i - (|all| - |rows|)] && all[i] in rows; }
      }
    }
  }

  lemma NoTexts(row: seq<Cell>)
    ensures row == [] ==> Texts(row) == []
  {}

  lemma NothingReadsAsALine()
    ensures ReadRecords(Body([])) == Some([[""]])
  {
    hide Line, ReadRecord, ReadRecords;
    LineReadsBack([], "");
    NothingLeft();
    EmptyLine();
    assert Body([]) == Line([]) + "\r\n" + "";
    var none: seq<seq<string>> := [];
    RecordThenRest(Body([]), [""], "", none);
    assert [[""]] + none == [[""]];
  }
}
