/** The CSV reader and writer (src/nvidia/csvio.rs). The reader is a character loop
    with one character of lookahead; `Read` is the same machine as a function, so that
    the round trip can be stated. */
module Csv {
  import opened Lists

  type Record = seq<string>

  datatype Reader = Reader(
    records: seq<Record>,
    record: Record,
    field: string,
    inQuotes: bool,
    fieldStarted: bool)
  {
    function Push(c: char): Reader {
      this.(field := field + [c])
    }

    function Flush(): Reader {
      if fieldStarted || field != "" || record != [] then
        this.(records := records + [record + [field]], record := [], field := "")
      else this
    }

    function Consume(c: char): Reader {
      if inQuotes then
        if c == '"' then this.(inQuotes := false) else Push(c)
      else
        match c
        case '"' => this.(inQuotes := true, fieldStarted := true)
        case ',' => this.(record := record + [field], field := "", fieldStarted := true)
        case '\r' => this
        case '\n' => Flush().(fieldStarted := false)
        case _ => Push(c)
    }
  }

  const START := Reader([], [], "", false, false)

  function Read(st: Reader, text: string): Reader
    decreases |text|
  {
    if text == [] then st
    else if st.inQuotes && text[0] == '"' && |text| > 1 && text[1] == '"' then Read(st.Push('"'), text[2..])
    else Read(st.Consume(text[0]), text[1..])
  }

  function Parsed(text: string): seq<Record> {
    Read(START, text).Flush().records
  }

  method ParseRecords(text: string) returns (records: seq<Record>)
    ensures records == Parsed(text)
  {
    records := [];
    var record: Record, field, inQuotes, fieldStarted := [], "", false, false;
    var i := 0;
    while i < |text|
      invariant 0 <= i <= |text|
      invariant Read(Reader(records, record, field, inQuotes, fieldStarted), text[i..]) == Read(START, text)
    {
      var c := text[i];
      assert text[i..][1..] == text[i + 1..];
      if inQuotes {
        if c == '"' {
          if i + 1 < |text| && text[i + 1] == '"' {
            assert text[i..][2..] == text[i + 2..];
            field := field + ['"'];
            i := i + 1;
          } else {
            inQuotes := false;
          }
        } else {
          field := field + [c];
        }
      } else {
        match c {
          case '"' =>
            inQuotes := true;
            fieldStarted := true;
          case ',' =>
            record, field := record + [field], "";
            fieldStarted := true;
          case '\r' =>
          case '\n' =>
            if fieldStarted || field != "" || record != [] {
              record, field := record + [field], "";
              records, record := records + [record], [];
            }
            fieldStarted := false;
          case _ =>
            field := field + [c];
        }
      }
      i := i + 1;
    }
    if fieldStarted || field != "" || record != [] {
      record := record + [field];
      records := records + [record];
    }
  }

  // ---------------------------------------------------------------------- writer

  predicate NeedsQuotes(f: string) {
    exists i | 0 <= i < |f| :: f[i] == ',' || f[i] == '"' || f[i] == '\r' || f[i] == '\n'
  }

  /** A field is quoted if and only if it holds a delimiter, a quote or a line break, and
      a quoted one is two characters longer, and one more for each of its quotes. */
  lemma CellIsMinimal(f: string)
    ensures Cell(f) == f <==> ',' !in f && '"' !in f && '\r' !in f && '\n' !in f
    ensures Cell(f) != f ==> |Cell(f)| == |f| + 2 + multiset(f)['"']
  {
    DoubledLength(f);
  }

  lemma {:induction false} DoubledLength(f: string)
    ensures |Doubled(f)| == |f| + multiset(f)['"']
  {
    if f != "" {
      DoubledLength(f[1..]);
      assert f == [f[0]] + f[1..];
    }
  }

  function Doubled(f: string): string {
    if f == [] then [] else (if f[0] == '"' then "\"\"" else [f[0]]) + Doubled(f[1..])
  }

  function Cell(f: string): string {
    if NeedsQuotes(f) then "\"" + Doubled(f) + "\"" else f
  }

  function Joined(fields: Record): string {
    if fields == [] then ""
    else
      var n := |fields| - 1;
      Joined(fields[..n]) + (if n > 0 then "," else "") + Cell(fields[n])
  }

  function Written(records: seq<Record>): string {
    if records == [] then "" else Joined(records[0]) + "\r\n" + Written(records[1..])
  }

  lemma JoinedStep(fields: Record, i: nat, before: string)
    requires i < |fields|
    ensures before + Joined(fields[..i + 1])
         == before + Joined(fields[..i]) + (if i > 0 then "," else "") + Cell(fields[i])
  {
    assert fields[..i + 1][..i] == fields[..i];
    var joined, comma := Joined(fields[..i]), if i > 0 then "," else "";
    Assoc(before, joined + comma, Cell(fields[i]));
    Assoc(before, joined, comma);
  }

  method WriteField(out: string, f: string) returns (out': string)
    ensures out' == out + Cell(f)
  {
    out' := out;
    if NeedsQuotes(f) {
      out' := out' + "\"";
      out' := out' + Doubled(f);
      out' := out' + "\"";
      Assoc(out, "\"", Doubled(f));
      Assoc(out, "\"" + Doubled(f), "\"");
    } else {
      out' := out' + f;
    }
  }

  method WriteRecord(out: string, fields: Record) returns (out': string)
    ensures out' == out + Joined(fields) + "\r\n"
  {
    out' := out;
    for i := 0 to |fields|
      invariant out' == out + Joined(fields[..i])
    {
      JoinedStep(fields, i, out);
      if i > 0 {
        out' := out' + ",";
      }
      out' := WriteField(out', fields[i]);
    }
    assert fields[..|fields|] == fields;
    out' := out' + "\r\n";
  }

  // ------------------------------------------------------------------ round trip

  ghost predicate NoQuoteFirst(rest: string) {
    rest == [] || rest[0] != '"'
  }

  /** One character consumed, unless it opens a doubled quote. */
  lemma ReadStep(st: Reader, c: char, rest: string)
    requires st.inQuotes && c == '"' ==> NoQuoteFirst(rest)
    ensures Read(st, [c] + rest) == Read(st.Consume(c), rest)
  {
    assert ([c] + rest)[1..] == rest;
  }

  lemma ReadDoubledQuote(st: Reader, rest: string)
    requires st.inQuotes
    ensures Read(st, "\"\"" + rest) == Read(st.Push('"'), rest)
  {
    assert ("\"\"" + rest)[2..] == rest;
  }

  lemma {:induction false} ReadPlain(st: Reader, f: string, rest: string)
    requires !st.inQuotes && !NeedsQuotes(f)
    ensures Read(st, f + rest) == Read(st.(field := st.field + f), rest)
    decreases |f|
  {
    if f == [] {
      assert f + rest == rest && st.field + f == st.field;
    } else {
      assert f == [f[0]] + f[1..];
      Assoc([f[0]], f[1..], rest);
      ReadStep(st, f[0], f[1..] + rest);
      ReadPlain(st.Push(f[0]), f[1..], rest);
      Assoc(st.field, [f[0]], f[1..]);
    }
  }

  lemma {:induction false} ReadQuoted(st: Reader, f: string, rest: string)
    requires st.inQuotes && NoQuoteFirst(rest)
    ensures Read(st, Doubled(f) + ("\"" + rest)) == Read(st.(field := st.field + f, inQuotes := false), rest)
    decreases |f|
  {
    var close := "\"" + rest;
    if f == [] {
      assert Doubled(f) + close == close && st.field + f == st.field;
      ReadStep(st, '"', rest);
    } else {
      var first := if f[0] == '"' then "\"\"" else [f[0]];
      Assoc(first, Doubled(f[1..]), close);
      if f[0] == '"' {
        ReadDoubledQuote(st, Doubled(f[1..]) + close);
      } else {
        ReadStep(st, f[0], Doubled(f[1..]) + close);
      }
      ReadQuoted(st.Push(f[0]), f[1..], rest);
      assert f == [f[0]] + f[1..];
      Assoc(st.field, [f[0]], f[1..]);
    }
  }

  /** A field as some file may hold it: quoted or not. */
  datatype Styled = Styled(text: string, quoted: bool)

  type Line = seq<Styled>

  /** Quotes are only optional for a text without delimiter, quote or line break. */
  ghost predicate Sound(line: Line) {
    forall i :: 0 <= i < |line| && NeedsQuotes(line[i].text) ==> line[i].quoted
  }

  ghost function Texts(line: Line): (r: Record)
    ensures |r| == |line| && forall i :: 0 <= i < |line| ==> r[i] == line[i].text
  {
    seq(|line|, i requires 0 <= i < |line| => line[i].text)
  }

  ghost function Shown(f: Styled): string {
    if f.quoted then "\"" + Doubled(f.text) + "\"" else f.text
  }

  ghost function Laid(line: Line): string {
    if line == [] then ""
    else
      var n := |line| - 1;
      Laid(line[..n]) + (if n > 0 then "," else "") + Shown(line[n])
  }

  lemma ReadShown(st: Reader, f: Styled, rest: string)
    requires !st.inQuotes && st.field == "" && NoQuoteFirst(rest)
    requires NeedsQuotes(f.text) ==> f.quoted
    ensures Read(st, Shown(f) + rest)
         == Read(st.(field := f.text, fieldStarted := st.fieldStarted || f.quoted), rest)
  {
    assert st.field + f.text == f.text;
    if f.quoted {
      var d := Doubled(f.text);
      Assoc("\"", d, "\"");
      Assoc("\"", d + "\"", rest);
      Assoc(d, "\"", rest);
      ReadStep(st, '"', d + ("\"" + rest));
      ReadQuoted(st.Consume('"'), f.text, rest);
    } else {
      ReadPlain(st, f.text, rest);
    }
  }

  /** The reader's state once all of a line is read but not yet terminated. */
  ghost function AfterLine(st: Reader, line: Line): Reader
    requires line != []
  {
    var n := |line| - 1;
    st.(record := Texts(line[..n]),
        field := line[n].text,
        fieldStarted := st.fieldStarted || n > 0 || line[n].quoted)
  }

  lemma AnotherField(st: Reader, line: Line, f: Styled, rest: string)
    requires !st.inQuotes && line != [] && NoQuoteFirst(rest)
    requires NeedsQuotes(f.text) ==> f.quoted
    ensures Read(AfterLine(st, line), "," + (Shown(f) + rest)) == Read(AfterLine(st, line + [f]), rest)
  {
    var n := |line| - 1;
    ReadStep(AfterLine(st, line), ',', Shown(f) + rest);
    assert Texts(line[..n]) + [line[n].text] == Texts((line + [f])[..n + 1]);
    ReadShown(AfterLine(st, line).Consume(','), f, rest);
  }

  lemma {:induction false} ReadLaid(st: Reader, line: Line, rest: string)
    requires !st.inQuotes && st.field == "" && st.record == [] && line != [] && Sound(line)
    requires NoQuoteFirst(rest)
    ensures Read(st, Laid(line) + rest) == Read(AfterLine(st, line), rest)
    decreases |line|
  {
    var n := |line| - 1;
    if n == 0 {
      assert Laid(line) == Shown(line[n]);
      ReadShown(st, line[n], rest);
    } else {
      var tail := "," + (Shown(line[n]) + rest);
      Assoc(Laid(line[..n]) + ",", Shown(line[n]), rest);
      Assoc(Laid(line[..n]), ",", Shown(line[n]) + rest);
      ReadLaid(st, line[..n], tail);
      AnotherField(st, line[..n], line[n], rest);
      assert line[..n] + [line[n]] == line;
    }
  }

  /** A line the reader skips: nothing at all, or one empty unquoted field. */
  ghost predicate BlankLine(line: Line) {
    line == [] || line == [Styled("", false)]
  }

  ghost function RecordOf(line: Line): seq<Record> {
    if BlankLine(line) then [] else [Texts(line)]
  }

  lemma FlushLine(st: Reader, line: Line)
    requires st == Reader(st.records, [], "", false, false) && line != [] && Sound(line)
    ensures AfterLine(st, line).Flush().(fieldStarted := false)
         == st.(records := st.records + RecordOf(line))
    ensures AfterLine(st, line).Flush().records == st.records + RecordOf(line)
  {
    var n := |line| - 1;
    assert Texts(line[..n]) + [line[n].text] == Texts(line);
    assert st.records + [] == st.records;
    if n == 0 {
      assert BlankLine(line) <==> line[0].text == "" && !line[0].quoted;
    }
  }

  function Terminator(crlf: bool): string {
    if crlf then "\r\n" else "\n"
  }

  lemma ReadTerminator(st: Reader, crlf: bool, rest: string)
    requires !st.inQuotes
    ensures Read(st, Terminator(crlf) + rest) == Read(st.Flush().(fieldStarted := false), rest)
  {
    ReadStep(st, '\n', rest);
    if crlf {
      assert "\r\n" + rest == "\r" + ("\n" + rest);
      ReadStep(st, '\r', "\n" + rest);
    }
  }

  /** A file: terminated lines, each ended by LF or CRLF. */
  type Lines = seq<(Line, bool)>

  ghost function Rendered(lines: Lines): string {
    if lines == [] then ""
    else Laid(lines[0].0) + (Terminator(lines[0].1) + Rendered(lines[1..]))
  }

  ghost function Records(lines: Lines): seq<Record> {
    if lines == [] then [] else RecordOf(lines[0].0) + Records(lines[1..])
  }

  ghost predicate SoundLines(lines: Lines) {
    forall i :: 0 <= i < |lines| ==> Sound(lines[i].0)
  }

  lemma ReadTerminated(st: Reader, line: Line, crlf: bool, rest: string)
    requires st == Reader(st.records, [], "", false, false) && Sound(line)
    ensures Read(st, Laid(line) + (Terminator(crlf) + rest))
         == Read(st.(records := st.records + RecordOf(line)), rest)
  {
    assert st.records + [] == st.records;
    if line == [] {
      assert Laid(line) + (Terminator(crlf) + rest) == Terminator(crlf) + rest;
      ReadTerminator(st, crlf, rest);
    } else {
      ReadLaid(st, line, Terminator(crlf) + rest);
      ReadTerminator(AfterLine(st, line), crlf, rest);
      FlushLine(st, line);
    }
  }

  lemma RenderedStep(lines: Lines, rest: string)
    requires lines != []
    ensures Rendered(lines) + rest
         == Laid(lines[0].0) + (Terminator(lines[0].1) + (Rendered(lines[1..]) + rest))
  {
    var first, eol, more := Laid(lines[0].0), Terminator(lines[0].1), Rendered(lines[1..]);
    Assoc(first, eol + more, rest);
    Assoc(eol, more, rest);
  }

  lemma {:induction false} ReadRendered(st: Reader, lines: Lines, rest: string)
    requires st == Reader(st.records, [], "", false, false) && SoundLines(lines)
    ensures Read(st, Rendered(lines) + rest) == Read(st.(records := st.records + Records(lines)), rest)
    decreases |lines|
  {
    if lines == [] {
      assert st.records + [] == st.records && Rendered(lines) + rest == rest;
    } else {
      var line, crlf, more := lines[0].0, lines[0].1, lines[1..];
      var next := st.(records := st.records + RecordOf(line));
      RenderedStep(lines, rest);
      ReadTerminated(st, line, crlf, Rendered(more) + rest);
      ReadRendered(next, more, rest);
      RecordsStep(st.records, lines);
    }
  }

  lemma RecordsStep(before: seq<Record>, lines: Lines)
    requires lines != []
    ensures before + RecordOf(lines[0].0) + Records(lines[1..]) == before + Records(lines)
  {
    Assoc(before, RecordOf(lines[0].0), Records(lines[1..]));
  }

  /** The reader accepts every rendering of a list of records: fields quoted where they
      must be and anywhere else, lines ended by LF or CRLF, the last one possibly by
      nothing, and blank lines in between, which it skips. */
  lemma ReadsAnyRendering(lines: Lines, last: Line)
    requires SoundLines(lines) && Sound(last)
    ensures Parsed(Rendered(lines) + Laid(last)) == Records(lines) + RecordOf(last)
  {
    var st := Reader(Records(lines), [], "", false, false);
    assert [] + Records(lines) == Records(lines);
    ReadRendered(START, lines, Laid(last));
    if last == [] {
      assert Read(st, Laid(last)) == st;
      assert Records(lines) + [] == Records(lines);
    } else {
      ReadLaid(st, last, "");
      assert Laid(last) + "" == Laid(last);
      FlushLine(st, last);
    }
  }

  /** The two records that the writer turns into a blank line. */
  predicate Blank(record: Record) {
    record == [] || record == [""]
  }

  function Kept(records: seq<Record>): seq<Record> {
    if records == [] then []
    else (if Blank(records[0]) then [] else [records[0]]) + Kept(records[1..])
  }

  /** The writer's own style: quotes only where they are needed. */
  ghost function Minimal(record: Record): (line: Line)
    ensures |line| == |record|
    ensures forall i :: 0 <= i < |line| ==> line[i] == Styled(record[i], NeedsQuotes(record[i]))
  {
    seq(|record|, i requires 0 <= i < |record| => Styled(record[i], NeedsQuotes(record[i])))
  }

  lemma {:induction false} MinimalIsJoined(record: Record)
    ensures Laid(Minimal(record)) == Joined(record)
    ensures RecordOf(Minimal(record)) == if Blank(record) then [] else [record]
  {
    assert Texts(Minimal(record)) == record;
    if record != [] {
      var n := |record| - 1;
      assert Minimal(record)[..n] == Minimal(record[..n]);
      MinimalIsJoined(record[..n]);
      if n == 0 {
        assert BlankLine(Minimal(record)) <==> record == [""];
      }
    }
  }

  ghost function Crlf(records: seq<Record>): (lines: Lines)
    ensures SoundLines(lines)
  {
    if records == [] then [] else [(Minimal(records[0]), true)] + Crlf(records[1..])
  }

  lemma {:induction false} CrlfIsWritten(records: seq<Record>)
    ensures Rendered(Crlf(records)) == Written(records)
    ensures Records(Crlf(records)) == Kept(records)
    decreases |records|
  {
    if records != [] {
      MinimalIsJoined(records[0]);
      CrlfIsWritten(records[1..]);
      Assoc(Joined(records[0]), "\r\n", Written(records[1..]));
    }
  }

  /** Parsing what was written returns the records, whatever characters they hold,
      with exactly the empty record and the single empty field dropped. */
  lemma WriteThenParse(records: seq<Record>)
    ensures Parsed(Written(records)) == Kept(records)
  {
    CrlfIsWritten(records);
    ReadsAnyRendering(Crlf(records), []);
    assert Written(records) + "" == Written(records) && Kept(records) + [] == Kept(records);
  }

  lemma {:induction false} KeptIsShorterUnlessAll(records: seq<Record>)
    ensures |Kept(records)| <= |records|
    ensures |Kept(records)| == |records| <==> forall k :: 0 <= k < |records| ==> !Blank(records[k])
    ensures |Kept(records)| == |records| ==> Kept(records) == records
  {
    if records != [] {
      KeptIsShorterUnlessAll(records[1..]);
      assert forall k :: 1 <= k < |records| ==> records[k] == records[1..][k - 1];
    }
  }

  /** The round trip is the identity exactly on lists without a blank record. */
  lemma RoundTripIffNoBlank(records: seq<Record>)
    ensures Parsed(Written(records)) == records <==> forall k :: 0 <= k < |records| ==> !Blank(records[k])
  {
    WriteThenParse(records);
    KeptIsShorterUnlessAll(records);
  }

  /** The lossy case is reachable by parsing: a quoted empty field alone on its line
      is a record, and does not survive being written and read again. */
  lemma QuotedEmptyFieldIsLost()
    ensures Parsed("\"\"\n") == [[""]]
    ensures Parsed(Written(Parsed("\"\"\n"))) == []
  {
    var quoted := START.Consume('"');
    assert "\"\"\n" == ['"'] + "\"\n" && "\"\n" == ['"'] + "\n" && "\n" == ['\n'] + "";
    ReadStep(START, '"', "\"\n");
    ReadStep(quoted, '"', "\n");
    var closed := quoted.Consume('"');
    ReadStep(closed, '\n', "");
    assert closed.record + [closed.field] == [""] && closed.records + [[""]] == [[""]];
    WriteThenParse([[""]]);
  }

  lemma {:induction false} ReadKeepsRecordsNonEmpty(st: Reader, text: string)
    requires forall k :: 0 <= k < |st.records| ==> st.records[k] != []
    ensures forall k :: 0 <= k < |Read(st, text).records| ==> Read(st, text).records[k] != []
    decreases |text|
  {
    if text == [] {
    } else if st.inQuotes && text[0] == '"' && |text| > 1 && text[1] == '"' {
      ReadKeepsRecordsNonEmpty(st.Push('"'), text[2..]);
    } else {
      ReadKeepsRecordsNonEmpty(st.Consume(text[0]), text[1..]);
    }
  }

  /** Any text at all: reading, writing and reading again changes nothing but the
      records that hold a single empty field, and a further pass changes nothing. */
  lemma ReparseIsStable(text: string)
    ensures Parsed(Written(Parsed(text))) == Parsed(text) <==> [""] !in Parsed(text)
    ensures Parsed(Written(Kept(Parsed(text)))) == Kept(Parsed(text))
  {
    ReadKeepsRecordsNonEmpty(START, text);
    RoundTripIffNoBlank(Parsed(text));
    RoundTripIffNoBlank(Kept(Parsed(text)));
    KeptHasNoBlank(Parsed(text));
  }

  lemma {:induction false} KeptHasNoBlank(records: seq<Record>)
    ensures forall k :: 0 <= k < |Kept(records)| ==> !Blank(Kept(records)[k])
  {
    if records != [] {
      KeptHasNoBlank(records[1..]);
    }
  }
}
