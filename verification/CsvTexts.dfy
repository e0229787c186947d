/** What the CSV reader makes of every text, however oddly quoted (src/nvidia/csvio.rs):
    a text is a list of tokens, and its records are read off those. */
module CsvTexts {
  import opened Wrappers
  import opened Lists
  import opened Csv

  /** A character that means itself, a quoted run, and the three separators. */
  datatype Token = Char(c: char) | Quoted(s: string) | Comma | Return | LineFeed

  type Tokens = seq<Token>

  ghost function Spelling(t: Token): string {
    match t
    case Char(c) => [c]
    case Quoted(s) => "\"" + (Doubled(s) + "\"")
    case Comma => ","
    case Return => "\r"
    case LineFeed => "\n"
  }

  ghost function Text(tokens: Tokens): string {
    if tokens == [] then "" else Spelling(tokens[0]) + Text(tokens[1..])
  }

  /** A character that means itself is none of the four others, and a quoted run ends
      where the next quote would double its last one. */
  ghost predicate Proper(tokens: Tokens) {
    && (forall i :: 0 <= i < |tokens| && tokens[i].Char? ==>
          tokens[i].c != '"' && tokens[i].c != ',' && tokens[i].c != '\r' && tokens[i].c != '\n')
    && (forall i :: 0 <= i < |tokens| - 1 && tokens[i].Quoted? ==> !tokens[i + 1].Quoted?)
  }

  // --------------------------------------------------------- what the tokens say

  /** What follows the last line feed. */
  ghost function LastLine(tokens: Tokens): Tokens {
    if tokens == [] || tokens[|tokens| - 1] == LineFeed then []
    else LastLine(tokens[..|tokens| - 1]) + [tokens[|tokens| - 1]]
  }

  /** Commas separate the fields of a line; characters and quoted runs of one field
      follow each other, and returns are nothing. */
  ghost function Fields(line: Tokens): (r: Record)
    ensures r != []
  {
    if line == [] then [""]
    else
      var before := Fields(line[..|line| - 1]);
      var n := |before| - 1;
      match line[|line| - 1]
      case Char(c) => before[n := before[n] + [c]]
      case Quoted(s) => before[n := before[n] + s]
      case Comma => before + [""]
      case _ => before
  }

  /** A line of nothing but returns holds no record. */
  ghost function RecordIn(line: Tokens): seq<Record> {
    if forall i :: 0 <= i < |line| ==> line[i] == Return then [] else [Fields(line)]
  }

  /** The records of the lines that are ended by a line feed. */
  ghost function EndedRecords(tokens: Tokens): seq<Record> {
    if tokens == [] then []
    else
      var before := tokens[..|tokens| - 1];
      EndedRecords(before) + if tokens[|tokens| - 1] == LineFeed then RecordIn(LastLine(before)) else []
  }

  ghost function RecordsOf(tokens: Tokens): seq<Record> {
    EndedRecords(tokens) + RecordIn(LastLine(tokens))
  }

  // ------------------------------------------------------------- reading the tokens

  ghost function Fed(st: Reader, t: Token): Reader {
    match t
    case Char(c) => st.Push(c)
    case Quoted(s) => st.(field := st.field + s, fieldStarted := true)
    case Comma => st.Consume(',')
    case Return => st
    case LineFeed => st.Consume('\n')
  }

  lemma ReadToken(st: Reader, t: Token, rest: string)
    requires !st.inQuotes && Proper([t])
    requires t.Quoted? ==> NoQuoteFirst(rest)
    ensures Read(st, Spelling(t) + rest) == Read(Fed(st, t), rest) && !Fed(st, t).inQuotes
  {
    if t.Quoted? {
      Assoc("\"", Doubled(t.s) + "\"", rest);
      Assoc(Doubled(t.s), "\"", rest);
      ReadStep(st, '"', Doubled(t.s) + ("\"" + rest));
      ReadQuoted(st.Consume('"'), t.s, rest);
    } else {
      assert [t][0] == t;
      ReadStep(st, Spelling(t)[0], rest);
    }
  }

  ghost function FedAll(tokens: Tokens): Reader {
    if tokens == [] then START else Fed(FedAll(tokens[..|tokens| - 1]), tokens[|tokens| - 1])
  }

  lemma {:induction false} TextSplits(a: Tokens, b: Tokens)
    ensures Text(a + b) == Text(a) + Text(b)
  {
    if a == [] {
      assert a + b == b;
    } else {
      assert (a + b)[1..] == a[1..] + b;
      TextSplits(a[1..], b);
      Assoc(Spelling(a[0]), Text(a[1..]), Text(b));
    }
  }

  lemma TextOfOne(t: Token)
    ensures Text([t]) == Spelling(t)
  {
    assert Text([t][1..]) == "";
    assert Spelling(t) + "" == Spelling(t);
  }

  /** The reader takes the text of the tokens one token at a time. */
  lemma {:induction false} ReadTokens(tokens: Tokens, rest: string)
    requires Proper(tokens)
    requires tokens != [] && tokens[|tokens| - 1].Quoted? ==> NoQuoteFirst(rest)
    ensures Read(START, Text(tokens) + rest) == Read(FedAll(tokens), rest) && !FedAll(tokens).inQuotes
  {
    if tokens == [] {
      assert Text(tokens) + rest == rest;
    } else {
      var before, t := tokens[..|tokens| - 1], tokens[|tokens| - 1];
      assert tokens == before + [t];
      TextSplits(before, [t]);
      TextOfOne(t);
      Assoc(Text(before), Spelling(t), rest);
      assert Proper(before) && Proper([t]) by {
        assert forall i :: 0 <= i < |before| ==> before[i] == tokens[i];
      }
      ReadTokens(before, Spelling(t) + rest);
      ReadToken(FedAll(before), t, rest);
    }
  }

  ghost predicate Starts(line: Tokens) {
    exists i :: 0 <= i < |line| && (line[i] == Comma || line[i].Quoted?)
  }

  /** The reader's state says the same as the tokens do. */
  lemma {:induction false} FedIs(tokens: Tokens)
    ensures var line := LastLine(tokens);
      var fields := Fields(line);
      FedAll(tokens) ==
        Reader(EndedRecords(tokens), fields[..|fields| - 1], fields[|fields| - 1], false, Starts(line))
  {
    if tokens == [] {
      assert [""][..0] == [];
    } else {
      var before, t := tokens[..|tokens| - 1], tokens[|tokens| - 1];
      var line := LastLine(before);
      FedIs(before);
      assert EndedRecords(before) + [] == EndedRecords(before);
      if t == LineFeed {
        FlushedIs(before);
        assert [""][..0] == [];
      } else {
        assert (line + [t])[..|line|] == line;
        StartsStep(line, t);
        FieldsStep(line, t);
      }
    }
  }

  lemma StartsStep(line: Tokens, t: Token)
    ensures Starts(line + [t]) <==> Starts(line) || t == Comma || t.Quoted?
  {
    var longer := line + [t];
    assert longer[|line|] == t && forall i :: 0 <= i < |line| ==> longer[i] == line[i];
  }

  /** One more token of a line, as the split of its last field from the others. */
  lemma FieldsStep(line: Tokens, t: Token)
    requires t != LineFeed
    ensures var was, now := Fields(line), Fields(line + [t]);
      var n := |was| - 1;
      match t
      case Comma => now[..|now| - 1] == was[..n] + [was[n]] && now[|now| - 1] == ""
      case Char(c) => now[..|now| - 1] == was[..n] && now[|now| - 1] == was[n] + [c]
      case Quoted(s) => now[..|now| - 1] == was[..n] && now[|now| - 1] == was[n] + s
      case _ => now == was
  {
    assert (line + [t])[..|line|] == line;
  }

  /** Something but returns on the line is what the reader flushes for. */
  lemma {:induction false} RecordIffStarted(line: Tokens)
    requires forall i :: 0 <= i < |line| ==> line[i] != LineFeed
    ensures var fields := Fields(line);
      (forall i :: 0 <= i < |line| ==> line[i] == Return) <==>
      !Starts(line) && |fields| == 1 && fields[0] == ""
  {
    if line != [] {
      var n := |line| - 1;
      var t := line[n];
      assert line == line[..n] + [t];
      RecordIffStarted(line[..n]);
      StartsStep(line[..n], t);
      FieldsStep(line[..n], t);
    }
  }

  lemma {:induction false} LastLineIsLine(tokens: Tokens)
    ensures forall i :: 0 <= i < |LastLine(tokens)| ==> LastLine(tokens)[i] != LineFeed
  {
    if tokens != [] {
      LastLineIsLine(tokens[..|tokens| - 1]);
    }
  }

  lemma FlushedIs(tokens: Tokens)
    requires var line := LastLine(tokens);
      var fields := Fields(line);
      FedAll(tokens) ==
        Reader(EndedRecords(tokens), fields[..|fields| - 1], fields[|fields| - 1], false, Starts(line))
    ensures FedAll(tokens).Flush().records == RecordsOf(tokens)
    ensures FedAll(tokens).Flush().(fieldStarted := false) == Reader(RecordsOf(tokens), [], "", false, false)
  {
    var line := LastLine(tokens);
    var fields := Fields(line);
    LastLineIsLine(tokens);
    RecordIffStarted(line);
    assert fields[..|fields| - 1] + [fields[|fields| - 1]] == fields;
    assert EndedRecords(tokens) + [] == EndedRecords(tokens);
  }

  // --------------------------------------------------------------- every text at all

  /** A run that the text opens and never closes, if there is one. */
  ghost function Opening(open: Option<string>): string {
    match open
    case None => ""
    case Some(s) => "\"" + Doubled(s)
  }

  ghost function Closed(tokens: Tokens, open: Option<string>): Tokens {
    match open
    case None => tokens
    case Some(s) => tokens + [Quoted(s)]
  }

  lemma {:induction false} ReadOpened(st: Reader, s: string)
    requires st.inQuotes
    ensures Read(st, Doubled(s)) == st.(field := st.field + s)
    decreases |s|
  {
    if s == "" {
      assert st.field + s == st.field;
    } else {
      assert s == [s[0]] + s[1..];
      if s[0] == '"' {
        ReadDoubledQuote(st, Doubled(s[1..]));
      } else {
        ReadStep(st, s[0], Doubled(s[1..]));
      }
      ReadOpened(st.Push(s[0]), s[1..]);
      Assoc(st.field, [s[0]], s[1..]);
    }
  }

  /** The records of a text are those of its tokens; a run left open counts as closed at
      the end of the text. */
  lemma ParsedIsRecordsOf(tokens: Tokens, open: Option<string>)
    requires Proper(Closed(tokens, open))
    ensures Parsed(Text(tokens) + Opening(open)) == RecordsOf(Closed(tokens, open))
  {
    var all := Closed(tokens, open);
    FedIs(all);
    FlushedIs(all);
    if open.None? {
      ReadTokens(tokens, "");
    } else {
      var s := open.value;
      assert all[..|tokens|] == tokens && all[|tokens|] == Quoted(s);
      assert Proper(tokens) by {
        assert forall i :: 0 <= i < |tokens| ==> tokens[i] == all[i];
      }
      assert tokens != [] ==> !tokens[|tokens| - 1].Quoted?;
      ReadTokens(tokens, Opening(open));
      ReadStep(FedAll(tokens), '"', Doubled(s));
      ReadOpened(FedAll(tokens).Consume('"'), s);
    }
  }

  /** Where a quoted run ends, if it does. */
  lemma {:induction false} RunEnds(text: string) returns (s: string, closed: bool, rest: string)
    ensures text == Doubled(s) + if closed then "\"" + rest else ""
    ensures |rest| <= |text| && (closed ==> NoQuoteFirst(rest))
    decreases |text|
  {
    s, closed, rest := "", false, "";
    if text != "" {
      if text[0] != '"' {
        s, closed, rest := RunEnds(text[1..]);
        var tail := if closed then "\"" + rest else "";
        Assoc([text[0]], Doubled(s), tail);
        assert ([text[0]] + s)[1..] == s;
        assert text == [text[0]] + text[1..];
        s := [text[0]] + s;
      } else if |text| > 1 && text[1] == '"' {
        s, closed, rest := RunEnds(text[2..]);
        var tail := if closed then "\"" + rest else "";
        Assoc("\"\"", Doubled(s), tail);
        assert ("\"" + s)[1..] == s;
        assert text == "\"\"" + text[2..];
        s := "\"" + s;
      } else {
        closed, rest := true, text[1..];
        assert text == Doubled(s) + ("\"" + rest);
      }
    }
  }

  lemma QuotedFirst(tokens: Tokens, open: Option<string>)
    requires Closed(tokens, open) != [] && Closed(tokens, open)[0].Quoted?
    ensures !NoQuoteFirst(Text(tokens) + Opening(open))
  {
    if tokens != [] {
      assert tokens[0] == Closed(tokens, open)[0];
    }
  }

  lemma ProperLonger(t: Token, tokens: Tokens, open: Option<string>)
    requires Proper([t]) && Proper(Closed(tokens, open))
    requires t.Quoted? ==> NoQuoteFirst(Text(tokens) + Opening(open))
    ensures Proper(Closed([t] + tokens, open))
    ensures Text([t] + tokens) + Opening(open) == Spelling(t) + (Text(tokens) + Opening(open))
  {
    var all := Closed(tokens, open);
    assert Closed([t] + tokens, open) == [t] + all;
    assert ([t] + tokens)[1..] == tokens;
    Assoc(Spelling(t), Text(tokens), Opening(open));
    assert [t][0] == t;
    if all != [] && all[0].Quoted? {
      QuotedFirst(tokens, open);
    }
  }

  /** Every text is one of tokens, so the reader is described on every text. */
  lemma {:induction false} EveryTextHasTokens(text: string) returns (tokens: Tokens, open: Option<string>)
    ensures Proper(Closed(tokens, open)) && text == Text(tokens) + Opening(open)
    decreases |text|
  {
    tokens, open := [], None;
    if text != "" {
      var t: Token;
      var rest := text[1..];
      if text[0] == '"' {
        var s, closed, more := RunEnds(text[1..]);
        assert text == "\"" + text[1..];
        if !closed {
          open := Some(s);
          assert Doubled(s) + "" == Doubled(s);
          assert Closed(tokens, open) == [Quoted(s)];
          return;
        }
        t, rest := Quoted(s), more;
        Assoc(Doubled(s), "\"", more);
        Assoc("\"", Doubled(s) + "\"", more);
      } else {
        t := if text[0] == ',' then Comma else if text[0] == '\r' then Return
             else if text[0] == '\n' then LineFeed else Char(text[0]);
        assert text == Spelling(t) + rest;
      }
      tokens, open := EveryTextHasTokens(rest);
      ProperLonger(t, tokens, open);
      tokens := [t] + tokens;
    }
  }
}
