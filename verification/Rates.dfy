/** The header-and-rows view of a CSV file (src/nvidia/csvio.rs) and the measured rate
    table read from it (src/nvidia/table.rs). */
module Rates {
  import opened Wrappers
  import opened Lists
  import Csv

  datatype Table = Table(header: Csv.Record, rows: seq<Csv.Record>)

  datatype RateRow = RateRow(value: string, pipe: string)

  type Entry = (string, RateRow)

  /** The library's number parser; `None` is "not a number". */
  type Number = string -> Option<real>

  function Padded(row: Csv.Record, width: nat): (r: Csv.Record)
    ensures |r| == (if |row| < width then width else |row|)
    ensures forall i :: 0 <= i < |r| ==> r[i] == if i < |row| then row[i] else ""
  {
    if |row| < width then row + seq(width - |row|, i => "") else row
  }

  ghost function TableOf(records: seq<Csv.Record>): Table {
    if records == [] then Table([], [])
    else
      var width := |records[0]|;
      Table(records[0], seq(|records| - 1, i requires 0 <= i < |records| - 1 => Padded(records[i + 1], width)))
  }

  method ParseTable(text: string) returns (t: Table)
    ensures t == TableOf(Csv.Parsed(text))
  {
    var records := Csv.ParseRecords(text);
    if records == [] {
      return Table([], []);
    }
    var header, rows := records[0], records[1..];
    for k := 0 to |rows|
      invariant |rows| == |records| - 1
      invariant forall i :: 0 <= i < k ==> rows[i] == Padded(records[i + 1], |header|)
      invariant forall i :: k <= i < |rows| ==> rows[i] == records[i + 1]
    {
      var row := rows[k];
      while |row| < |header|
        invariant |rows[k]| <= |row|
        invariant row == rows[k] + seq(|row| - |rows[k]|, i => "")
        invariant |row| > |rows[k]| ==> |row| <= |header|
      {
        row := row + [""];
      }
      rows := rows[k := row];
    }
    t := Table(header, rows);
  }

  /** The first column of that name; `None` is the panic on a missing column. */
  function Col(header: Csv.Record, name: string): (c: Option<nat>)
    ensures c.Some? ==> c.value < |header| && header[c.value] == name && name !in header[..c.value]
    ensures c.None? ==> name !in header
  {
    if header == [] then None
    else if header[0] == name then Some(0)
    else
      match Col(header[1..], name)
      case None => None
      case Some(i) => Some(i + 1)
  }

  function Get(rates: seq<Entry>, id: string): Option<RateRow> {
    Lookup(rates, id)
  }

  // -------------------------------------------------------------- specification

  /** One row of the file, reduced to the three columns that are read. */
  datatype Row = Row(id: string, value: string, pipe: string)

  ghost predicate HasColumns(t: Table, idCol: nat, valueCol: nat, pipeCol: nat) {
    forall k :: 0 <= k < |t.rows| ==> idCol < |t.rows[k]| && valueCol < |t.rows[k]| && pipeCol < |t.rows[k]|
  }

  ghost function RowsOf(t: Table, idCol: nat, valueCol: nat, pipeCol: nat): (rows: seq<Row>)
    requires HasColumns(t, idCol, valueCol, pipeCol)
    ensures |rows| == |t.rows|
    ensures forall k :: 0 <= k < |rows| ==>
      rows[k] == Row(t.rows[k][idCol], t.rows[k][valueCol], t.rows[k][pipeCol])
  {
    seq(|t.rows|, k requires 0 <= k < |t.rows| => Row(t.rows[k][idCol], t.rows[k][valueCol], t.rows[k][pipeCol]))
  }

  ghost function FirstSeen(rows: seq<Row>): seq<string> {
    if rows == [] then []
    else
      var ids := FirstSeen(rows[..|rows| - 1]);
      if rows[|rows| - 1].id in ids then ids else ids + [rows[|rows| - 1].id]
  }

  /** Row `b` carries the maximum of its id, and no earlier row of the id reaches it. A
      row alone in its id need not even be a number. */
  ghost predicate Peak(rows: seq<Row>, num: Number, b: nat) {
    && b < |rows|
    && forall j :: 0 <= j < |rows| && j != b && rows[j].id == rows[b].id ==>
         && num(rows[j].value).Some? && num(rows[b].value).Some?
         && num(rows[j].value).value <= num(rows[b].value).value
         && (j < b ==> num(rows[j].value).value < num(rows[b].value).value)
  }

  /** Two rows of one id have to be compared, and one of them is not a number. */
  ghost predicate Clash(rows: seq<Row>, num: Number, i: nat, j: nat) {
    i < j < |rows| && rows[i].id == rows[j].id && (num(rows[i].value).None? || num(rows[j].value).None?)
  }

  ghost predicate NoClash(rows: seq<Row>, num: Number) {
    forall i, j :: 0 <= i < j < |rows| ==> !Clash(rows, num, i, j)
  }

  ghost predicate KeepsPeaks(rates: seq<Entry>, rows: seq<Row>, num: Number) {
    && Keys(rates) == FirstSeen(rows)
    && forall e :: 0 <= e < |rates| ==> EntryIsPeak(rates[e], rows, num)
  }

  ghost predicate EntryIsPeak(entry: Entry, rows: seq<Row>, num: Number) {
    exists b: nat :: Peak(rows, num, b) && rows[b].id == entry.0 && entry.1 == RateRow(rows[b].value, rows[b].pipe)
  }

  datatype Outcome = Ok(rates: seq<Entry>) | BadValue(id: string) | MissingColumn

  /** Success keeps one entry per id in first-seen order, each the first row that
      attains its id's maximum. Parsing fails exactly when an id that occurs more than
      once has a row that is not a number, and names the first id to run into it. */
  ghost predicate IsOutcome(rows: seq<Row>, num: Number, r: Outcome) {
    match r
    case Ok(rates) => NoClash(rows, num) && KeepsPeaks(rates, rows, num)
    case BadValue(id) =>
      exists i, j: nat :: Clash(rows, num, i, j) && rows[j].id == id && NoClash(rows[..j], num)
    case MissingColumn => false
  }

  // --------------------------------------------------------------------- method

  method Parse(csvText: string, num: Number) returns (r: Outcome)
    ensures var t := TableOf(Csv.Parsed(csvText));
      var idCol, valueCol, pipeCol := Col(t.header, "row_id"), Col(t.header, "value"), Col(t.header, "pipe");
      if idCol.None? || valueCol.None? || pipeCol.None? then r == MissingColumn
      else
        && HasColumns(t, idCol.value, valueCol.value, pipeCol.value)
        && IsOutcome(RowsOf(t, idCol.value, valueCol.value, pipeCol.value), num, r)
  {
    var t := ParseTable(csvText);
    var idCol, valueCol, pipeCol := Col(t.header, "row_id"), Col(t.header, "value"), Col(t.header, "pipe");
    if idCol.None? || valueCol.None? || pipeCol.None? {
      return MissingColumn;
    }
    r := ParseRows(t, num, idCol.value, valueCol.value, pipeCol.value);
  }

  ghost predicate SoFar(rates: seq<Entry>, rows: seq<Row>, num: Number, k: nat)
    requires k <= |rows|
  {
    NoClash(rows[..k], num) && KeepsPeaks(rates, rows[..k], num)
  }

  /** One row of the file, the body of the loop; `None` is the error return. */
  method Keep(rates: seq<Entry>, num: Number, row: Row, ghost rows: seq<Row>, ghost k: nat)
    returns (kept: Option<seq<Entry>>)
    requires k < |rows| && row == rows[k] && SoFar(rates, rows, num, k)
    ensures kept.Some? ==> SoFar(kept.value, rows, num, k + 1)
    ensures kept.None? ==> IsOutcome(rows, num, BadValue(row.id))
  {
    var e := Find(rates, row.id);
    if e < |rates| {
      KnownRow(rows, num, rates, k, e);
      var old', new' := num(rates[e].1.value), num(row.value);
      if old'.None? || new'.None? {
        return None;
      }
      if old'.value >= new'.value {
        return Some(rates);
      }
      kept := Some(rates[e := (row.id, RateRow(row.value, row.pipe))]);
    } else {
      NewRow(rows, num, rates, k);
      kept := Some(rates + [(row.id, RateRow(row.value, row.pipe))]);
    }
  }

  method ParseRows(t: Table, num: Number, idCol: nat, valueCol: nat, pipeCol: nat) returns (r: Outcome)
    requires HasColumns(t, idCol, valueCol, pipeCol)
    ensures IsOutcome(RowsOf(t, idCol, valueCol, pipeCol), num, r)
  {
    ghost var rows := RowsOf(t, idCol, valueCol, pipeCol);
    var rates: seq<Entry> := [];
    for k := 0 to |t.rows|
      invariant SoFar(rates, rows, num, k)
    {
      var row := Row(t.rows[k][idCol], t.rows[k][valueCol], t.rows[k][pipeCol]);
      var kept := Keep(rates, num, row, rows, k);
      if kept.None? {
        return BadValue(row.id);
      }
      rates := kept.value;
    }
    assert rows[..|t.rows|] == rows;
    r := Ok(rates);
  }

  // ---------------------------------------------------------------------- lemmas

  lemma {:induction false} FirstSeenSet(rows: seq<Row>, id: string)
    ensures id in FirstSeen(rows) <==> exists j :: 0 <= j < |rows| && rows[j].id == id
    ensures forall i, j :: 0 <= i < j < |FirstSeen(rows)| ==> FirstSeen(rows)[i] != FirstSeen(rows)[j]
  {
    if rows != [] {
      var n := |rows| - 1;
      FirstSeenSet(rows[..n], id);
      if exists j :: 0 <= j < n && rows[j].id == id {
        var j :| 0 <= j < n && rows[j].id == id;
        assert rows[..n][j].id == id;
      }
      assert rows[n].id in FirstSeen(rows);
    }
  }

  /** A row of another id, or one that is not above, leaves a peak a peak. */
  lemma PeakSurvives(rows: seq<Row>, num: Number, k: nat, b: nat)
    requires k < |rows| && Peak(rows[..k], num, b)
    requires rows[k].id == rows[b].id ==>
      && num(rows[k].value).Some? && num(rows[b].value).Some?
      && num(rows[k].value).value <= num(rows[b].value).value
    ensures Peak(rows[..k + 1], num, b)
  {
    var now := rows[..k + 1];
    forall j | 0 <= j < |now| && j != b && now[j].id == now[b].id
      ensures num(now[j].value).Some? && num(now[b].value).Some?
      ensures num(now[j].value).value <= num(now[b].value).value
      ensures j < b ==> num(now[j].value).value < num(now[b].value).value
    {
      if j < k {
        assert rows[..k][j].id == rows[..k][b].id;
      }
    }
  }

  lemma EntrySurvives(rows: seq<Row>, num: Number, k: nat, entry: Entry)
    requires k < |rows| && EntryIsPeak(entry, rows[..k], num) && entry.0 != rows[k].id
    ensures EntryIsPeak(entry, rows[..k + 1], num)
  {
    var b: nat :| Peak(rows[..k], num, b) && rows[..k][b].id == entry.0
      && entry.1 == RateRow(rows[..k][b].value, rows[..k][b].pipe);
    PeakSurvives(rows, num, k, b);
    assert rows[..k + 1][b] == rows[..k][b];
  }

  lemma NoClashStep(rows: seq<Row>, num: Number, k: nat)
    requires k < |rows| && NoClash(rows[..k], num)
    requires forall j :: 0 <= j < k && rows[j].id == rows[k].id ==>
      num(rows[j].value).Some? && num(rows[k].value).Some?
    ensures NoClash(rows[..k + 1], num)
  {
    var now := rows[..k + 1];
    forall i: nat, j: nat | i < j < |now|
      ensures !Clash(now, num, i, j)
    {
      if j < k {
        assert !Clash(rows[..k], num, i, j);
      }
    }
  }

  lemma SeenStep(rows: seq<Row>, k: nat)
    requires k < |rows|
    ensures FirstSeen(rows[..k + 1])
         == FirstSeen(rows[..k]) + if rows[k].id in FirstSeen(rows[..k]) then [] else [rows[k].id]
  {
    assert rows[..k + 1][..k] == rows[..k];
    assert FirstSeen(rows[..k]) + [] == FirstSeen(rows[..k]);
  }

  lemma OthersSurvive(rows: seq<Row>, num: Number, rates: seq<Entry>, k: nat, e: nat)
    requires k < |rows| && KeepsPeaks(rates, rows[..k], num)
    requires e <= |rates| && (e < |rates| ==> rates[e].0 == rows[k].id)
    requires e == |rates| ==> rows[k].id !in Keys(rates)
    ensures forall i :: 0 <= i < |rates| && i != e ==> EntryIsPeak(rates[i], rows[..k + 1], num)
  {
    FirstSeenSet(rows[..k], rows[k].id);
    forall i | 0 <= i < |rates| && i != e
      ensures EntryIsPeak(rates[i], rows[..k + 1], num)
    {
      assert Keys(rates)[i] != rows[k].id by {
        if e < |rates| {
          assert Keys(rates)[e] == rows[k].id;
        }
      }
      EntrySurvives(rows, num, k, rates[i]);
    }
  }

  /** A further row of a known id is compared with the id's peak so far. */
  lemma RepeatedRow(rows: seq<Row>, num: Number, rates: seq<Entry>, k: nat, e: nat, b: nat)
    requires k < |rows| && NoClash(rows[..k], num) && KeepsPeaks(rates, rows[..k], num)
    requires e < |rates| && rates[e].0 == rows[k].id
    requires Peak(rows[..k], num, b) && rows[b].id == rows[k].id
    requires rates[e].1 == RateRow(rows[b].value, rows[b].pipe)
    requires num(rows[b].value).Some? && num(rows[k].value).Some?
    ensures NoClash(rows[..k + 1], num)
    ensures KeepsPeaks(
      if num(rows[b].value).value >= num(rows[k].value).value then rates
      else rates[e := (rows[k].id, RateRow(rows[k].value, rows[k].pipe))],
      rows[..k + 1], num)
  {
    var now := rows[..k + 1];
    assert forall j :: 0 <= j < k ==> rows[..k][j] == rows[j];
    NoClashStep(rows, num, k);
    SeenStep(rows, k);
    OthersSurvive(rows, num, rates, k, e);
    assert Keys(rates)[e] == rows[k].id;
    if num(rows[b].value).value >= num(rows[k].value).value {
      PeakSurvives(rows, num, k, b);
      assert now[b] == rows[b];
      assert EntryIsPeak(rates[e], now, num);
    } else {
      var better := rates[e := (rows[k].id, RateRow(rows[k].value, rows[k].pipe))];
      assert Keys(better) == Keys(rates);
      assert Peak(now, num, k);
      assert EntryIsPeak(better[e], now, num);
    }
  }

  /** The same, read off the kept entry alone: an unparsable value on either side is
      a clash, and otherwise the larger value is kept, the entry on a tie. */
  lemma KnownRow(rows: seq<Row>, num: Number, rates: seq<Entry>, k: nat, e: nat)
    requires k < |rows| && NoClash(rows[..k], num) && KeepsPeaks(rates, rows[..k], num)
    requires e < |rates| && rates[e].0 == rows[k].id
    ensures var old', new' := num(rates[e].1.value), num(rows[k].value);
      if old'.None? || new'.None? then IsOutcome(rows, num, BadValue(rows[k].id))
      else
        && NoClash(rows[..k + 1], num)
        && KeepsPeaks(
             if old'.value >= new'.value then rates
             else rates[e := (rows[k].id, RateRow(rows[k].value, rows[k].pipe))],
             rows[..k + 1], num)
  {
    assert EntryIsPeak(rates[e], rows[..k], num);
    var b: nat :| Peak(rows[..k], num, b) && rows[..k][b].id == rates[e].0
      && rates[e].1 == RateRow(rows[..k][b].value, rows[..k][b].pipe);
    assert rows[..k][b] == rows[b];
    if num(rows[b].value).None? || num(rows[k].value).None? {
      assert Clash(rows, num, b, k);
    } else {
      RepeatedRow(rows, num, rates, k, e, b);
    }
  }

  lemma NewRow(rows: seq<Row>, num: Number, rates: seq<Entry>, k: nat)
    requires k < |rows| && NoClash(rows[..k], num) && KeepsPeaks(rates, rows[..k], num)
    requires forall i :: 0 <= i < |rates| ==> rates[i].0 != rows[k].id
    ensures NoClash(rows[..k + 1], num)
    ensures KeepsPeaks(rates + [(rows[k].id, RateRow(rows[k].value, rows[k].pipe))], rows[..k + 1], num)
  {
    var now := rows[..k + 1];
    var longer := rates + [(rows[k].id, RateRow(rows[k].value, rows[k].pipe))];
    FirstSeenSet(rows[..k], rows[k].id);
    assert forall j :: 0 <= j < k ==> rows[..k][j] == rows[j];
    NoClashStep(rows, num, k);
    SeenStep(rows, k);
    OthersSurvive(rows, num, rates, k, |rates|);
    assert Keys(longer) == Keys(rates) + [rows[k].id];
    assert Peak(now, num, k);
    assert EntryIsPeak(longer[|rates|], now, num);
  }

  /** What a lookup finds: the peak of an id that occurs, nothing for any other. */
  lemma GetFindsPeak(rates: seq<Entry>, rows: seq<Row>, num: Number, id: string)
    requires KeepsPeaks(rates, rows, num)
    ensures Get(rates, id).Some? <==> exists j :: 0 <= j < |rows| && rows[j].id == id
    ensures Get(rates, id).Some? ==> EntryIsPeak((id, Get(rates, id).value), rows, num)
  {
    FirstSeenSet(rows, id);
    LookupFinds(rates, id);
    if Get(rates, id).Some? {
      var e :| 0 <= e < |rates| && rates[e] == (id, Get(rates, id).value);
      assert EntryIsPeak(rates[e], rows, num);
    }
  }

  /** Two peaks of one id are the same row: the kept entry leaves no choice. */
  lemma PeakIsUnique(rows: seq<Row>, num: Number, b: nat, b': nat)
    requires Peak(rows, num, b) && Peak(rows, num, b') && rows[b].id == rows[b'].id
    ensures b == b'
  {
  }
}
