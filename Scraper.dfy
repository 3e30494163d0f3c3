/**
 * The row loop of `scrape_chess_ratings` (chess_val.py): every table row
 * after the header that has at least six cells becomes one player record
 * whose fields are read from cells 0-5; `int` on a non-numeric rank,
 * rating or birth year raises and ends the scrape. A row is given as the
 * stripped texts of its `td` cells.
 */
module Scraper {
  import opened Wrappers
  import opened IntText

  /** The stripped texts of one row's cells. */
  type Row = seq<string>

  /** The value of `datetime.now()` stored with each record, left uninterpreted. */
  type Timestamp = int

  datatype Record = Record(
    indianRank: int,
    name: string,
    title: string,
    federation: string,
    rating: int,
    birthYear: int,
    scrapedAt: Timestamp)

  /** The ValueError `int` raises, with the text it could not read. */
  datatype ScrapeError = InvalidLiteral(text: string)

  /** Rows with fewer cells are skipped. */
  const MinCells: nat := 6

  predicate Qualifies(row: Row) { |row| >= MinCells }

  /** The dictionary literal built from one qualifying row; its `int` calls run in order 0, 4, 5. */
  function RowToRecord(row: Row, at: Timestamp): Result<Record, ScrapeError>
    requires Qualifies(row)
  {
    match ParseInt(row[0])
    case None => Failure(InvalidLiteral(row[0]))
    case Some(rank) =>
      match ParseInt(row[4])
      case None => Failure(InvalidLiteral(row[4]))
      case Some(rating) =>
        match ParseInt(row[5])
        case None => Failure(InvalidLiteral(row[5]))
        case Some(born) => Success(Record(rank, row[1], row[2], row[3], rating, born, at))
  }

  /** The rows the loop visits: `soup.select("table tr")[1:]`. */
  function SkipHeader(tableRows: seq<Row>): seq<Row>
  {
    if |tableRows| == 0 then [] else tableRows[1..]
  }

  /** The outcome of the loop over `rows`, one row at a time from the first. */
  function ExtractRecords(rows: seq<Row>, at: Timestamp): Result<seq<Record>, ScrapeError>
  {
    if |rows| == 0 then Success([])
    else
      var last := rows[|rows| - 1];
      match ExtractRecords(rows[..|rows| - 1], at)
      case Failure(e) => Failure(e)
      case Success(data) =>
        if !Qualifies(last) then Success(data)
        else
          match RowToRecord(last, at)
          case Failure(e) => Failure(e)
          case Success(rec) => Success(data + [rec])
  }

  /** Once the loop over a prefix has failed, the whole loop fails with the same error. */
  lemma FailureIsFinal(rows: seq<Row>, i: nat, at: Timestamp)
    requires i <= |rows| && ExtractRecords(rows[..i], at).Failure?
    ensures ExtractRecords(rows, at) == ExtractRecords(rows[..i], at)
  {
    ExtractAppend(rows[..i], rows[i..], at);
    assert rows[..i] + rows[i..] == rows;
  }

  /**
   * `scrape_chess_ratings` without the HTTP request and the HTML parsing:
   * `data` grows by one record per qualifying row and is returned, unless
   * an `int` call raises first.
   */
  method ScrapeChessRatings(tableRows: seq<Row>, at: Timestamp) returns (r: Result<seq<Record>, ScrapeError>)
    ensures r == ExtractRecords(SkipHeader(tableRows), at)
  {
    var rows := if |tableRows| == 0 then [] else tableRows[1..];
    var data: seq<Record> := [];
    var i := 0;
    while i < |rows|
      invariant 0 <= i <= |rows|
      invariant ExtractRecords(rows[..i], at) == Success(data)
    {
      var cols := rows[i];
      assert rows[..i + 1][..i] == rows[..i];
      if |cols| < MinCells {
        i := i + 1;
        continue;
      }
      var rank := ParseInt(cols[0]);
      if rank.None? {
        FailureIsFinal(rows, i + 1, at);
        return Failure(InvalidLiteral(cols[0]));
      }
      var rating := ParseInt(cols[4]);
      if rating.None? {
        FailureIsFinal(rows, i + 1, at);
        return Failure(InvalidLiteral(cols[4]));
      }
      var born := ParseInt(cols[5]);
      if born.None? {
        FailureIsFinal(rows, i + 1, at);
        return Failure(InvalidLiteral(cols[5]));
      }
      data := data + [Record(rank.value, cols[1], cols[2], cols[3], rating.value, born.value, at)];
      i := i + 1;
    }
    assert rows[..i] == rows;
    r := Success(data);
  }

  // ---------------------------------------------------------------------
  // An independent description of the result: filter, then map.

  /** The rows with at least six cells, in their original order. */
  function Qualifying(rows: seq<Row>): (q: seq<Row>)
    ensures |q| <= |rows|
    ensures forall i :: 0 <= i < |q| ==> Qualifies(q[i])
  {
    if |rows| == 0 then []
    else
      var last := rows[|rows| - 1];
      Qualifying(rows[..|rows| - 1]) + (if Qualifies(last) then [last] else [])
  }

  /** A row is kept by the filter exactly when it is one of the rows and has at least six cells. */
  lemma {:induction false} QualifyingMembers(rows: seq<Row>, row: Row)
    ensures row in Qualifying(rows) <==> row in rows && Qualifies(row)
  {
    if |rows| > 0 {
      var init, last := rows[..|rows| - 1], rows[|rows| - 1];
      QualifyingMembers(init, row);
      assert rows == init + [last];
    }
  }

  /** A qualifying row whose cells 0, 4 and 5 all hold integer literals. */
  predicate RowParses(row: Row)
  {
    Qualifies(row) && ParseInt(row[0]).Some? && ParseInt(row[4]).Some? && ParseInt(row[5]).Some?
  }

  predicate AllParse(q: seq<Row>)
  {
    forall i :: 0 <= i < |q| ==> RowParses(q[i])
  }

  /** The record a parsing row yields: cells 1-3 as text, cells 0, 4, 5 as integers. */
  function FieldsOf(row: Row, at: Timestamp): Record
    requires RowParses(row)
  {
    Record(ParseInt(row[0]).value, row[1], row[2], row[3], ParseInt(row[4]).value, ParseInt(row[5]).value, at)
  }

  /** One record per row, position for position. */
  function Records(q: seq<Row>, at: Timestamp): (recs: seq<Record>)
    requires AllParse(q)
    ensures |recs| == |q|
    ensures forall i :: 0 <= i < |q| ==> recs[i] == FieldsOf(q[i], at)
  {
    if |q| == 0 then []
    else
      var init := q[..|q| - 1];
      assert AllParse(init) by {
        forall i | 0 <= i < |init| ensures RowParses(init[i]) {
          assert init[i] == q[i];
        }
      }
      Records(q[..|q| - 1], at) + [FieldsOf(q[|q| - 1], at)]
  }

  /** The first of cells 0, 4, 5 that `int` rejects: the text the ValueError names. */
  function BadCell(row: Row): string
    requires Qualifies(row) && !RowParses(row)
  {
    if ParseInt(row[0]).None? then row[0]
    else if ParseInt(row[4]).None? then row[4]
    else row[5]
  }

  lemma RowToRecordAgrees(row: Row, at: Timestamp)
    requires Qualifies(row)
    ensures RowToRecord(row, at).Success? <==> RowParses(row)
    ensures RowParses(row) ==> RowToRecord(row, at) == Success(FieldsOf(row, at))
    ensures !RowParses(row) ==> RowToRecord(row, at) == Failure(InvalidLiteral(BadCell(row)))
  {
  }

  /**
   * The loop succeeds exactly when every qualifying row parses, and then
   * returns one record per qualifying row, in order.
   */
  lemma {:induction false} ExtractIsFilterThenMap(rows: seq<Row>, at: Timestamp)
    ensures ExtractRecords(rows, at).Success? <==> AllParse(Qualifying(rows))
    ensures ExtractRecords(rows, at).Success? ==> ExtractRecords(rows, at).value == Records(Qualifying(rows), at)
  {
    if |rows| > 0 {
      var init := rows[..|rows| - 1];
      var last := rows[|rows| - 1];
      ExtractIsFilterThenMap(init, at);
      var q0 := Qualifying(init);
      var q := Qualifying(rows);
      assert q == q0 + (if Qualifies(last) then [last] else []);
      assert AllParse(q) ==> AllParse(q0) by {
        if AllParse(q) {
          forall i | 0 <= i < |q0| ensures RowParses(q0[i]) { assert q[i] == q0[i]; }
        }
      }
      if Qualifies(last) {
        RowToRecordAgrees(last, at);
        assert q[..|q| - 1] == q0;
        assert AllParse(q) ==> RowParses(q[|q| - 1]);
        assert AllParse(q0) && RowParses(last) ==> AllParse(q);
      } else {
        assert q == q0;
      }
    }
  }

  /**
   * Fields in fixed positions: on success record i is built from the i-th
   * qualifying row, with name, title and federation its cells 1, 2, 3 and
   * rank, rating and birth year the integers written in cells 0, 4, 5.
   */
  lemma ExtractedFields(rows: seq<Row>, at: Timestamp, i: int)
    requires ExtractRecords(rows, at).Success?
    requires 0 <= i < |Qualifying(rows)|
    ensures |ExtractRecords(rows, at).value| == |Qualifying(rows)|
    ensures var rec, row := ExtractRecords(rows, at).value[i], Qualifying(rows)[i];
      && rec.name == row[1] && rec.title == row[2] && rec.federation == row[3]
      && ParseInt(row[0]) == Some(rec.indianRank)
      && ParseInt(row[4]) == Some(rec.rating)
      && ParseInt(row[5]) == Some(rec.birthYear)
      && rec.scrapedAt == at
  {
    ExtractIsFilterThenMap(rows, at);
  }

  /**
   * On failure the error names a rejected cell of the first qualifying row
   * that does not parse; every qualifying row before it parses.
   */
  lemma {:induction false} ExtractFailsAtFirstBadRow(rows: seq<Row>, at: Timestamp)
    requires ExtractRecords(rows, at).Failure?
    ensures exists k :: (0 <= k < |Qualifying(rows)|
                         && !RowParses(Qualifying(rows)[k])
                         && (forall j :: 0 <= j < k ==> RowParses(Qualifying(rows)[j]))
                         && ExtractRecords(rows, at).error == InvalidLiteral(BadCell(Qualifying(rows)[k])))
  {
    var init := rows[..|rows| - 1];
    var last := rows[|rows| - 1];
    var q0 := Qualifying(init);
    var q := Qualifying(rows);
    assert q == q0 + (if Qualifies(last) then [last] else []);
    if ExtractRecords(init, at).Failure? {
      ExtractFailsAtFirstBadRow(init, at);
      var k :| 0 <= k < |q0| && !RowParses(q0[k]) && (forall j :: 0 <= j < k ==> RowParses(q0[j]))
        && ExtractRecords(init, at).error == InvalidLiteral(BadCell(q0[k]));
      assert q[k] == q0[k];
      assert forall j :: 0 <= j < k ==> q[j] == q0[j];
    } else {
      ExtractIsFilterThenMap(init, at);
      RowToRecordAgrees(last, at);
      var k := |q0|;
      assert q[k] == last;
      assert forall j :: 0 <= j < k ==> q[j] == q0[j];
    }
  }

  /** The outcome of the loop over `a + b`: `a`'s error, else `b`'s, else both record lists joined. */
  function Join(ra: Result<seq<Record>, ScrapeError>, rb: Result<seq<Record>, ScrapeError>): Result<seq<Record>, ScrapeError>
  {
    match ra
    case Failure(e) => Failure(e)
    case Success(xs) =>
      match rb
      case Failure(e) => Failure(e)
      case Success(ys) => Success(xs + ys)
  }

  /** Records keep the order of their rows: the loop over `a + b` is the loop over `a`, then over `b`. */
  lemma {:induction false} ExtractAppend(a: seq<Row>, b: seq<Row>, at: Timestamp)
    ensures ExtractRecords(a + b, at) == Join(ExtractRecords(a, at), ExtractRecords(b, at))
  {
    if |b| == 0 {
      assert a + b == a;
      if ExtractRecords(a, at).Success? {
        assert ExtractRecords(a, at).value + [] == ExtractRecords(a, at).value;
      }
    } else {
      var b0, last := b[..|b| - 1], b[|b| - 1];
      ExtractAppend(a, b0, at);
      assert (a + b)[..|a + b| - 1] == a + b0;
      assert (a + b)[|a + b| - 1] == last;
      match ExtractRecords(a, at)
      case Failure(_) =>
      case Success(xs) =>
        match ExtractRecords(b0, at)
        case Failure(_) =>
        case Success(ys) =>
          if Qualifies(last) && RowToRecord(last, at).Success? {
            var rec := RowToRecord(last, at).value;
            assert xs + (ys + [rec]) == (xs + ys) + [rec];
          }
    }
  }

  /** A row with fewer than six cells produces no record and cannot fail. */
  lemma ShortRowIsSkipped(a: seq<Row>, row: Row, b: seq<Row>, at: Timestamp)
    requires !Qualifies(row)
    ensures ExtractRecords(a + [row] + b, at) == ExtractRecords(a + b, at)
  {
    ExtractAppend(a + [row], b, at);
    ExtractAppend(a, [row], at);
    ExtractAppend(a, b, at);
    assert [row][..0] == [];
  }

  /** A qualifying row with a non-numeric rank, rating or birth year is not skipped: the scrape fails. */
  lemma BadLiteralFails(a: seq<Row>, row: Row, b: seq<Row>, at: Timestamp)
    requires Qualifies(row) && !RowParses(row)
    ensures ExtractRecords(a + [row] + b, at).Failure?
  {
    ExtractAppend(a + [row], b, at);
    ExtractAppend(a, [row], at);
    assert [row][..0] == [];
    RowToRecordAgrees(row, at);
  }

  /** Cells after the sixth play no part in a row's record. */
  lemma ExtraCellsIgnored(row: Row, at: Timestamp)
    requires Qualifies(row)
    ensures RowToRecord(row, at) == RowToRecord(row[..MinCells], at)
  {
  }

  /** The header row is never read: the scrape does not depend on it. */
  lemma HeaderIgnored(header1: Row, header2: Row, body: seq<Row>, at: Timestamp)
    ensures ExtractRecords(SkipHeader([header1] + body), at) == ExtractRecords(SkipHeader([header2] + body), at)
    ensures ExtractRecords(SkipHeader([header1] + body), at) == ExtractRecords(body, at)
  {
  }
}
