/** Turning the rows of the results table into the scraped record. */
module Extractor {
  import opened Wrappers
  import opened Records

  /** The two cell readers of the loop, applied to a cell's text as the HTML
      parser renders it: `age` for the first cell and `number` for the two
      life-expectancy cells. In the handler they are the whitespace strip
      followed by the age normaliser and by Python's `float` respectively
      (see `Pipeline.ScraperReaders`). */
  datatype Readers = Readers(age: string -> Option<real>, number: string -> Option<real>)

  /** The rows the loop visits: every row but the first, which is the header. */
  function Body(rows: seq<Row>): seq<Row> {
    if |rows| == 0 then [] else rows[1..]
  }

  /** The loop's state: `initial` is absent exactly while `is_first_row` holds. */
  datatype Progress = Progress(initial: Option<LifeExpectancyPoint>, future: seq<LifeExpectancyPoint>)

  /** One pass of the loop body over one row. */
  function Step(acc: Progress, row: Row, rd: Readers): Result<Progress, Error> {
    if |row.cells| != 3 then Success(acc)
    else
      var ageText, additionalText, totalText := row.cells[0], row.cells[1], row.cells[2];
      match rd.age(ageText)
      case None => Success(acc)
      case Some(age) =>
        match rd.number(additionalText)
        case None => Failure(MalformedNumber(additionalText))
        case Some(additional) =>
          match rd.number(totalText)
          case None => Failure(MalformedNumber(totalText))
          case Some(total) =>
            var point := LifeExpectancyPoint(age, additional, total);
            if acc.initial.None? then Success(Progress(Some(point), acc.future))
            else Success(Progress(acc.initial, acc.future + [point]))
  }

  /** The loop over the rows, stopping at the first error. */
  function Fold(rows: seq<Row>, rd: Readers, acc: Progress): Result<Progress, Error>
    decreases |rows|
  {
    if |rows| == 0 then Success(acc)
    else
      var next :- Step(acc, rows[0], rd);
      Fold(rows[1..], rd, next)
  }

  /** Section 4 of the handler: the loop from an empty record, then the
      check that an initial point was found. */
  function ExtractRecords(rows: seq<Row>, rd: Readers): Result<LifeExpectancy, Error> {
    var acc :- Fold(Body(rows), rd, Progress(None, []));
    if acc.initial.None? then Failure(NoInitialData)
    else Success(LifeExpectancy(acc.initial.value, acc.future))
  }

  // ---------------------------------------------------------------------
  // What the extraction computes, stated without the loop.
  // ---------------------------------------------------------------------

  /** A row the loop turns into a point: exactly three cells, and an age
      cell that normalises. */
  predicate Considered(row: Row, rd: Readers) {
    |row.cells| == 3 && rd.age(row.cells[0]).Some?
  }

  /** Both life-expectancy cells of a three-cell row parse. */
  predicate Numeric(row: Row, rd: Readers) {
    && |row.cells| == 3
    && rd.number(row.cells[1]).Some?
    && rd.number(row.cells[2]).Some?
  }

  /** The considered rows, in order. */
  function Survivors(rows: seq<Row>, rd: Readers): (s: seq<Row>)
    ensures forall k :: 0 <= k < |s| ==> Considered(s[k], rd)
    decreases |rows|
  {
    if |rows| == 0 then []
    else (if Considered(rows[0], rd) then [rows[0]] else []) + Survivors(rows[1..], rd)
  }

  /** The point a considered, numeric row stands for. */
  function PointOf(row: Row, rd: Readers): LifeExpectancyPoint
    requires Considered(row, rd) && Numeric(row, rd)
  {
    LifeExpectancyPoint(
      rd.age(row.cells[0]).value,
      rd.number(row.cells[1]).value,
      rd.number(row.cells[2]).value)
  }

  ghost predicate AllNumeric(s: seq<Row>, rd: Readers) {
    forall k :: 0 <= k < |s| ==> Numeric(s[k], rd)
  }

  /** The points of considered, numeric rows, in order. */
  function Points(s: seq<Row>, rd: Readers): (ps: seq<LifeExpectancyPoint>)
    requires forall k :: 0 <= k < |s| ==> Considered(s[k], rd) && Numeric(s[k], rd)
    ensures |ps| == |s|
    decreases |s|
  {
    if |s| == 0 then [] else [PointOf(s[0], rd)] + Points(s[1..], rd)
  }

  /** The text of the first life-expectancy cell of a row that does not parse. */
  function BadCell(row: Row, rd: Readers): string
    requires |row.cells| == 3
  {
    if rd.number(row.cells[1]).None? then row.cells[1] else row.cells[2]
  }

  /** Considered row `k` is the first whose life expectancies do not parse,
      and `cell` is its first cell that does not. */
  ghost predicate FailsAt(s: seq<Row>, rd: Readers, k: int, cell: string) {
    && 0 <= k < |s|
    && (forall j :: 0 <= j < k ==> Numeric(s[j], rd))
    && |s[k].cells| == 3
    && !Numeric(s[k], rd)
    && cell == BadCell(s[k], rd)
  }

  /** `r` is what extracting `rows` must give: with `s` the considered rows
      after the header, success exactly when every one of them parses and
      there is at least one, with `[initial] + future` their points in order;
      otherwise the first unparsable cell, or `NoInitialData`. */
  ghost predicate Extracted(rows: seq<Row>, rd: Readers, r: Result<LifeExpectancy, Error>) {
    var s := Survivors(Body(rows), rd);
    match r
    case Success(le) =>
      AllNumeric(s, rd) && |s| > 0 && [le.initial] + le.future == Points(s, rd)
    case Failure(e) =>
      || (e == NoInitialData && AllNumeric(s, rd) && |s| == 0)
      || (e.MalformedNumber? && exists k :: FailsAt(s, rd, k, e.cell))
  }
}
