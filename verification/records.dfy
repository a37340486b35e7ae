/** The data the scraper reads and produces. */
module Records {

  /** One row of the results table: the age it is for and the two life
      expectancies at that age, in years. */
  datatype LifeExpectancyPoint = LifeExpectancyPoint(atAge: real, additionalLE: real, totalLE: real)

  /** The scraped record: the first parsed row and every later parsed row in order. */
  datatype LifeExpectancy = LifeExpectancy(initial: LifeExpectancyPoint, future: seq<LifeExpectancyPoint>)

  /** A `tr` element as the HTML parser renders it: the text of each of its
      `td` cells, not yet stripped. */
  datatype Row = Row(cells: seq<string>)

  /** A `table` element: its whole rendered text and its rows in document order. */
  datatype Table = Table(text: string, rows: seq<Row>)

  /** Why a run produced no record. */
  datatype Error =
    | AutomationFailure           // the browser steps did not yield a page
    | TableNotFound               // no table on the page mentions "At Age"
    | MalformedNumber(cell: string) // a life-expectancy cell is not a number
    | NoInitialData               // no row of the table parsed
}
