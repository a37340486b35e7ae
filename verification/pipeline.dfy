/** The handler's steps composed: fill in the form, find the results table
    on the page it yields, and extract the record, stopping at the first error. */
module Pipeline {
  import opened Wrappers
  import opened Text
  import opened Records
  import opened AgeParser
  import opened AgeProperties
  import opened Locator
  import opened Extractor
  import opened ExtractorProperties
  import opened FormDriver

  /** The readers of the handler's row loop: each cell's text is stripped,
      then the age cell goes through the age normaliser and the two
      life-expectancy cells through `number`, which stands for Python's `float`. */
  function ScraperReaders(number: string -> Option<real>): Readers {
    Readers(t => NormalizeAge(Strip(t)), t => number(Strip(t)))
  }

  /** Stripping the age cell first changes nothing: the age reader is the
      normaliser itself. */
  lemma AgeReaderIsNormalizer(number: string -> Option<real>, t: string)
    ensures ScraperReaders(number).age(t) == NormalizeAge(t)
  {
    StripKeepsAge(t);
  }

  /** Sections 3 and 4 of the handler: locate the results table, then extract
      the record from its rows. */
  function Run(tables: seq<Table>, rd: Readers): Result<LifeExpectancy, Error> {
    var i :- LocateResultsTable(tables);
    ExtractRecords(tables[i].rows, rd)
  }

  /** The composition fails with `TableNotFound` exactly when no table
      mentions the marker; otherwise its outcome is the declarative
      extraction of the first marked table's rows. */
  lemma {:induction false} RunCorrect(tables: seq<Table>, rd: Readers)
    ensures Run(tables, rd) == Failure(TableNotFound)
        <==> forall j :: 0 <= j < |tables| ==> !HasMarker(tables[j])
    ensures forall i :: IsFirstMarked(tables, i) ==> Extracted(tables[i].rows, rd, Run(tables, rd))
  {
    var r := LocateResultsTable(tables);
    if r.Success? {
      var i := r.value;
      ExtractRecordsCorrect(tables[i].rows, rd);
      assert Run(tables, rd) == ExtractRecords(tables[i].rows, rd);
      assert Run(tables, rd).Failure? ==> Run(tables, rd).error != TableNotFound;
      forall j | IsFirstMarked(tables, j)
        ensures Extracted(tables[j].rows, rd, Run(tables, rd))
      {
        FirstMarkedUnique(tables, i, j);
      }
    }
  }

  /** The browser session's outcome as the handler sees it: the tables of
      the result page, or `AutomationFailure` when any browser step failed. */
  function Fetched(page: Option<seq<Table>>): (r: Result<seq<Table>, Error>)
    ensures r.Failure? <==> page.None?
    ensures r.Failure? ==> r.error == AutomationFailure
    ensures r.Success? ==> page == Some(r.value)
  {
    match page
    case None => Failure(AutomationFailure)
    case Some(ts) => Success(ts)
  }

  /** The whole scrape. `fetch` stands for the browser session: given the
      plan of form actions it yields the tables of the result page, or
      nothing when any browser step fails. `rd` are the cell readers; the
      handler's are `ScraperReaders(number)`. */
  function Scrape(p: BirthProfile, fetch: seq<Action> -> Option<seq<Table>>, rd: Readers)
    : Result<LifeExpectancy, Error>
  {
    var tables :- Fetched(fetch(FormPlan(p)));
    Run(tables, rd)
  }

  /** The browser is sent a plan that takes the form from loaded to
      submitted. A scrape fails with `AutomationFailure` exactly when the
      browser steps fail; otherwise its outcome is the declarative
      extraction of the first marked table on the page the plan yielded,
      or `TableNotFound` when no table there is marked. */
  lemma {:induction false} ScrapeCorrect(p: BirthProfile, fetch: seq<Action> -> Option<seq<Table>>, rd: Readers)
    ensures Perform(PageLoaded, FormPlan(p)) == Some(Submitted)
    ensures Scrape(p, fetch, rd) == Failure(AutomationFailure) <==> fetch(FormPlan(p)).None?
    ensures fetch(FormPlan(p)).Some? ==>
      var ts := fetch(FormPlan(p)).value;
      || (Scrape(p, fetch, rd) == Failure(TableNotFound) && forall j :: 0 <= j < |ts| ==> !HasMarker(ts[j]))
      || exists i :: IsFirstMarked(ts, i) && Extracted(ts[i].rows, rd, Scrape(p, fetch, rd))
  {
    FormPlanSubmits(p);
    var page := fetch(FormPlan(p));
    if page.Some? {
      var ts := page.value;
      assert Scrape(p, fetch, rd) == Run(ts, rd);
      RunCorrect(ts, rd);
      var r := LocateResultsTable(ts);
      if r.Success? {
        assert IsFirstMarked(ts, r.value);
      }
    }
  }
}
