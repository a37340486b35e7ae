/** Finding the results table among all tables of the page. */
module Locator {
  import opened Wrappers
  import opened Text
  import opened Records

  /** The phrase that only the results table contains. */
  const Marker: string := "At Age"

  predicate HasMarker(t: Table) {
    Contains(t.text, Marker)
  }

  /** Table `i` is the first table, in document order, that mentions the marker. */
  ghost predicate IsFirstMarked(tables: seq<Table>, i: int) {
    && 0 <= i < |tables|
    && HasMarker(tables[i])
    && forall j :: 0 <= j < i ==> !HasMarker(tables[j])
  }

  /** The loop over `soup.find_all('table')`: the index of the first table
      whose text contains the marker, or `TableNotFound`. */
  function LocateResultsTable(tables: seq<Table>): (r: Result<nat, Error>)
    ensures r.Success? ==> IsFirstMarked(tables, r.value)
    ensures r.Failure? ==> r.error == TableNotFound
    ensures r.Failure? <==> forall j :: 0 <= j < |tables| ==> !HasMarker(tables[j])
    decreases |tables|
  {
    if |tables| == 0 then Failure(TableNotFound)
    else if HasMarker(tables[0]) then Success(0)
    else
      var i :- LocateResultsTable(tables[1..]);
      Success(i + 1)
  }

  /** At most one table is the first marked one. */
  lemma FirstMarkedUnique(tables: seq<Table>, i: int, j: int)
    requires IsFirstMarked(tables, i) && IsFirstMarked(tables, j)
    ensures i == j
  {
  }

  /** The locator succeeds with exactly the first marked table. */
  lemma LocateFindsFirstMarked(tables: seq<Table>, i: int)
    ensures LocateResultsTable(tables) == Success(i) <==> IsFirstMarked(tables, i)
  {
    var r := LocateResultsTable(tables);
    if IsFirstMarked(tables, i) {
      assert r.Success?;
      FirstMarkedUnique(tables, i, r.value);
    }
  }

  /** Three tables of which only the second mentions the marker: the second is chosen. */
  lemma SecondOfThree(a: Table, b: Table, c: Table)
    requires !HasMarker(a) && HasMarker(b) && !HasMarker(c)
    ensures LocateResultsTable([a, b, c]) == Success(1)
  {
    LocateFindsFirstMarked([a, b, c], 1);
  }
}
