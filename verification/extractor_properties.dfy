/** The row loop computes exactly the declarative extraction, and the
    consequences the handler relies on: the header is never read, rows that
    are not considered are skipped without effect, a malformed life
    expectancy aborts everything. */
module ExtractorProperties {
  import opened Wrappers
  import opened Records
  import opened Extractor

  /** The points the loop has produced so far, in order. */
  function Collected(acc: Progress): seq<LifeExpectancyPoint> {
    if acc.initial.None? then [] else [acc.initial.value] + acc.future
  }

  /** No point is in `future` before `initial` is set. */
  ghost predicate WellFormed(acc: Progress) {
    acc.initial.None? ==> acc.future == []
  }

  /** One pass of the loop body over a row that is not considered changes nothing. */
  lemma StepSkips(acc: Progress, row: Row, rd: Readers)
    requires !Considered(row, rd)
    ensures Step(acc, row, rd) == Success(acc)
  {
  }

  /** One pass over a considered row with an unparsable life expectancy
      fails with that cell. */
  lemma StepFails(acc: Progress, row: Row, rd: Readers)
    requires Considered(row, rd) && !Numeric(row, rd)
    ensures Step(acc, row, rd) == Failure(MalformedNumber(BadCell(row, rd)))
  {
  }

  /** One pass over a considered row whose numbers parse appends its point. */
  lemma StepAppends(acc: Progress, row: Row, rd: Readers)
    requires WellFormed(acc)
    requires Considered(row, rd) && Numeric(row, rd)
    ensures Step(acc, row, rd).Success?
    ensures WellFormed(Step(acc, row, rd).value)
    ensures Collected(Step(acc, row, rd).value) == Collected(acc) + [PointOf(row, rd)]
  {
  }

  /** A considered first row heads the survivors; when they all parse, its
      point heads their points. */
  lemma ParsedHead(rows: seq<Row>, rd: Readers)
    requires |rows| > 0 && Considered(rows[0], rd)
    requires AllNumeric(Survivors(rows, rd), rd)
    ensures Survivors(rows, rd) == [rows[0]] + Survivors(rows[1..], rd)
    ensures Numeric(rows[0], rd) && AllNumeric(Survivors(rows[1..], rd), rd)
    ensures Points(Survivors(rows, rd), rd) == [PointOf(rows[0], rd)] + Points(Survivors(rows[1..], rd), rd)
  {
    var s, s' := Survivors(rows, rd), Survivors(rows[1..], rd);
    assert s[0] == rows[0];
    assert forall k :: 0 <= k < |s'| ==> s'[k] == s[k + 1];
  }

  /** The loop over `rows` from any well-formed state, when every
      considered row parses: it appends their points in order. */
  lemma {:induction false} FoldSucceeds(rows: seq<Row>, rd: Readers, acc: Progress)
    requires WellFormed(acc)
    requires AllNumeric(Survivors(rows, rd), rd)
    ensures Fold(rows, rd, acc).Success?
    ensures WellFormed(Fold(rows, rd, acc).value)
    ensures Collected(Fold(rows, rd, acc).value) == Collected(acc) + Points(Survivors(rows, rd), rd)
    decreases |rows|
  {
    if |rows| > 0 {
      var row, rest := rows[0], rows[1..];
      var s, s' := Survivors(rows, rd), Survivors(rest, rd);
      if !Considered(row, rd) {
        StepSkips(acc, row, rd);
        assert s == s';
        FoldSucceeds(rest, rd, acc);
      } else {
        ParsedHead(rows, rd);
        StepAppends(acc, row, rd);
        var next := Step(acc, row, rd).value;
        FoldSucceeds(rest, rd, next);
      }
    }
  }

  /** The loop over `rows` from any well-formed state, when some considered
      row does not parse: it fails with the first unparsable cell. */
  lemma {:induction false} FoldFails(rows: seq<Row>, rd: Readers, acc: Progress)
    requires WellFormed(acc)
    requires !AllNumeric(Survivors(rows, rd), rd)
    ensures Fold(rows, rd, acc).Failure?
    ensures Fold(rows, rd, acc).error.MalformedNumber?
    ensures exists k :: FailsAt(Survivors(rows, rd), rd, k, Fold(rows, rd, acc).error.cell)
    decreases |rows|
  {
    var row, rest := rows[0], rows[1..];
    var s, s' := Survivors(rows, rd), Survivors(rest, rd);
    if !Considered(row, rd) {
      StepSkips(acc, row, rd);
      assert s == s';
      FoldFails(rest, rd, acc);
    } else if !Numeric(row, rd) {
      StepFails(acc, row, rd);
      assert s[0] == row;
      assert FailsAt(s, rd, 0, BadCell(row, rd));
    } else {
      assert s == [row] + s';
      StepAppends(acc, row, rd);
      var next := Step(acc, row, rd).value;
      assert !AllNumeric(s', rd);
      FoldFails(rest, rd, next);
      var cell := Fold(rest, rd, next).error.cell;
      var k :| FailsAt(s', rd, k, cell);
      assert FailsAt(s, rd, k + 1, cell);
    }
  }

  /** The handler's row loop and initial check compute the declarative extraction. */
  lemma ExtractRecordsCorrect(rows: seq<Row>, rd: Readers)
    ensures Extracted(rows, rd, ExtractRecords(rows, rd))
  {
    var s := Survivors(Body(rows), rd);
    if AllNumeric(s, rd) {
      FoldSucceeds(Body(rows), rd, Progress(None, []));
    } else {
      FoldFails(Body(rows), rd, Progress(None, []));
    }
  }

  /** The declarative extraction admits one outcome only. */
  lemma ExtractedDeterministic(rows: seq<Row>, rd: Readers, r1: Result<LifeExpectancy, Error>, r2: Result<LifeExpectancy, Error>)
    requires Extracted(rows, rd, r1) && Extracted(rows, rd, r2)
    ensures r1 == r2
  {
    var s := Survivors(Body(rows), rd);
    if r1.Success? && r2.Success? {
      var a, b := r1.value, r2.value;
      assert a.initial == ([a.initial] + a.future)[0] == ([b.initial] + b.future)[0] == b.initial;
      assert a.future == ([a.initial] + a.future)[1..] == ([b.initial] + b.future)[1..] == b.future;
    } else if r1.Failure? && r2.Failure? && r1.error.MalformedNumber? && r2.error.MalformedNumber? {
      var k1 :| FailsAt(s, rd, k1, r1.error.cell);
      var k2 :| FailsAt(s, rd, k2, r2.error.cell);
      assert !(k1 < k2) && !(k2 < k1);
    }
  }

  /** Extraction gives `r` exactly when `r` is the declarative outcome. */
  lemma ExtractRecordsExactly(rows: seq<Row>, rd: Readers, r: Result<LifeExpectancy, Error>)
    ensures ExtractRecords(rows, rd) == r <==> Extracted(rows, rd, r)
  {
    ExtractRecordsCorrect(rows, rd);
    if Extracted(rows, rd, r) {
      ExtractedDeterministic(rows, rd, r, ExtractRecords(rows, rd));
    }
  }

  /** Filtering works piecewise. */
  lemma {:induction false} SurvivorsAppend(a: seq<Row>, b: seq<Row>, rd: Readers)
    ensures Survivors(a + b, rd) == Survivors(a, rd) + Survivors(b, rd)
    decreases |a|
  {
    if |a| == 0 {
      assert a + b == b;
    } else {
      assert (a + b)[1..] == a[1..] + b;
      SurvivorsAppend(a[1..], b, rd);
    }
  }

  /** Two tables whose rows after the header have the same considered rows
      extract alike. */
  lemma SameSurvivorsSameResult(rows1: seq<Row>, rows2: seq<Row>, rd: Readers)
    requires Survivors(Body(rows1), rd) == Survivors(Body(rows2), rd)
    ensures ExtractRecords(rows1, rd) == ExtractRecords(rows2, rd)
  {
    ExtractRecordsCorrect(rows1, rd);
    ExtractRecordsExactly(rows2, rd, ExtractRecords(rows1, rd));
  }

  /** The header row is never processed: whatever it holds, the result is the same. */
  lemma HeaderIgnored(h1: Row, h2: Row, rest: seq<Row>, rd: Readers)
    ensures ExtractRecords([h1] + rest, rd) == ExtractRecords([h2] + rest, rd)
  {
    assert Body([h1] + rest) == rest == Body([h2] + rest);
  }

  /** A row after the header that is not considered (not three cells, or an
      age that does not normalise) is skipped without affecting the rest. */
  lemma SkipUnconsideredRow(before: seq<Row>, row: Row, after: seq<Row>, rd: Readers)
    requires |before| >= 1 && !Considered(row, rd)
    ensures ExtractRecords(before + [row] + after, rd) == ExtractRecords(before + after, rd)
  {
    var rest := before[1..];
    assert Body(before + [row] + after) == rest + [row] + after;
    assert Body(before + after) == rest + after;
    SurvivorsAppend(rest + [row], after, rd);
    SurvivorsAppend(rest, [row], rd);
    SurvivorsAppend(rest, after, rd);
    assert Survivors([row], rd) == [];
    SameSurvivorsSameResult(before + [row] + after, before + after, rd);
  }

  /** A considered row anywhere after the header whose life expectancies do
      not all parse makes the whole extraction fail, with no partial record. */
  lemma MalformedNumberAborts(before: seq<Row>, row: Row, after: seq<Row>, rd: Readers)
    requires |before| >= 1 && Considered(row, rd) && !Numeric(row, rd)
    ensures ExtractRecords(before + [row] + after, rd).Failure?
    ensures ExtractRecords(before + [row] + after, rd).error.MalformedNumber?
  {
    var rows := before + [row] + after;
    var rest := before[1..];
    assert Body(rows) == rest + [row] + after;
    SurvivorsAppend(rest + [row], after, rd);
    SurvivorsAppend(rest, [row], rd);
    assert Survivors([row], rd) == [row];
    var s := Survivors(Body(rows), rd);
    assert s[|Survivors(rest, rd)|] == row;
    assert !AllNumeric(s, rd);
    ExtractRecordsCorrect(rows, rd);
  }

  /** A header and three valid rows: the first becomes `initial`, the other
      two `future`, in order. */
  lemma ThreeValidRows(h: Row, r1: Row, r2: Row, r3: Row, rd: Readers)
    requires Considered(r1, rd) && Numeric(r1, rd)
    requires Considered(r2, rd) && Numeric(r2, rd)
    requires Considered(r3, rd) && Numeric(r3, rd)
    ensures ExtractRecords([h, r1, r2, r3], rd)
         == Success(LifeExpectancy(PointOf(r1, rd), [PointOf(r2, rd), PointOf(r3, rd)]))
  {
    var rows := [h, r1, r2, r3];
    assert Body(rows) == [r1, r2, r3];
    assert Survivors([r3], rd) == [r3];
    assert Survivors([r2, r3], rd) == [r2, r3] by {
      assert [r2, r3][1..] == [r3];
    }
    assert Survivors([r1, r2, r3], rd) == [r1, r2, r3] by {
      assert [r1, r2, r3][1..] == [r2, r3];
    }
    assert Points([r3], rd) == [PointOf(r3, rd)];
    assert Points([r2, r3], rd) == [PointOf(r2, rd), PointOf(r3, rd)] by {
      assert [r2, r3][1..] == [r3];
    }
    assert Points([r1, r2, r3], rd) == [PointOf(r1, rd), PointOf(r2, rd), PointOf(r3, rd)] by {
      assert [r1, r2, r3][1..] == [r2, r3];
    }
    ExtractRecordsExactly(rows, rd,
      Success(LifeExpectancy(PointOf(r1, rd), [PointOf(r2, rd), PointOf(r3, rd)])));
  }
}
