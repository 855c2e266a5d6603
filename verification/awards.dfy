/** `KU.Student.JWEB.retrieveAwardHistory`: one award year per data table.
    A table is modelled as the outcome of matching its caption against
    `namePattern` (the captured year range, or `None` when `exec` finds no
    match) and its rows. */
module StudentAwards {
  import opened Results
  import opened StudentRows

  datatype AwardEntry = AwardEntry(name: string, offered: string, accepted: string, declined: string,
                                   cancelled: string, paidToDate: string)

  datatype AwardYear = AwardYear(years: string, entries: seq<AwardEntry>)

  datatype AwardTable = AwardTable(captionMatch: Option<string>, rows: seq<Row>)

  predicate IsAwardRow(r: Row) {
    |r.td| == 7
  }

  /** The entry of a seven-cell row: cells 0 to 4, then the amount paid from
      cell 6; cell 5 is skipped. */
  function EntryOf(r: Row): (e: AwardEntry)
    ensures e.name == CellText(r, 0) && e.cancelled == CellText(r, 4) && e.paidToDate == CellText(r, 6)
  {
    AwardEntry(CellText(r, 0), CellText(r, 1), CellText(r, 2), CellText(r, 3), CellText(r, 4), CellText(r, 6))
  }

  /** The entries of a table's seven-cell rows, in order. */
  function Entries(rows: seq<Row>): seq<AwardEntry> {
    if |rows| == 0 then []
    else Entries(rows[..|rows| - 1]) + (if IsAwardRow(rows[|rows| - 1]) then [EntryOf(rows[|rows| - 1])] else [])
  }

  function CountAwardRows(rows: seq<Row>): nat {
    if |rows| == 0 then 0
    else CountAwardRows(rows[..|rows| - 1]) + (if IsAwardRow(rows[|rows| - 1]) then 1 else 0)
  }

  lemma {:induction false} EntriesCounted(rows: seq<Row>)
    ensures |Entries(rows)| == CountAwardRows(rows)
  {
    if |rows| > 0 {
      EntriesCounted(rows[..|rows| - 1]);
    }
  }

  /** Only seven-cell rows contribute, each its own entry, in order. */
  lemma {:induction false} EntriesAreAwardRows(rows: seq<Row>, r: Row)
    ensures Entries(rows + [r]) == Entries(rows) + (if IsAwardRow(r) then [EntryOf(r)] else [])
  {
    assert (rows + [r])[..|rows|] == rows;
  }

  // ----- as written -----

  /** The handler as written: `groups.length` is read from the result of
      `exec` without a null check, so the first table whose caption does not
      match throws a `TypeError` and neither callback runs. */
  function AwardHistoryAsWritten(errorPage: bool, tables: seq<AwardTable>): (r: Reply<seq<AwardYear>>)
    ensures errorPage ==> r == Failure(RequestFailed)
    ensures !errorPage && (exists k :: 0 <= k < |tables| && tables[k].captionMatch.None?) ==> r == NoReply
    ensures r.Success? ==> |r.value| == |tables|
    ensures r.Success? ==> forall k :: 0 <= k < |tables| ==> Some(r.value[k].years) == tables[k].captionMatch
  {
    if errorPage then Failure(RequestFailed)
    else if exists k :: 0 <= k < |tables| && tables[k].captionMatch.None? then NoReply
    else Success(Years(tables))
  }

  /** A page with one award table captioned "Award History" (which
      `namePattern` does not match) and one award row gets no answer at all. */
  lemma AsWrittenLosesUnmatchedCaption()
    ensures var row := Row([], seq(7, _ => Cell("x", None)), "");
            AwardHistoryAsWritten(false, [AwardTable(None, [row])]) == NoReply
            && AwardHistory(false, [AwardTable(None, [row])]).Success?
  {
    var tables := [AwardTable(None, [Row([], seq(7, _ => Cell("x", None)), "")])];
    assert tables[0].captionMatch.None?;
  }

  /** The as-written handler answers exactly when every caption matches. */
  lemma AsWrittenAnswersIffAllMatch(tables: seq<AwardTable>)
    ensures AwardHistoryAsWritten(false, tables) != NoReply
            <==> forall k :: 0 <= k < |tables| ==> tables[k].captionMatch.Some?
  {
  }

  // ----- as intended -----

  /** The year range of a table: the captured range, "" when the caption
      does not match. */
  function YearsOf(t: AwardTable): string {
    t.captionMatch.GetOr("")
  }

  /** The award years of the tables, one per table in table order. */
  function Years(tables: seq<AwardTable>): (ys: seq<AwardYear>)
    ensures |ys| == |tables|
    ensures forall k :: 0 <= k < |tables| ==> ys[k] == AwardYear(YearsOf(tables[k]), Entries(tables[k].rows))
  {
    seq(|tables|, k requires 0 <= k < |tables| => AwardYear(YearsOf(tables[k]), Entries(tables[k].rows)))
  }

  /** The handler with the missing null check in place: every table yields
      one award year, in table order, even one without award rows. */
  function AwardHistory(errorPage: bool, tables: seq<AwardTable>): (r: Reply<seq<AwardYear>>)
    ensures errorPage ==> r == Failure(RequestFailed)
    ensures !errorPage ==> r.Success? && |r.value| == |tables|
    ensures !errorPage ==> forall k :: 0 <= k < |tables| ==>
              r.value[k].years == YearsOf(tables[k]) && |r.value[k].entries| == CountAwardRows(tables[k].rows)
    ensures !errorPage ==> forall k :: 0 <= k < |tables| ==> r.value[k].entries == Entries(tables[k].rows)
  {
    if errorPage then Failure(RequestFailed)
    else
      var years := Years(tables);
      assert forall k :: 0 <= k < |tables| ==> |years[k].entries| == CountAwardRows(tables[k].rows) by {
        forall k | 0 <= k < |tables| ensures |years[k].entries| == CountAwardRows(tables[k].rows) {
          EntriesCounted(tables[k].rows);
        }
      }
      Success(years)
  }

  /** Where the as-written handler does answer, it answers as intended. */
  lemma CorrectedAgreesWhenAllMatch(tables: seq<AwardTable>)
    requires forall k :: 0 <= k < |tables| ==> tables[k].captionMatch.Some?
    ensures AwardHistoryAsWritten(false, tables) == AwardHistory(false, tables)
  {
  }
}
