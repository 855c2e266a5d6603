/** `KU.Student.JWEB.retrieveScheduleCatalog`: every seventeen-cell row of
    the section search is a meeting of a section. A row whose CRN cell is
    blank is a further meeting of the section above it and repeats that
    section's details. */
module StudentCatalog {
  import opened StudentRows

  /** The section part of a `CatalogEntry`: status, CRN, course id,
      section, campus, credits and title. */
  datatype Section = Section(status: string, crn: string, courseId: string, section: string,
                             campus: string, credits: string, title: string)

  /** The meeting part of a `CatalogEntry`: days, time, capacity, active,
      professor, start date and room. */
  datatype Meeting = Meeting(days: string, time: string, capacity: string, active: string,
                             professor: string, startDate: string, room: string)

  /** `KU.Student.JWEB.CatalogEntry`, its fourteen fields grouped. */
  datatype CatalogEntry = CatalogEntry(section: Section, meeting: Meeting)

  const NoSection: Section := Section("", "", "", "", "", "", "")

  predicate IsMeetingRow(r: Row) {
    |r.td| == 17
  }

  /** A meeting row that names its section: the CRN cell is not blank. */
  predicate NamesSection(r: Row) {
    IsMeetingRow(r) && CellText(r, 1) != ""
  }

  /** The section a naming row describes; the course id is the subject and
      the number joined by "-". */
  function SectionOf(r: Row): (s: Section)
    ensures s.crn == CellText(r, 1) && s.courseId == CellText(r, 2) + "-" + CellText(r, 3)
  {
    Section(CellText(r, 0), CellText(r, 1), CellText(r, 2) + "-" + CellText(r, 3), CellText(r, 4),
            CellText(r, 5), CellText(r, 6), CellText(r, 7))
  }

  /** The meeting a row describes (cell 12 is not read). */
  function MeetingOf(r: Row): Meeting {
    Meeting(CellText(r, 8), CellText(r, 9), CellText(r, 10), CellText(r, 11), CellText(r, 13),
            CellText(r, 14), CellText(r, 15))
  }

  /** The section in force after the rows: that of the last naming row, or
      the blank defaults. */
  function Carried(rows: seq<Row>): Section {
    if |rows| == 0 then NoSection
    else if NamesSection(rows[|rows| - 1]) then SectionOf(rows[|rows| - 1])
    else Carried(rows[..|rows| - 1])
  }

  /** The entries for the rows: one per meeting row, with the section in
      force at that row and the row's own meeting. */
  function Entries(rows: seq<Row>): seq<CatalogEntry> {
    if |rows| == 0 then []
    else Entries(rows[..|rows| - 1])
         + (if IsMeetingRow(rows[|rows| - 1]) then [CatalogEntry(Carried(rows), MeetingOf(rows[|rows| - 1]))] else [])
  }

  function CountMeetingRows(rows: seq<Row>): nat {
    if |rows| == 0 then 0
    else CountMeetingRows(rows[..|rows| - 1]) + (if IsMeetingRow(rows[|rows| - 1]) then 1 else 0)
  }

  /** The success handler: the section variables survive from row to row
      and are overwritten only by a row that names its section. */
  method ScheduleCatalog(page: Page) returns (reply: Reply<seq<CatalogEntry>>)
    ensures page.errorPage ==> reply == Failure(RequestFailed)
    ensures !page.errorPage ==> reply == Success(Entries(page.rows))
  {
    if page.errorPage {
      return Failure(RequestFailed);
    }
    var rows := page.rows;
    var entries: seq<CatalogEntry> := [];
    var section := NoSection;
    var i := 0;
    while i < |rows|
      invariant 0 <= i <= |rows|
      invariant section == Carried(rows[..i])
      invariant entries == Entries(rows[..i])
    {
      var r := rows[i];
      assert rows[..i + 1][..i] == rows[..i] && rows[..i + 1][i] == r;
      if IsMeetingRow(r) {
        if CellText(r, 1) != "" {
          section := SectionOf(r);
        }
        entries := entries + [CatalogEntry(section, MeetingOf(r))];
      }
      i := i + 1;
    }
    assert rows[..i] == rows;
    return Success(entries);
  }

  /** One entry per meeting row. */
  lemma {:induction false} EntriesCounted(rows: seq<Row>)
    ensures |Entries(rows)| == CountMeetingRows(rows)
  {
    if |rows| > 0 {
      EntriesCounted(rows[..|rows| - 1]);
    }
  }

  /** The section in force is that of the last naming row, and with no
      naming row the blank defaults. */
  lemma CarriedIsLastNamed(rows: seq<Row>)
    ensures (forall k :: 0 <= k < |rows| ==> !NamesSection(rows[k])) ==> Carried(rows) == NoSection
    ensures forall j :: 0 <= j < |rows| && NamesSection(rows[j])
                        && (forall k :: j < k < |rows| ==> !NamesSection(rows[k]))
                        ==> Carried(rows) == SectionOf(rows[j])
  {
    if forall k :: 0 <= k < |rows| ==> !NamesSection(rows[k]) {
      CarriedNone(rows);
    }
    forall j | 0 <= j < |rows| && NamesSection(rows[j]) && (forall k :: j < k < |rows| ==> !NamesSection(rows[k]))
      ensures Carried(rows) == SectionOf(rows[j])
    {
      CarriedFrom(rows, j);
    }
  }

  lemma {:induction false} CarriedNone(rows: seq<Row>)
    requires forall k :: 0 <= k < |rows| ==> !NamesSection(rows[k])
    ensures Carried(rows) == NoSection
  {
    if |rows| > 0 {
      var init := rows[..|rows| - 1];
      assert forall k :: 0 <= k < |init| ==> init[k] == rows[k];
      CarriedNone(init);
    }
  }

  lemma {:induction false} CarriedFrom(rows: seq<Row>, j: nat)
    requires j < |rows| && NamesSection(rows[j])
    requires forall k :: j < k < |rows| ==> !NamesSection(rows[k])
    ensures Carried(rows) == SectionOf(rows[j])
  {
    if j < |rows| - 1 {
      var init := rows[..|rows| - 1];
      assert !NamesSection(rows[|rows| - 1]);
      assert forall k :: 0 <= k < |init| ==> init[k] == rows[k];
      CarriedFrom(init, j);
    }
  }

  /** A meeting row appended to the page adds exactly one entry: its own
      meeting, and its own section when it names one, otherwise the section
      carried from above. */
  lemma MeetingRowEntry(rows: seq<Row>, r: Row)
    requires IsMeetingRow(r)
    ensures Entries(rows + [r]) == Entries(rows) + [CatalogEntry(if NamesSection(r) then SectionOf(r) else Carried(rows), MeetingOf(r))]
  {
    assert (rows + [r])[..|rows|] == rows;
  }

  /** Rows other than meeting rows add nothing and carry nothing. */
  lemma OtherRowIgnored(rows: seq<Row>, r: Row)
    requires !IsMeetingRow(r)
    ensures Entries(rows + [r]) == Entries(rows) && Carried(rows + [r]) == Carried(rows)
  {
    assert (rows + [r])[..|rows|] == rows;
  }
}
