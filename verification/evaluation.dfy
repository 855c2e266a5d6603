/** `KU.Student.JWEB.retrieveEvaluation`: the degree evaluation. The second
    data table gives the credit and GPA totals; every later table is one
    evaluation area, read row by row. Elective courses wait in a queue until
    a row that ends the elective group moves them, stamped with the details
    read meanwhile, to the area's required courses. The matches of
    `areaPattern` are inputs: an area row carries the captured groups. */
module StudentEvaluation {
  import opened Results
  import opened StudentRows

  /** A "met" field: still the default "", a comparison's outcome, or
      `null` (electives read from detail rows). */
  datatype Flag = Blank | Bool(b: bool) | Null

  /** `KU.Student.JWEB.EvalCourse`. */
  datatype EvalCourse = EvalCourse(met: Flag, name: string, takenCourseId: string, takenCourseTitle: string,
                                   takenTerm: string, takenCredits: string, takenGrade: string, details: string)

  /** `KU.Student.JWEB.EvalArea`. */
  datatype EvalArea = EvalArea(met: Flag, name: string, requiredCredits: string, earnedCredits: string,
                               gpa: string, requiredCourses: seq<EvalCourse>)

  /** The groups `areaPattern` captures: area name, credits and status. */
  datatype AreaGroups = AreaGroups(name: string, credits: string, status: string)

  /** A row of an area table, with the groups of `areaPattern` on its cell
      when the row has one `th`, one `td` and the pattern matches. */
  datatype EvalRow = EvalRow(row: Row, area: Option<AreaGroups>)

  /** The handler's variables while it reads one area table: the course
      being read, the area fields, the required courses and the queue. */
  datatype Table = Table(course: EvalCourse, met: Flag, name: string, requiredCredits: string,
                         earnedCredits: string, gpa: string, required: seq<EvalCourse>, queue: seq<EvalCourse>)

  const NoCourse: EvalCourse := EvalCourse(Blank, "", "", "", "", "", "", "")

  /** The defaults at the start of every area table. */
  const Start: Table := Table(NoCourse, Blank, "", "", "", "", [], [])

  /** The queued courses, each with its details set to `d`. */
  function Stamp(q: seq<EvalCourse>, d: string): (r: seq<EvalCourse>)
    ensures |r| == |q|
    ensures forall i :: 0 <= i < |q| ==> r[i] == q[i].(details := d)
  {
    seq(|q|, i requires 0 <= i < |q| => q[i].(details := d))
  }

  /** Moving the queue to the required courses under the current details. */
  function Flush(t: Table): Table {
    t.(required := t.required + Stamp(t.queue, t.course.details), queue := [])
  }

  /** The flush and the reset of every course variable that most row kinds
      begin with. */
  function Restart(t: Table): Table {
    Flush(t).(course := NoCourse)
  }

  /** The reset after an elective is queued: the name and, for some rows,
      the details survive. */
  function ClearTaken(c: EvalCourse): EvalCourse {
    c.(met := Blank, takenCourseId := "", takenCourseTitle := "", takenTerm := "", takenCredits := "", takenGrade := "")
  }

  function Yes(r: Row, k: nat): Flag {
    Bool(CellNeutral(r, k) == "yes")
  }

  /** A course name that is "" or "-" falls back to the rule's text. */
  function NameOr(name: string, rule: string): (r: string)
    ensures name != "" && name != "-" ==> r == name
    ensures (name == "" || name == "-") ==> r == rule
  {
    if name == "" || name == "-" then rule else name
  }

  /** The conditions under which an unsatisfied course counts on its own. */
  predicate IsConjunction(c: string) {
    c == "(" || c == ")" || c == ")and(" || c == "and"
  }

  /** The row kinds, in the order the handler tests for them. */
  datatype RowKind = AreaRow | FullCourse | ElectivesStart | Unsatisfied | ElectiveDetailed | DetailsOnly
                   | Elective | ElectivesEnd | ElectivesStartUnsatisfied | Totals | Ignored

  function KindOf(er: EvalRow): RowKind {
    var r := er.row;
    var n := |r.td|;
    if |r.th| == 1 && n == 1 && er.area.Some? then AreaRow
    else if n == 17 then FullCourse
    else if n == 12 then ElectivesStart
    else if n == 10 && Spans(r, 9, "8") then Unsatisfied
    else if n == 10 then ElectiveDetailed
    else if n == 3 && Spans(r, 2, "8") then DetailsOnly
    else if n == 8 then Elective
    else if n == 2 then ElectivesEnd
    else if n == 5 && Spans(r, 4, "8") then ElectivesStartUnsatisfied
    else if n == 4 then Totals
    else Ignored
  }

  /** The course of a seventeen-cell row: subject and number, the rule as
      the fallback name, and what was taken for it. */
  function FullCourseOf(r: Row): EvalCourse {
    EvalCourse(Yes(r, 0), NameOr(CellText(r, 3) + "-" + CellText(r, 5), CellText(r, 2)),
               CellText(r, 10) + "-" + CellText(r, 11), CellText(r, 12), CellText(r, 9),
               CellText(r, 14), CellText(r, 15), "")
  }

  /** The first elective of a twelve-cell row. */
  function ElectivesStartOf(r: Row): EvalCourse {
    EvalCourse(Yes(r, 0), NameOr(CellText(r, 3), CellText(r, 2)),
               CellText(r, 5) + "-" + CellText(r, 6), CellText(r, 7), CellText(r, 4),
               CellText(r, 9), CellText(r, 10), "")
  }

  /** The course of an unsatisfied ten-cell row: nothing taken yet. */
  function UnsatisfiedOf(r: Row): EvalCourse {
    EvalCourse(Yes(r, 0), NameOr(CellText(r, 3) + "-" + CellText(r, 5), CellText(r, 2)), "", "", "", "", "", "")
  }

  /** The first elective of an unsatisfied five-cell row. */
  function ElectivesStartUnsatisfiedOf(r: Row): EvalCourse {
    EvalCourse(Yes(r, 0), NameOr(CellText(r, 3), CellText(r, 2)), CellText(r, 5) + "-" + CellText(r, 6),
               "", "", "", "", "")
  }

  /** A ten-cell elective row overwrites the taken fields and the details
      of the course being read and keeps its name. */
  function ElectiveDetailedOf(c: EvalCourse, r: Row): EvalCourse {
    c.(met := Null, details := CellText(r, 1), takenCourseId := CellText(r, 3) + "-" + CellText(r, 4),
       takenCourseTitle := CellText(r, 5), takenTerm := CellText(r, 2), takenCredits := CellText(r, 7),
       takenGrade := CellText(r, 8))
  }

  /** An eight-cell elective row overwrites the taken fields only. */
  function ElectiveOf(c: EvalCourse, r: Row): EvalCourse {
    c.(met := Null, takenCourseId := CellText(r, 1) + "-" + CellText(r, 2), takenCourseTitle := CellText(r, 3),
       takenTerm := CellText(r, 0), takenCredits := CellText(r, 5), takenGrade := CellText(r, 6))
  }

  /** Queue a first elective when it is named; the name stays for the
      electives that follow. */
  function StartQueue(u: Table, c: EvalCourse): Table {
    if c.name != "" then u.(queue := u.queue + [c], course := NoCourse.(name := c.name)) else u.(course := c)
  }

  /** Queue a further elective under the name being read, when there is
      one. */
  function Enqueue(t: Table, c: EvalCourse): Table {
    if c.name != "" then t.(queue := t.queue + [c], course := ClearTaken(c)) else t.(course := c)
  }

  /** What one row does to the variables, branch for branch. */
  function Step(t: Table, er: EvalRow): Table {
    var r := er.row;
    match KindOf(er)
    case AreaRow =>
      var g := er.area.GetOr(AreaGroups("", "", ""));
      Restart(t).(name := g.name, requiredCredits := g.credits, met := Bool(g.status == "Met"))
    case FullCourse =>
      var c := FullCourseOf(r);
      var u := Restart(t);
      if c.name != "" then u.(required := u.required + [c]) else u.(course := c)
    case ElectivesStart =>
      StartQueue(Restart(t), ElectivesStartOf(r))
    case Unsatisfied =>
      var c := UnsatisfiedOf(r);
      var u := Restart(t);
      if c.name != "" && IsConjunction(CellNeutral(r, 1)) then u.(required := u.required + [c]) else u.(course := c)
    case ElectiveDetailed =>
      Enqueue(t, ElectiveDetailedOf(t.course, r))
    case DetailsOnly =>
      t.(course := t.course.(details := CellText(r, 1)))
    case Elective =>
      Enqueue(t, ElectiveOf(t.course, r))
    case ElectivesEnd =>
      (if CellText(r, 1) == ")" then Flush(t) else t.(queue := [])).(course := NoCourse)
    case ElectivesStartUnsatisfied =>
      StartQueue(Restart(t), ElectivesStartUnsatisfiedOf(r))
    case Totals =>
      Restart(t).(earnedCredits := CellText(r, 1), gpa := CellText(r, 2))
    case Ignored =>
      t
  }

  /** The variables after the rows of a table, in document order. */
  function Run(t: Table, rows: seq<EvalRow>): Table {
    if |rows| == 0 then t else Step(Run(t, rows[..|rows| - 1]), rows[|rows| - 1])
  }

  /** The area a table describes, kept when its name is not blank; courses
      still queued when the table ends are not part of it. */
  function TableArea(rows: seq<EvalRow>): Option<EvalArea> {
    var t := Run(Start, rows);
    if t.name != "" then Some(EvalArea(t.met, t.name, t.requiredCredits, t.earnedCredits, t.gpa, t.required))
    else None
  }

  /** The areas of the tables, in table order. */
  function Areas(tables: seq<seq<EvalRow>>): seq<EvalArea> {
    if |tables| == 0 then []
    else Areas(tables[..|tables| - 1])
         + (match TableArea(tables[|tables| - 1]) case Some(a) => [a] case None => [])
  }

  // ----- what a row does to the queue -----

  /** Rows that move the queue to the required courses. */
  predicate FlushesQueue(er: EvalRow) {
    match KindOf(er)
    case AreaRow => true
    case FullCourse => true
    case ElectivesStart => true
    case Unsatisfied => true
    case ElectivesStartUnsatisfied => true
    case Totals => true
    case ElectivesEnd => CellText(er.row, 1) == ")"
    case _ => false
  }

  /** Rows that leave the required courses alone and keep the queue. */
  predicate HoldsQueue(er: EvalRow) {
    var k := KindOf(er);
    k.ElectiveDetailed? || k.DetailsOnly? || k.Elective? || k.Ignored?
  }

  predicate Prefix(a: seq<EvalCourse>, b: seq<EvalCourse>) {
    |a| <= |b| && b[..|a|] == a
  }

  /** A flushing row appends the whole queue, each course stamped with the
      current details, and then at most the row's own course; at most that
      one course waits in the new queue. */
  lemma FlushingRow(t: Table, er: EvalRow)
    requires FlushesQueue(er)
    ensures var u := Step(t, er);
            Prefix(t.required + Stamp(t.queue, t.course.details), u.required)
            && |u.required| <= |t.required| + |t.queue| + 1
            && |u.queue| <= 1
  {
    var flushed := t.required + Stamp(t.queue, t.course.details);
    var u := Step(t, er);
    assert Restart(t).required == flushed;
    assert u.required == flushed || u.required == flushed + [FullCourseOf(er.row)]
           || u.required == flushed + [UnsatisfiedOf(er.row)];
  }

  /** A two-cell row whose second cell is not ")" drops the queue: none of
      the queued courses is ever added. */
  lemma DiscardingRow(t: Table, er: EvalRow)
    requires KindOf(er) == ElectivesEnd && CellText(er.row, 1) != ")"
    ensures Step(t, er).required == t.required && Step(t, er).queue == []
  {
  }

  /** Rows of the other kinds keep the required courses and the queue,
      adding at most one elective to its end. */
  lemma HoldingRow(t: Table, er: EvalRow)
    requires HoldsQueue(er)
    ensures var u := Step(t, er);
            u.required == t.required && Prefix(t.queue, u.queue) && |u.queue| <= |t.queue| + 1
  {
  }

  /** A seventeen-cell row flushes the queue, then adds its own course when
      the course's name, after the fallback to the rule, is not blank. */
  lemma FullCourseRow(t: Table, er: EvalRow)
    requires KindOf(er) == FullCourse
    ensures var c := FullCourseOf(er.row);
            var flushed := t.required + Stamp(t.queue, t.course.details);
            Step(t, er).required == (if c.name != "" then flushed + [c] else flushed)
            && Step(t, er).queue == []
    ensures FullCourseOf(er.row).name == NameOr(CellText(er.row, 3) + "-" + CellText(er.row, 5), CellText(er.row, 2))
  {
  }

  // ----- what a table promises -----

  lemma {:induction false} RunAppend(t: Table, a: seq<EvalRow>, b: seq<EvalRow>)
    ensures Run(t, a + b) == Run(Run(t, a), b)
    decreases |b|
  {
    if |b| == 0 {
      assert a + b == a;
    } else {
      var init, last := b[..|b| - 1], b[|b| - 1];
      assert a + b == (a + init) + [last];
      RunAppend(t, a, init);
      RunSnoc(t, a + init, last);
      RunSnoc(Run(t, a), init, last);
      assert b == init + [last];
    }
  }

  lemma RunSnoc(t: Table, rows: seq<EvalRow>, er: EvalRow)
    ensures Run(t, rows + [er]) == Step(Run(t, rows), er)
  {
    assert (rows + [er])[..|rows|] == rows;
  }

  lemma StepGrows(t: Table, er: EvalRow)
    ensures Prefix(t.required, Step(t, er).required)
  {
    var u := Step(t, er);
    if FlushesQueue(er) {
      FlushingRow(t, er);
      assert u.required[..|t.required|] == (t.required + Stamp(t.queue, t.course.details))[..|t.required|];
    } else if HoldsQueue(er) {
      HoldingRow(t, er);
    } else {
      DiscardingRow(t, er);
    }
  }

  /** Required courses are only ever appended: what a table has gathered
      stays, in order, whatever rows follow. */
  lemma {:induction false} RequiredGrows(t: Table, rows: seq<EvalRow>)
    ensures Prefix(t.required, Run(t, rows).required)
  {
    if |rows| > 0 {
      var mid := Run(t, rows[..|rows| - 1]);
      RequiredGrows(t, rows[..|rows| - 1]);
      StepGrows(mid, rows[|rows| - 1]);
      assert Run(t, rows).required[..|mid.required|] == mid.required;
      assert mid.required[..|t.required|] == t.required;
    }
  }

  /** Electives queued by rows that are never followed by a flushing row
      are lost: rows that hold or drop the queue add no required course. */
  lemma {:induction false} QueuedAtEndNotAdded(t: Table, rows: seq<EvalRow>)
    requires forall k :: 0 <= k < |rows| ==> !FlushesQueue(rows[k])
    ensures Run(t, rows).required == t.required
  {
    if |rows| > 0 {
      var last := rows[|rows| - 1];
      QueuedAtEndNotAdded(t, rows[..|rows| - 1]);
      assert !FlushesQueue(last);
      if HoldsQueue(last) {
        HoldingRow(Run(t, rows[..|rows| - 1]), last);
      } else {
        DiscardingRow(Run(t, rows[..|rows| - 1]), last);
      }
    }
  }

  /** Every required or queued course has a name. */
  predicate Named(t: Table) {
    (forall i :: 0 <= i < |t.required| ==> t.required[i].name != "")
    && (forall i :: 0 <= i < |t.queue| ==> t.queue[i].name != "")
  }

  lemma FlushKeepsNamed(t: Table)
    requires Named(t)
    ensures Named(Flush(t)) && Named(Restart(t))
  {
    var s := Stamp(t.queue, t.course.details);
    var req := Flush(t).required;
    assert forall i :: 0 <= i < |req| ==> req[i] == if i < |t.required| then t.required[i] else s[i - |t.required|];
  }

  lemma StepKeepsNamed(t: Table, er: EvalRow)
    requires Named(t)
    ensures Named(Step(t, er))
  {
    FlushKeepsNamed(t);
    var r := er.row;
    match KindOf(er)
    case AreaRow =>
    case FullCourse =>
      AddRequiredKeepsNamed(Restart(t), FullCourseOf(r));
    case ElectivesStart =>
      StartQueueKeepsNamed(Restart(t), ElectivesStartOf(r));
    case Unsatisfied =>
      AddRequiredKeepsNamed(Restart(t), UnsatisfiedOf(r));
    case ElectiveDetailed =>
      EnqueueKeepsNamed(t, ElectiveDetailedOf(t.course, r));
    case DetailsOnly =>
    case Elective =>
      EnqueueKeepsNamed(t, ElectiveOf(t.course, r));
    case ElectivesEnd =>
    case ElectivesStartUnsatisfied =>
      StartQueueKeepsNamed(Restart(t), ElectivesStartUnsatisfiedOf(r));
    case Totals =>
    case Ignored =>
  }

  lemma AddRequiredKeepsNamed(u: Table, c: EvalCourse)
    requires Named(u)
    ensures c.name != "" ==> Named(u.(required := u.required + [c]))
    ensures Named(u.(course := c))
  {
  }

  lemma StartQueueKeepsNamed(u: Table, c: EvalCourse)
    requires Named(u)
    ensures Named(StartQueue(u, c))
  {
  }

  lemma EnqueueKeepsNamed(u: Table, c: EvalCourse)
    requires Named(u)
    ensures Named(Enqueue(u, c))
  {
  }

  lemma {:induction false} RunKeepsNamed(t: Table, rows: seq<EvalRow>)
    requires Named(t)
    ensures Named(Run(t, rows))
  {
    if |rows| > 0 {
      RunKeepsNamed(t, rows[..|rows| - 1]);
      StepKeepsNamed(Run(t, rows[..|rows| - 1]), rows[|rows| - 1]);
    }
  }

  /** The groups of the last area row, `None` before any. */
  function LastArea(rows: seq<EvalRow>): Option<AreaGroups> {
    if |rows| == 0 then None
    else if KindOf(rows[|rows| - 1]) == AreaRow then rows[|rows| - 1].area
    else LastArea(rows[..|rows| - 1])
  }

  /** The area's name, credits and status are those of the last area row;
      no other row kind touches them. */
  lemma {:induction false} AreaFieldsFromLastAreaRow(t: Table, rows: seq<EvalRow>)
    ensures var out := Run(t, rows);
            match LastArea(rows)
            case None => out.name == t.name && out.requiredCredits == t.requiredCredits && out.met == t.met
            case Some(g) => out.name == g.name && out.requiredCredits == g.credits && out.met == Bool(g.status == "Met")
  {
    if |rows| > 0 {
      var init, last := rows[..|rows| - 1], rows[|rows| - 1];
      AreaFieldsFromLastAreaRow(t, init);
      AreaFieldsStep(Run(t, init), last);
      if KindOf(last) == AreaRow {
        assert LastArea(rows) == last.area;
      } else {
        assert LastArea(rows) == LastArea(init);
      }
    }
  }

  /** Only an area row sets the area's name, credits and status. */
  lemma AreaFieldsStep(t: Table, er: EvalRow)
    ensures var u := Step(t, er);
            if KindOf(er) == AreaRow
            then u.name == er.area.value.name && u.requiredCredits == er.area.value.credits
                 && u.met == Bool(er.area.value.status == "Met")
            else u.name == t.name && u.requiredCredits == t.requiredCredits && u.met == t.met
  {
  }

  /** A table yields an area exactly when its last area row names one; the
      area then carries that row's name, credits and status, and every one
      of its courses is named. */
  lemma AreaIffNamed(rows: seq<EvalRow>)
    ensures TableArea(rows).Some? <==> LastArea(rows).Some? && LastArea(rows).value.name != ""
    ensures TableArea(rows).Some? ==>
              var a := TableArea(rows).value;
              var g := LastArea(rows).value;
              a.name == g.name && a.requiredCredits == g.credits && a.met == Bool(g.status == "Met")
              && forall i :: 0 <= i < |a.requiredCourses| ==> a.requiredCourses[i].name != ""
  {
    AreaFieldsFromLastAreaRow(Start, rows);
    RunKeepsNamed(Start, rows);
  }

  /** At most one area per table, each with a name. */
  lemma {:induction false} AreasNamed(tables: seq<seq<EvalRow>>)
    ensures |Areas(tables)| <= |tables|
    ensures forall i :: 0 <= i < |Areas(tables)| ==> Areas(tables)[i].name != ""
  {
    if |tables| > 0 {
      AreasNamed(tables[..|tables| - 1]);
    }
  }

  // ----- the overview table -----

  /** The credit and GPA totals of the second table. */
  datatype Overview = Overview(creditsMet: Flag, requiredCredits: string, usedCredits: string,
                               transferCredits: string, programGPAMet: Flag, overallGPAMet: Flag,
                               programGPA: string, overallGPA: string)

  const NoOverview: Overview := Overview(Blank, "", "", "", Blank, Blank, "", "")

  /** A totals row: one `th` and five `td`. */
  predicate IsTotalsRow(r: Row) {
    |r.th| == 1 && |r.td| == 5
  }

  /** A GPA flag is set only by "yes" or "no"; other answers leave it. */
  function GpaMet(r: Row, old_: Flag): Flag {
    if CellNeutral(r, 0) == "yes" then Bool(true)
    else if CellNeutral(r, 0) == "no" then Bool(false)
    else old_
  }

  function OverviewStep(o: Overview, r: Row): Overview {
    if IsTotalsRow(r) then
      var h := HeadNeutral(r);
      if h == "total required :" then
        o.(creditsMet := Yes(r, 0), requiredCredits := CellText(r, 1), usedCredits := CellText(r, 2))
      else if h == "program gpa :" then o.(programGPAMet := GpaMet(r, o.programGPAMet), programGPA := CellText(r, 2))
      else if h == "overall gpa :" then o.(overallGPAMet := GpaMet(r, o.overallGPAMet), overallGPA := CellText(r, 2))
      else if h == "transfer :" then o.(transferCredits := CellText(r, 2))
      else o
    else o
  }

  function OverviewOf(rows: seq<EvalRow>): Overview {
    if |rows| == 0 then NoOverview else OverviewStep(OverviewOf(rows[..|rows| - 1]), rows[|rows| - 1].row)
  }

  /** The second cell of the last "total required :" row, "" when none. */
  function LastTotalRequired(rows: seq<EvalRow>): string {
    if |rows| == 0 then ""
    else if IsTotalsRow(rows[|rows| - 1].row) && HeadNeutral(rows[|rows| - 1].row) == "total required :"
    then CellText(rows[|rows| - 1].row, 1)
    else LastTotalRequired(rows[..|rows| - 1])
  }

  /** The degree's required credits are those of the last "total required :"
      row; the GPA and transfer rows never change them. */
  lemma {:induction false} RequiredCreditsFromTotals(rows: seq<EvalRow>)
    ensures OverviewOf(rows).requiredCredits == LastTotalRequired(rows)
  {
    if |rows| > 0 {
      RequiredCreditsFromTotals(rows[..|rows| - 1]);
    }
  }

  // ----- the whole page -----

  /** `KU.Student.JWEB.Evaluation` without the header and first-table
      fields. */
  datatype Evaluation = Evaluation(creditsMet: Flag, requiredCredits: string, usedCredits: string,
                                   transferCredits: string, programGPAMet: Flag, overallGPAMet: Flag,
                                   programGPA: string, overallGPA: string, areas: seq<EvalArea>)

  const InvalidPage: string := "Invalid evaluation page found."

  function EvaluationOf(o: Overview, requiredCredits: string, areas: seq<EvalArea>): Evaluation {
    Evaluation(o.creditsMet, requiredCredits, o.usedCredits, o.transferCredits, o.programGPAMet,
               o.overallGPAMet, o.programGPA, o.overallGPA, areas)
  }

  // ----- as written -----

  /** The handler as written: the per-table `var requiredCredits = ""` is
      the same function-scoped variable as the overview's, so the
      evaluation reports the last area table's credits whenever there is an
      area table. "As written" presumes a page whose header matches
      `headerPattern`: on any other page the `headerGroups.length` read
      throws before the tables are walked, and that is not modelled. */
  function EvaluateAsWritten(errorPage: bool, tables: seq<seq<EvalRow>>): (r: Reply<Evaluation>)
    ensures errorPage ==> r == Failure(RequestFailed)
    ensures !errorPage && |tables| < 2 ==> r == Failure(InvalidPage)
    ensures !errorPage && |tables| == 2 ==> r.Success? && r.value.requiredCredits == LastTotalRequired(tables[1])
    ensures !errorPage && |tables| > 2 ==>
              r.Success? && r.value.requiredCredits
                            == match LastArea(tables[|tables| - 1]) case Some(g) => g.credits case None => ""
  {
    if errorPage then Failure(RequestFailed)
    else if |tables| < 2 then Failure(InvalidPage)
    else
      RequiredCreditsFromTotals(tables[1]);
      AreaFieldsFromLastAreaRow(Start, tables[|tables| - 1]);
      var o := OverviewOf(tables[1]);
      var credits := if |tables| > 2 then Run(Start, tables[|tables| - 1]).requiredCredits else o.requiredCredits;
      Success(EvaluationOf(o, credits, Areas(tables[2..])))
  }

  /** With an area table, the reported credits are the last area table's
      last area credits, "" when it has no area row, whatever the overview
      says. */
  lemma AsWrittenReportsLastArea(tables: seq<seq<EvalRow>>)
    requires |tables| > 2
    ensures EvaluateAsWritten(false, tables).Success?
    ensures EvaluateAsWritten(false, tables).value.requiredCredits
            == match LastArea(tables[|tables| - 1]) case Some(g) => g.credits case None => ""
  {
    AreaFieldsFromLastAreaRow(Start, tables[|tables| - 1]);
  }

  /** A page whose overview has no totals row and whose one area table
      requires "16.00" credits: the degree is reported to require "16.00"
      credits instead of the overview's "". */
  lemma AsWrittenLeaksAreaCredits()
    ensures var area := EvalRow(Row(["Area"], [Cell("x", None)], ""), Some(AreaGroups("Math", "16.00", "Met")));
            var tables := [[], [], [area]];
            EvaluateAsWritten(false, tables).value.requiredCredits == "16.00"
            && Evaluate(false, tables).value.requiredCredits == ""
  {
    var area := EvalRow(Row(["Area"], [Cell("x", None)], ""), Some(AreaGroups("Math", "16.00", "Met")));
    var tables: seq<seq<EvalRow>> := [[], [], [area]];
    assert KindOf(area) == AreaRow;
    assert [area][..0] == [];
    assert Run(Start, [area]).requiredCredits == "16.00";
    assert tables[|tables| - 1] == [area];
    assert OverviewOf(tables[1]) == NoOverview;
  }

  // ----- as intended -----

  /** The handler with a separate variable for each area's credits: the
      degree's required credits come from the overview table. */
  function Evaluate(errorPage: bool, tables: seq<seq<EvalRow>>): (r: Reply<Evaluation>)
    ensures errorPage ==> r == Failure(RequestFailed)
    ensures !errorPage && |tables| < 2 ==> r == Failure(InvalidPage)
    ensures !errorPage && |tables| >= 2 ==>
              r.Success? && r.value.requiredCredits == LastTotalRequired(tables[1])
              && |r.value.areas| <= |tables| - 2
    ensures !errorPage && |tables| >= 2 ==>
              r.value.areas == Areas(tables[2..])
              && forall i :: 0 <= i < |r.value.areas| ==> r.value.areas[i].name != ""
  {
    if errorPage then Failure(RequestFailed)
    else if |tables| < 2 then Failure(InvalidPage)
    else
      var o := OverviewOf(tables[1]);
      RequiredCreditsFromTotals(tables[1]);
      AreasNamed(tables[2..]);
      Success(EvaluationOf(o, o.requiredCredits, Areas(tables[2..])))
  }

  /** The two handlers differ in the required credits only, and not at all
      on a page without area tables; both presume a header that matches
      `headerPattern`. */
  lemma AsWrittenDiffersOnlyInCredits(errorPage: bool, tables: seq<seq<EvalRow>>)
    ensures EvaluateAsWritten(errorPage, tables).Success? <==> Evaluate(errorPage, tables).Success?
    ensures EvaluateAsWritten(errorPage, tables).Success? ==>
              EvaluateAsWritten(errorPage, tables).value
              == Evaluate(errorPage, tables).value.(requiredCredits := EvaluateAsWritten(errorPage, tables).value.requiredCredits)
    ensures |tables| <= 2 ==> EvaluateAsWritten(errorPage, tables) == Evaluate(errorPage, tables)
  {
  }
}
