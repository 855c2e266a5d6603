/** `KU.Student.JWEB.retrieveStudentInfo`: the registration status page.
    Three-cell rows give the credit totals, a "current program" row names
    the program in the row after it, and heading rows give the college and
    the majors, minors, concentrations and specialties, repeated headings
    joined with ", ". The header and class-standing patterns are inputs:
    the captured groups of each. */
module StudentStatus {
  import JsText
  import opened Results
  import opened StudentRows

  /** The groups `headerPattern` captures: the id number and the name. */
  datatype HeaderGroups = HeaderGroups(idNumber: string, fullName: string)

  /** `KU.Student.JWEB.StudentInfo`. */
  datatype StudentInfo = StudentInfo(fullName: string, idNumber: string, standing: string,
                                     transferCredits: string, regularCredits: string, program: string,
                                     college: string, major: string, concentration: string, minor: string,
                                     specialty: string)

  /** The fields the table rows fill in. */
  datatype Fields = Fields(transferCredits: string, regularCredits: string, program: string, college: string,
                           major: string, concentration: string, minor: string, specialty: string)

  const NoFields: Fields := Fields("", "", "", "", "", "", "", "")

  /** Adding a repeated value: ", " goes in front of it only when something
      has been gathered already. */
  function Append(acc: string, v: string): (r: string)
    ensures acc == "" ==> r == v
    ensures acc != "" ==> r == acc + ", " + v
  {
    if acc != "" then acc + ", " + v else acc + v
  }

  function CreditsStep(f: Fields, r: Row): Fields {
    var level := CellNeutral(r, 0);
    var kind := CellNeutral(r, 1);
    var u := if level == "undergraduate" && kind == "transfer" then f.(transferCredits := CellText(r, 2)) else f;
    if level == "undergraduate" && kind == "institutional" then u.(regularCredits := CellText(r, 2)) else u
  }

  /** The headings the one-`th` rows are told apart by. */
  datatype Heading = CollegeHeading | MajorHeading | MinorHeading | ConcentrationHeading | SpecialtyHeading
                   | OtherHeading

  /** Which heading a neutralised `th` text names, compared in the handler's
      order. */
  function HeadingOf(h: string): Heading {
    if h == "college:" then CollegeHeading
    else if h == "major:" then MajorHeading
    else if h == "minor:" then MinorHeading
    else if h == "concentration:" then ConcentrationHeading
    else if h == "major concentration:" then SpecialtyHeading
    else OtherHeading
  }

  function HeadingStep(f: Fields, h: Heading, v: string): Fields {
    match h
    case CollegeHeading => f.(college := v)
    case MajorHeading => f.(major := Append(f.major, v))
    case MinorHeading => f.(minor := Append(f.minor, v))
    case ConcentrationHeading => f.(concentration := Append(f.concentration, v))
    case SpecialtyHeading => f.(specialty := Append(f.specialty, v))
    case OtherHeading => f
  }

  /** How the handler treats a row, in the order of its tests. A
      "current program" row carries the text of the row after it. */
  datatype RowKind = CreditsRow | ProgramRow(next: string) | HeadingRow(heading: Heading) | IgnoredRow

  function KindAt(rows: seq<Row>, i: nat): RowKind
    requires i < |rows|
  {
    var r := rows[i];
    if |r.td| == 3 then CreditsRow
    else if JsText.Neutral(r.text) == "current program" && i + 1 < |rows| then ProgramRow(rows[i + 1].text)
    else if |r.td| == 1 && |r.th| == 1 then HeadingRow(HeadingOf(HeadNeutral(r)))
    else IgnoredRow
  }

  /** The kind of every row, in row order. */
  function Kinds(rows: seq<Row>): (ks: seq<RowKind>)
    ensures |ks| == |rows|
    ensures forall i :: 0 <= i < |rows| ==> ks[i] == KindAt(rows, i)
  {
    seq(|rows|, i requires 0 <= i < |rows| => KindAt(rows, i))
  }

  /** What a row of kind `k` does, branch for branch. */
  function Step(f: Fields, k: RowKind, r: Row): Fields {
    match k
    case CreditsRow => CreditsStep(f, r)
    case ProgramRow(next) => f.(program := JsText.Trim(next))
    case HeadingRow(h) => HeadingStep(f, h, CellText(r, 0))
    case IgnoredRow => f
  }

  /** The fields after the first `n` of the rows, whose kinds are `ks`. */
  function Fold(ks: seq<RowKind>, rows: seq<Row>, n: nat): Fields
    requires |ks| == |rows| && n <= |rows|
  {
    if n == 0 then NoFields else Step(Fold(ks, rows, n - 1), ks[n - 1], rows[n - 1])
  }

  /** The fields after the first `n` rows of the table. */
  function Run(rows: seq<Row>, n: nat): Fields
    requires n <= |rows|
  {
    Fold(Kinds(rows), rows, n)
  }

  /** The last captured standing, "" when no message matched. */
  function Standing(matches: seq<Option<string>>): (r: string)
    ensures (forall k :: 0 <= k < |matches| ==> matches[k].None?) ==> r == ""
    ensures forall k :: 0 <= k < |matches| && matches[k].Some? && (forall j :: k < j < |matches| ==> matches[j].None?)
                        ==> r == matches[k].value
  {
    if |matches| == 0 then ""
    else
      var init := matches[..|matches| - 1];
      assert forall k :: 0 <= k < |init| ==> init[k] == matches[k];
      match matches[|matches| - 1]
      case Some(s) => s
      case None => Standing(init)
  }

  /** The success handler's answer. */
  function Info(errorPage: bool, header: Option<HeaderGroups>, standings: seq<Option<string>>,
                rows: seq<Row>): (r: Reply<StudentInfo>)
    ensures errorPage <==> r.Failure?
    ensures r.Failure? ==> r.message == RequestFailed
    ensures r.Success? ==> r.value.fullName == (match header case Some(g) => g.fullName case None => "")
  {
    if errorPage then Failure(RequestFailed)
    else
      var f := Run(rows, |rows|);
      var name := match header case Some(g) => g.fullName case None => "";
      var id := match header case Some(g) => g.idNumber case None => "";
      Success(StudentInfo(name, id, Standing(standings), f.transferCredits, f.regularCredits, f.program,
                          f.college, f.major, f.concentration, f.minor, f.specialty))
  }

  // ----- a reference reading of the fields -----

  /** The values of the heading rows for `heading` among the first `n`
      rows, in order. */
  function Values(ks: seq<RowKind>, rows: seq<Row>, n: nat, heading: Heading): seq<string>
    requires |ks| == |rows| && n <= |rows|
  {
    if n == 0 then []
    else Values(ks, rows, n - 1, heading) + (if ks[n - 1] == HeadingRow(heading) then [CellText(rows[n - 1], 0)] else [])
  }

  /** The values folded with `Append`, in order. */
  function Accumulate(vs: seq<string>): string {
    if |vs| == 0 then "" else Append(Accumulate(vs[..|vs| - 1]), vs[|vs| - 1])
  }

  /** The values from the first non-blank one on. */
  function DropLeadingBlanks(vs: seq<string>): (r: seq<string>)
    ensures |r| <= |vs|
  {
    if |vs| == 0 then [] else if vs[0] == "" then DropLeadingBlanks(vs[1..]) else vs
  }

  lemma {:induction false} DropLeadingBlanksSnoc(vs: seq<string>, v: string)
    ensures DropLeadingBlanks(vs + [v])
            == if DropLeadingBlanks(vs) == [] then (if v == "" then [] else [v]) else DropLeadingBlanks(vs) + [v]
    decreases |vs|
  {
    if |vs| == 0 {
      assert [v][1..] == [];
    } else {
      assert (vs + [v])[0] == vs[0];
      assert (vs + [v])[1..] == vs[1..] + [v];
      if vs[0] == "" {
        DropLeadingBlanksSnoc(vs[1..], v);
      }
    }
  }

  lemma DropLeadingBlanksHead(vs: seq<string>)
    ensures DropLeadingBlanks(vs) != [] ==> DropLeadingBlanks(vs)[0] != ""
  {
  }

  lemma {:induction false} JoinSnoc(parts: seq<string>, p: string, sep: string)
    requires |parts| > 0
    ensures JsText.Join(parts + [p], sep) == JsText.Join(parts, sep) + sep + p
    decreases |parts|
  {
    if |parts| == 1 {
      assert (parts + [p])[1..] == [p];
    } else {
      assert (parts + [p])[1..] == parts[1..] + [p];
      JoinSnoc(parts[1..], p, sep);
    }
  }

  lemma JoinNonEmpty(parts: seq<string>, sep: string)
    requires |parts| > 0 && parts[0] != ""
    ensures JsText.Join(parts, sep) != ""
  {
    if |parts| > 1 {
      assert JsText.Join(parts, sep) == parts[0] + sep + JsText.Join(parts[1..], sep);
      assert |JsText.Join(parts, sep)| >= |parts[0]|;
    }
  }

  /** Accumulating is joining with ", " once the leading blank values are
      dropped: a blank value before the first real one leaves no trace,
      any later one leaves its separator. */
  lemma {:induction false} AccumulateIsJoin(vs: seq<string>)
    ensures Accumulate(vs) == JsText.Join(DropLeadingBlanks(vs), ", ")
  {
    if |vs| > 0 {
      var init := vs[..|vs| - 1];
      var v := vs[|vs| - 1];
      assert vs == init + [v];
      AccumulateIsJoin(init);
      DropLeadingBlanksSnoc(init, v);
      var d := DropLeadingBlanks(init);
      if d != [] {
        DropLeadingBlanksHead(init);
        JoinNonEmpty(d, ", ");
        JoinSnoc(d, v, ", ");
      }
    }
  }

  /** The headings whose values accumulate. */
  predicate IsRepeatedHeading(h: Heading) {
    h.MajorHeading? || h.MinorHeading? || h.ConcentrationHeading? || h.SpecialtyHeading?
  }

  /** The field a repeated heading accumulates into. */
  function Repeated(f: Fields, h: Heading): string {
    match h
    case MajorHeading => f.major
    case MinorHeading => f.minor
    case ConcentrationHeading => f.concentration
    case _ => f.specialty
  }

  /** One row adds to a repeated field exactly when it is a heading row for
      that field's heading. */
  lemma StepAccumulates(f: Fields, k: RowKind, r: Row, h: Heading)
    requires IsRepeatedHeading(h)
    ensures Repeated(Step(f, k, r), h)
            == if k == HeadingRow(h) then Append(Repeated(f, h), CellText(r, 0)) else Repeated(f, h)
  {
  }

  lemma AccumulateSnoc(vs: seq<string>, v: string)
    ensures Accumulate(vs + [v]) == Append(Accumulate(vs), v)
  {
    assert (vs + [v])[..|vs|] == vs;
  }

  /** A repeated field holds its heading's values, accumulated in row
      order. */
  lemma {:induction false} RepeatedFieldAccumulates(ks: seq<RowKind>, rows: seq<Row>, n: nat, h: Heading)
    requires |ks| == |rows| && n <= |rows| && IsRepeatedHeading(h)
    ensures Repeated(Fold(ks, rows, n), h) == Accumulate(Values(ks, rows, n, h))
  {
    if n > 0 {
      RepeatedFieldAccumulates(ks, rows, n - 1, h);
      StepAccumulates(Fold(ks, rows, n - 1), ks[n - 1], rows[n - 1], h);
      AccumulateValuesStep(ks, rows, n, h);
    }
  }

  /** The accumulated values grow with the heading rows and only with them. */
  lemma AccumulateValuesStep(ks: seq<RowKind>, rows: seq<Row>, n: nat, h: Heading)
    requires |ks| == |rows| && 0 < n <= |rows|
    ensures Accumulate(Values(ks, rows, n, h))
            == if ks[n - 1] == HeadingRow(h) then Append(Accumulate(Values(ks, rows, n - 1, h)), CellText(rows[n - 1], 0))
               else Accumulate(Values(ks, rows, n - 1, h))
  {
    var init := Values(ks, rows, n - 1, h);
    if ks[n - 1] == HeadingRow(h) {
      AccumulateSnoc(init, CellText(rows[n - 1], 0));
    } else {
      assert Values(ks, rows, n, h) == init + [] == init;
    }
  }

  /** The answer's majors, minors, concentrations and specialties are the
      heading rows' values joined with ", ", leading blanks dropped. */
  lemma InfoJoinsRepeatedFields(header: Option<HeaderGroups>, standings: seq<Option<string>>, rows: seq<Row>)
    ensures var v := Info(false, header, standings, rows).value;
            var ks := Kinds(rows);
            v.major == JsText.Join(DropLeadingBlanks(Values(ks, rows, |rows|, MajorHeading)), ", ")
            && v.minor == JsText.Join(DropLeadingBlanks(Values(ks, rows, |rows|, MinorHeading)), ", ")
            && v.concentration == JsText.Join(DropLeadingBlanks(Values(ks, rows, |rows|, ConcentrationHeading)), ", ")
            && v.specialty == JsText.Join(DropLeadingBlanks(Values(ks, rows, |rows|, SpecialtyHeading)), ", ")
  {
    FieldJoins(rows, MajorHeading);
    FieldJoins(rows, MinorHeading);
    FieldJoins(rows, ConcentrationHeading);
    FieldJoins(rows, SpecialtyHeading);
  }

  /** A repeated field is its heading's values joined with ", ", leading
      blanks dropped. */
  lemma FieldJoins(rows: seq<Row>, h: Heading)
    requires IsRepeatedHeading(h)
    ensures Repeated(Run(rows, |rows|), h) == JsText.Join(DropLeadingBlanks(Values(Kinds(rows), rows, |rows|, h)), ", ")
  {
    RepeatedFieldAccumulates(Kinds(rows), rows, |rows|, h);
    AccumulateIsJoin(Values(Kinds(rows), rows, |rows|, h));
  }

  /** The college of the last "college:" heading row, `dflt` before any. */
  function LastCollege(ks: seq<RowKind>, rows: seq<Row>, n: nat, dflt: string): string
    requires |ks| == |rows| && n <= |rows|
  {
    if n == 0 then dflt
    else if ks[n - 1] == HeadingRow(CollegeHeading) then CellText(rows[n - 1], 0)
    else LastCollege(ks, rows, n - 1, dflt)
  }

  /** A later "college:" row overwrites an earlier one. */
  lemma {:induction false} CollegeIsLast(ks: seq<RowKind>, rows: seq<Row>, n: nat)
    requires |ks| == |rows| && n <= |rows|
    ensures Fold(ks, rows, n).college == LastCollege(ks, rows, n, "")
  {
    if n > 0 {
      CollegeIsLast(ks, rows, n - 1);
    }
  }

  /** The program is the trimmed text of the row after the last "current
      program" row that has one, "" before any. */
  function LastProgram(ks: seq<RowKind>, n: nat): string
    requires n <= |ks|
  {
    if n == 0 then ""
    else match ks[n - 1]
         case ProgramRow(next) => JsText.Trim(next)
         case _ => LastProgram(ks, n - 1)
  }

  lemma {:induction false} ProgramFollowsLabel(ks: seq<RowKind>, rows: seq<Row>, n: nat)
    requires |ks| == |rows| && n <= |rows|
    ensures Fold(ks, rows, n).program == LastProgram(ks, n)
  {
    if n > 0 {
      ProgramFollowsLabel(ks, rows, n - 1);
    }
  }

  /** A "current program" row that has a row after it carries that row's
      text; the last row never does. */
  lemma ProgramRowCarriesNext(rows: seq<Row>, i: nat)
    requires i < |rows|
    ensures Kinds(rows)[i].ProgramRow? <==> |rows[i].td| != 3 && JsText.Neutral(rows[i].text) == "current program" && i + 1 < |rows|
    ensures Kinds(rows)[i].ProgramRow? ==> Kinds(rows)[i].next == rows[i + 1].text
  {
  }
}
