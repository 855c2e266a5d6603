/** `KU.Transfer`: transfer-credit lookups. Each search answers with a JSON
    list; an element of it is modelled as a record of the string fields the
    scraper reads, and a field JavaScript leaves `undefined` is `None`. */
module Transfer {
  import opened Results
  import JsText
  import Sorting

  /** `KU.Transfer.College`; `getColleges` and `searchByCollege` leave the
      city and state undefined. */
  datatype College = College(name: string, code: string, city: Option<string>, state: Option<string>)

  /** `KU.Transfer.Course`; `searchByCourseId` leaves the Kettering title and
      the credits undefined. */
  datatype Course = Course(kuTitle: Option<string>, kuCourseId: string, transCourseId: string,
                           transTitle: string, credits: Option<string>, college: College)

  const Service: string := "https://okras.kettering.edu/kuapps/apex_apps.transfer_art_pkg."

  // ----- searchByCollege -----

  /** An element of `entries` in the answer to a college search. */
  datatype CreditEntry = CreditEntry(kucourse: string, kucoursetitle: string, trnscrse: string,
                                     trnscrsetitle: string, credits: string, institution: string,
                                     transferableflag: string)

  /** The address a college search fetches; the code is written as it
      converts to text. */
  function CollegeUrl(collegeCode: string): (url: string)
    ensures JsText.StartsWith(url, Service) && JsText.EndsWith(url, "?as_sbgi=" + collegeCode)
  {
    var url := Service + "get_json_ces_credits?as_sbgi=" + collegeCode;
    assert url[..|Service|] == Service;
    assert url[|url| - |"?as_sbgi=" + collegeCode|..] == "?as_sbgi=" + collegeCode;
    url
  }

  /** The college-search `sorter`, branch for branch: the lexicographic
      comparison on (course, title). */
  function CreditSorter(a: CreditEntry, b: CreditEntry): (r: int)
    ensures r == Sorting.KeyCompare(CreditKey(a), CreditKey(b))
  {
    var ka, kb := CreditKey(a), CreditKey(b);
    assert ka[1..] == [a.kucoursetitle] && kb[1..] == [b.kucoursetitle];
    assert ka[1..][1..] == [] && kb[1..][1..] == [];
    assert Sorting.KeyCompare(ka[1..], kb[1..])
           == if JsText.Less(a.kucoursetitle, b.kucoursetitle) then -1
              else if JsText.Less(b.kucoursetitle, a.kucoursetitle) then 1 else 0;
    if JsText.Less(a.kucourse, b.kucourse) then -1
    else if JsText.Less(b.kucourse, a.kucourse) then 1
    else if JsText.Less(a.kucoursetitle, b.kucoursetitle) then -1
    else if JsText.Less(b.kucoursetitle, a.kucoursetitle) then 1
    else 0
  }

  /** The fields the college search orders by, most significant first. */
  function CreditKey(e: CreditEntry): seq<string> {
    [e.kucourse, e.kucoursetitle]
  }

  /** The college-search `sorter` answers 0 only when both fields agree and
      flips with its arguments. */
  lemma CreditSorterOrder(a: CreditEntry, b: CreditEntry)
    ensures CreditSorter(a, b) == 0 <==> a.kucourse == b.kucourse && a.kucoursetitle == b.kucoursetitle
    ensures CreditSorter(b, a) == -CreditSorter(a, b)
  {
    var ka, kb := CreditKey(a), CreditKey(b);
    assert ka[1..][1..] == [] && kb[1..][1..] == [];
    Sorting.KeyCompareZero(ka, kb);
    Sorting.KeyCompareAntisymmetric(ka, kb);
    if ka == kb {
      assert ka[0] == kb[0] && ka[1] == kb[1];
    }
  }

  /** The entries of `s` marked transferable, in the order they come. */
  function Transferable(s: seq<CreditEntry>): seq<CreditEntry> {
    if |s| == 0 then []
    else Transferable(s[..|s| - 1]) + (if s[|s| - 1].transferableflag == "Y" then [s[|s| - 1]] else [])
  }

  /** Exactly the entries flagged "Y" survive, each as often as it came. */
  lemma {:induction false} TransferableCounts(s: seq<CreditEntry>, e: CreditEntry)
    ensures multiset(Transferable(s))[e] == if e.transferableflag == "Y" then multiset(s)[e] else 0
  {
    if |s| > 0 {
      TransferableCounts(s[..|s| - 1], e);
      assert s == s[..|s| - 1] + [s[|s| - 1]];
    }
  }

  /** Filtering keeps the sorted order. */
  lemma {:induction false} TransferableSorted(s: seq<CreditEntry>)
    requires Sorting.Sorted(s, CreditKey)
    ensures Sorting.Sorted(Transferable(s), CreditKey)
  {
    if |s| > 0 {
      var init := s[..|s| - 1];
      var last := s[|s| - 1];
      var t := Transferable(init);
      Sorting.SortedPrefix(s, |s| - 1, CreditKey);
      TransferableSorted(init);
      if last.transferableflag == "Y" {
        forall i | 0 <= i < |t|
          ensures Sorting.KeyCompare(CreditKey(t[i]), CreditKey(last)) <= 0
        {
          var k := TransferableFrom(init, i);
          assert s[k] == t[i];
        }
        Sorting.SnocSorted(t, last, CreditKey);
      }
    }
  }

  /** Each kept entry is at some position of the input. */
  lemma TransferableFrom(s: seq<CreditEntry>, i: nat) returns (k: nat)
    requires i < |Transferable(s)|
    ensures k < |s| && s[k] == Transferable(s)[i]
  {
    var t := Transferable(s);
    TransferableCounts(s, t[i]);
    assert t[i] in multiset(t);
    assert t[i] in s;
    k :| k < |s| && s[k] == t[i];
  }

  /** One more entry adds itself when it is flagged "Y" and nothing
      otherwise. */
  lemma TransferableSnoc(s: seq<CreditEntry>, n: nat)
    requires n < |s|
    ensures Transferable(s[..n + 1]) == Transferable(s[..n]) + (if s[n].transferableflag == "Y" then [s[n]] else [])
  {
    assert s[..n + 1][..n] == s[..n];
  }

  /** The course a transferable entry becomes: every text field trimmed,
      the college named by the institution with the first occurrence of the
      queried code taken out, and coded by the queried code. */
  function CollegeCourse(collegeCode: string, e: CreditEntry): (c: Course)
    ensures c.kuTitle == Some(JsText.Trim(e.kucoursetitle)) && c.kuCourseId == JsText.Trim(e.kucourse)
    ensures c.transCourseId == JsText.Trim(e.trnscrse) && c.transTitle == JsText.Trim(e.trnscrsetitle)
    ensures c.credits == Some(JsText.Trim(e.credits))
    ensures c.college.name == JsText.Trim(JsText.ReplaceFirst(e.institution, collegeCode, ""))
    ensures c.college.code == collegeCode && c.college.city.None? && c.college.state.None?
  {
    Course(Some(JsText.Trim(e.kucoursetitle)), JsText.Trim(e.kucourse), JsText.Trim(e.trnscrse),
           JsText.Trim(e.trnscrsetitle), Some(JsText.Trim(e.credits)),
           College(JsText.Trim(JsText.ReplaceFirst(e.institution, collegeCode, "")), collegeCode, None, None))
  }

  /** An institution written as the code followed by a name is named by the
      trimmed name; one that does not mention the code keeps its trimmed
      text. */
  lemma CollegeNameDropsCode(collegeCode: string, rest: string, e: CreditEntry)
    ensures e.institution == collegeCode + rest ==> CollegeCourse(collegeCode, e).college.name == JsText.Trim(rest)
    ensures JsText.Free(e.institution, collegeCode) ==>
              CollegeCourse(collegeCode, e).college.name == JsText.Trim(e.institution)
  {
    JsText.ReplaceLeading(collegeCode, rest);
    JsText.ReplaceFirstSpec(e.institution, collegeCode, "");
  }

  /** The success handler of `searchByCollege`: sort, then store a course
      for each transferable entry at the next free index. */
  method SearchByCollege(collegeCode: string, entries: seq<CreditEntry>) returns (courses: seq<Course>)
    ensures var kept := Transferable(Sorting.Sort(entries, CreditKey));
            |courses| == |kept| && forall i :: 0 <= i < |kept| ==> courses[i] == CollegeCourse(collegeCode, kept[i])
  {
    var sorted := Sorting.Sort(entries, CreditKey);
    courses := [];
    var courseCounter := 0;
    var index := 0;
    while index < |sorted|
      invariant 0 <= index <= |sorted|
      invariant courseCounter == |courses| == |Transferable(sorted[..index])|
      invariant forall k :: 0 <= k < courseCounter ==> courses[k] == CollegeCourse(collegeCode, Transferable(sorted[..index])[k])
    {
      var course := sorted[index];
      TransferableSnoc(sorted, index);
      if course.transferableflag == "Y" {
        courses := courses + [CollegeCourse(collegeCode, course)];
        courseCounter := courseCounter + 1;
      }
      index := index + 1;
    }
    assert sorted[..index] == sorted;
  }

  /** What a college search promises: the kept entries are exactly the
      transferable ones among the parsed entries, as often as they occur,
      and they stand in comparator order. */
  lemma SearchByCollegeKeeps(entries: seq<CreditEntry>, e: CreditEntry)
    ensures var kept := Transferable(Sorting.Sort(entries, CreditKey));
            multiset(kept)[e] == (if e.transferableflag == "Y" then multiset(entries)[e] else 0)
            && Sorting.Sorted(kept, CreditKey)
  {
    var sorted := Sorting.Sort(entries, CreditKey);
    Sorting.SortSpec(entries, CreditKey);
    TransferableCounts(sorted, e);
    TransferableSorted(sorted);
  }

  // ----- searchByCourseId -----

  /** An element of `transfercourses` in the answer to a course search. */
  datatype CourseEntry = CourseEntry(course_state: string, college: string, course_title: string,
                                     course: string, college_code: string, course_city: string)

  const CourseSearch: string := Service + "get_json_transferable_courses?as_state=ALL"

  const SubjectField: string := "as_subject="
  const CourseField: string := "as_course="

  /** The address a course search fetches: `&as_subject=` with the
      upper-cased subject and `&as_course=` with the number, each
      URI-encoded. */
  function CourseIdUrl(subject: string, idNumber: string): string {
    CourseSearch + "&" + (SubjectField + JsText.EncodeUriComponent(JsText.ToUpper(subject))
                          + "&" + (CourseField + JsText.EncodeUriComponent(idNumber)))
  }

  /** A query field `name=` followed by an encoded value holds no `&`. */
  lemma FieldLacksAmp(name: string, value: string)
    requires JsText.Lacks(name, '&')
    ensures JsText.Lacks(name + JsText.EncodeUriComponent(value), '&')
  {
    JsText.EncodedLacks(value, '&');
    JsText.LacksConcat(name, JsText.EncodeUriComponent(value), '&');
  }

  lemma FieldNamesLackAmp()
    ensures JsText.Lacks(SubjectField, '&') && JsText.Lacks(CourseField, '&')
  {
    forall i | 0 <= i < |SubjectField| ensures SubjectField[i] != '&' {
      assert 'a' <= SubjectField[i] <= 'z' || SubjectField[i] == '_' || SubjectField[i] == '=';
    }
    forall i | 0 <= i < |CourseField| ensures CourseField[i] != '&' {
      assert 'a' <= CourseField[i] <= 'z' || CourseField[i] == '_' || CourseField[i] == '=';
    }
  }

  /** Two `&`-free fields joined by `&` split back into themselves. */
  lemma SplitTwo(x: string, y: string)
    requires JsText.Lacks(x, '&') && JsText.Lacks(y, '&')
    ensures JsText.Split(x + "&" + y, "&") == [x, y]
  {
    var parts := [x, y];
    assert JsText.Join(parts[1..], "&") == y;
    assert JsText.Join(parts, "&") == x + "&" + y;
    JsText.SplitOfJoin(parts, "&");
  }

  lemma CourseIdUrlShape(subject: string, idNumber: string)
    ensures var url := CourseIdUrl(subject, idNumber);
            var tail := (SubjectField + JsText.EncodeUriComponent(JsText.ToUpper(subject)))
                        + "&" + (CourseField + JsText.EncodeUriComponent(idNumber));
            |url| > |CourseSearch| && url[..|CourseSearch| + 1] == CourseSearch + "&"
            && url[|CourseSearch| + 1..] == tail
  {
  }

  /** The two query values stay apart: after the fixed start of the
      address, neither encoding holds an `&`, so the query splits on `&`
      into exactly the subject field and the number field. */
  lemma CourseIdUrlFields(subject: string, idNumber: string)
    ensures var url := CourseIdUrl(subject, idNumber);
            JsText.StartsWith(url, CourseSearch + "&")
            && JsText.Split(url[|CourseSearch| + 1..], "&")
               == [SubjectField + JsText.EncodeUriComponent(JsText.ToUpper(subject)),
                   CourseField + JsText.EncodeUriComponent(idNumber)]
  {
    var s := JsText.EncodeUriComponent(JsText.ToUpper(subject));
    var n := JsText.EncodeUriComponent(idNumber);
    var x, y := SubjectField + s, CourseField + n;
    FieldNamesLackAmp();
    FieldLacksAmp(SubjectField, JsText.ToUpper(subject));
    FieldLacksAmp(CourseField, idNumber);
    CourseIdUrlShape(subject, idNumber);
    SplitTwo(x, y);
  }

  /** The course-search `sorter`, branch for branch: the lexicographic
      comparison on (state, college, title). */
  function CourseSorter(a: CourseEntry, b: CourseEntry): (r: int)
    ensures r == Sorting.KeyCompare(CourseKey(a), CourseKey(b))
  {
    var ka, kb := CourseKey(a), CourseKey(b);
    assert ka[1..] == [a.college, a.course_title] && kb[1..] == [b.college, b.course_title];
    assert ka[1..][1..] == [a.course_title] && kb[1..][1..] == [b.course_title];
    assert ka[1..][1..][1..] == [] && kb[1..][1..][1..] == [];
    assert Sorting.KeyCompare(ka[1..], kb[1..])
           == if JsText.Less(a.college, b.college) then -1
              else if JsText.Less(b.college, a.college) then 1 else Sorting.KeyCompare(ka[1..][1..], kb[1..][1..]);
    assert Sorting.KeyCompare(ka[1..][1..], kb[1..][1..])
           == if JsText.Less(a.course_title, b.course_title) then -1
              else if JsText.Less(b.course_title, a.course_title) then 1 else 0;
    if JsText.Less(a.course_state, b.course_state) then -1
    else if JsText.Less(b.course_state, a.course_state) then 1
    else if JsText.Less(a.college, b.college) then -1
    else if JsText.Less(b.college, a.college) then 1
    else if JsText.Less(a.course_title, b.course_title) then -1
    else if JsText.Less(b.course_title, a.course_title) then 1
    else 0
  }

  /** The fields the course search orders by, most significant first. */
  function CourseKey(e: CourseEntry): seq<string> {
    [e.course_state, e.college, e.course_title]
  }

  /** The course-search `sorter` answers 0 only when all three fields
      agree, and flips with its arguments. */
  lemma CourseSorterOrder(a: CourseEntry, b: CourseEntry)
    ensures CourseSorter(a, b) == 0 <==>
              a.course_state == b.course_state && a.college == b.college && a.course_title == b.course_title
    ensures CourseSorter(b, a) == -CourseSorter(a, b)
  {
    var ka, kb := CourseKey(a), CourseKey(b);
    Sorting.KeyCompareZero(ka, kb);
    Sorting.KeyCompareAntisymmetric(ka, kb);
    if ka == kb {
      assert ka[0] == kb[0] && ka[1] == kb[1] && ka[2] == kb[2];
    }
  }

  /** The course an entry becomes: the Kettering id built from the query,
      the entry's course, title and college as found. */
  function CourseIdCourse(subject: string, idNumber: string, e: CourseEntry): (c: Course)
    ensures c.kuTitle.None? && c.credits.None?
    ensures c.kuCourseId == JsText.ToUpper(subject) + "-" + idNumber
    ensures c.transCourseId == e.course && c.transTitle == e.course_title
    ensures c.college == College(e.college, e.college_code, Some(e.course_city), Some(e.course_state))
  {
    Course(None, JsText.ToUpper(subject) + "-" + idNumber, e.course, e.course_title, None,
           College(e.college, e.college_code, Some(e.course_city), Some(e.course_state)))
  }

  /** The success handler of `searchByCourseId`: sort, then one course per
      entry at the entry's index. */
  method SearchByCourseId(subject: string, idNumber: string, entries: seq<CourseEntry>) returns (courses: seq<Course>)
    ensures var sorted := Sorting.Sort(entries, CourseKey);
            |courses| == |sorted| && forall i :: 0 <= i < |sorted| ==> courses[i] == CourseIdCourse(subject, idNumber, sorted[i])
  {
    var sorted := Sorting.Sort(entries, CourseKey);
    courses := [];
    var index := 0;
    while index < |sorted|
      invariant 0 <= index <= |sorted| && |courses| == index
      invariant forall k :: 0 <= k < index ==> courses[k] == CourseIdCourse(subject, idNumber, sorted[k])
    {
      courses := courses + [CourseIdCourse(subject, idNumber, sorted[index])];
      index := index + 1;
    }
  }

  /** The (state, college, title) of a course from a course search. */
  function OutputKey(c: Course): seq<string> {
    [c.college.state.GetOr(""), c.college.name, c.transTitle]
  }

  /** What a course search promises: one course per parsed entry, all with
      the queried Kettering id, ordered by state, college and title. */
  lemma SearchByCourseIdOrdered(subject: string, idNumber: string, entries: seq<CourseEntry>, courses: seq<Course>)
    requires var sorted := Sorting.Sort(entries, CourseKey);
             |courses| == |sorted| && forall i :: 0 <= i < |sorted| ==> courses[i] == CourseIdCourse(subject, idNumber, sorted[i])
    ensures |courses| == |entries|
    ensures forall i :: 0 <= i < |courses| ==> courses[i].kuCourseId == JsText.ToUpper(subject) + "-" + idNumber
    ensures forall i, j :: 0 <= i < j < |courses| ==> Sorting.KeyCompare(OutputKey(courses[i]), OutputKey(courses[j])) <= 0
  {
    var sorted := Sorting.Sort(entries, CourseKey);
    Sorting.SortSpec(entries, CourseKey);
    forall i, j | 0 <= i < j < |courses|
      ensures Sorting.KeyCompare(OutputKey(courses[i]), OutputKey(courses[j])) <= 0
    {
      assert OutputKey(courses[i]) == CourseKey(sorted[i]);
      assert OutputKey(courses[j]) == CourseKey(sorted[j]);
    }
  }

  // ----- getColleges -----

  /** An element of `entries` in the answer to the college list. */
  datatype CollegeEntry = CollegeEntry(stvsbgi_desc: string, stvsbgi_code: string)

  /** The address of the college list. */
  const CollegesUrl: string := Service + "get_json_ces_colleges"

  /** The success handler of `getColleges`: entry i becomes the college at
      index i, named and coded by the entry. */
  method GetColleges(entries: seq<CollegeEntry>) returns (colleges: seq<College>)
    ensures |colleges| == |entries|
    ensures forall i :: 0 <= i < |entries| ==>
              colleges[i].name == entries[i].stvsbgi_desc && colleges[i].code == entries[i].stvsbgi_code
              && colleges[i].city.None? && colleges[i].state.None?
  {
    colleges := [];
    var index := 0;
    while index < |entries|
      invariant 0 <= index <= |entries| && |colleges| == index
      invariant forall k :: 0 <= k < index ==>
                  colleges[k] == College(entries[k].stvsbgi_desc, entries[k].stvsbgi_code, None, None)
    {
      colleges := colleges + [College(entries[index].stvsbgi_desc, entries[index].stvsbgi_code, None, None)];
      index := index + 1;
    }
  }
}
