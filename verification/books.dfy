/** The course-id check that `KU.Student.JWEB.retrieveRequiredBooks` makes
    before any request: `/([a-zA-Z]+)[\-\s](\d+)/` must match the id, and
    its two groups become the department and the course number. The
    pattern is written out by hand: at a start position it needs a letter,
    the longest run of letters from there, then "-" or white space, then a
    digit; the number is the longest run of digits after the separator. No
    shorter letter run can do better, as the character after any shorter
    run is a letter and so neither a separator nor a digit. */
module RequiredBooks {
  import JsText
  import opened Results

  /** The department and number a course id names. */
  datatype CourseRef = CourseRef(dept: string, number: string)

  const InvalidCourseId: string := "Please provide valid course id"

  /** `[\-\s]` */
  predicate IsSeparator(c: char) {
    c == '-' || JsText.IsSpace(c)
  }

  /** The end of the run of letters starting at `p`. */
  function LetterRunEnd(s: string, p: nat): (q: nat)
    requires p <= |s|
    ensures p <= q <= |s|
    ensures forall k :: p <= k < q ==> JsText.IsAsciiLetter(s[k])
    ensures q < |s| ==> !JsText.IsAsciiLetter(s[q])
    decreases |s| - p
  {
    if p < |s| && JsText.IsAsciiLetter(s[p]) then LetterRunEnd(s, p + 1) else p
  }

  /** The end of the run of digits starting at `p`. */
  function DigitRunEnd(s: string, p: nat): (q: nat)
    requires p <= |s|
    ensures p <= q <= |s|
    ensures forall k :: p <= k < q ==> JsText.IsDigit(s[k])
    ensures q < |s| ==> !JsText.IsDigit(s[q])
    decreases |s| - p
  {
    if p < |s| && JsText.IsDigit(s[p]) then DigitRunEnd(s, p + 1) else p
  }

  /** The pattern matches starting at `p`. */
  predicate MatchAt(s: string, p: nat) {
    p < |s| && JsText.IsAsciiLetter(s[p])
    && var q := LetterRunEnd(s, p);
       q + 1 < |s| && IsSeparator(s[q]) && JsText.IsDigit(s[q + 1])
  }

  /** The leftmost start at or after `p` where the pattern matches. */
  function MatchFrom(s: string, p: nat): (r: Option<nat>)
    requires p <= |s|
    ensures r.Some? ==> p <= r.value && MatchAt(s, r.value) && forall k :: p <= k < r.value ==> !MatchAt(s, k)
    ensures r.None? ==> forall k :: p <= k ==> !MatchAt(s, k)
    decreases |s| - p
  {
    if p == |s| then None else if MatchAt(s, p) then Some(p) else MatchFrom(s, p + 1)
  }

  /** The groups of the match that starts at `p`. */
  function GroupsAt(s: string, p: nat): CourseRef
    requires MatchAt(s, p)
  {
    var q := LetterRunEnd(s, p);
    CourseRef(s[p..q], s[q + 1..DigitRunEnd(s, q + 1)])
  }

  /** The check: the groups of the leftmost match, or the failure message
      when the id does not match at all. */
  function CheckCourseId(courseId: string): (r: Result<CourseRef>)
    ensures r.Err? <==> forall p :: !MatchAt(courseId, p)
    ensures r.Err? ==> r.error == InvalidCourseId
    ensures r.Ok? ==> r.value.dept != [] && r.value.number != []
    ensures r.Ok? ==> (forall k :: 0 <= k < |r.value.dept| ==> JsText.IsAsciiLetter(r.value.dept[k]))
                      && JsText.AllDigits(r.value.number)
  {
    match MatchFrom(courseId, 0)
    case None => Err(InvalidCourseId)
    case Some(p) => Ok(GroupsAt(courseId, p))
  }

  /** On a match the id holds the department, one separator and the
      number, starting at the leftmost position where the pattern
      matches, and the number is not followed by a further digit. */
  lemma CheckFindsGroups(courseId: string)
    requires CheckCourseId(courseId).Ok?
    ensures MatchFrom(courseId, 0).Some?
    ensures var c := CheckCourseId(courseId).value;
            var p := MatchFrom(courseId, 0).value;
            var e := p + |c.dept| + 1 + |c.number|;
            e <= |courseId|
            && courseId[p..p + |c.dept|] == c.dept
            && IsSeparator(courseId[p + |c.dept|])
            && courseId[p + |c.dept| + 1..e] == c.number
            && (e == |courseId| || !JsText.IsDigit(courseId[e]))
            && forall k :: 0 <= k < p ==> !MatchAt(courseId, k)
  {
  }

  lemma {:induction false} LetterRunOfLetters(s: string, p: nat, n: nat)
    requires p + n <= |s|
    requires forall k :: p <= k < p + n ==> JsText.IsAsciiLetter(s[k])
    requires p + n == |s| || !JsText.IsAsciiLetter(s[p + n])
    ensures LetterRunEnd(s, p) == p + n
    decreases n
  {
    if n > 0 {
      LetterRunOfLetters(s, p + 1, n - 1);
    }
  }

  lemma {:induction false} DigitRunOfDigits(s: string, p: nat, n: nat)
    requires p + n <= |s|
    requires forall k :: p <= k < p + n ==> JsText.IsDigit(s[k])
    requires p + n == |s| || !JsText.IsDigit(s[p + n])
    ensures DigitRunEnd(s, p) == p + n
    decreases n
  {
    if n > 0 {
      DigitRunOfDigits(s, p + 1, n - 1);
    }
  }

  /** An id written as a department of letters, "-" and a number of digits
      splits back into that department and number. */
  lemma CheckRoundTrip(dept: string, number: string)
    requires dept != [] && forall k :: 0 <= k < |dept| ==> JsText.IsAsciiLetter(dept[k])
    requires number != [] && JsText.AllDigits(number)
    ensures CheckCourseId(dept + "-" + number) == Ok(CourseRef(dept, number))
  {
    var s := dept + "-" + number;
    var d := |dept|;
    assert forall k :: 0 <= k < d ==> s[k] == dept[k];
    assert s[d] == '-';
    assert forall k :: d + 1 <= k < |s| ==> s[k] == number[k - d - 1];
    LetterRunOfLetters(s, 0, d);
    DigitRunOfDigits(s, d + 1, |number|);
    assert MatchAt(s, 0);
    assert s[0..d] == dept;
    assert s[d + 1..|s|] == number;
  }

  /** The documented example: "CS-101" names department "CS", number
      "101". */
  lemma CheckExample()
    ensures CheckCourseId("CS-101") == Ok(CourseRef("CS", "101"))
  {
    var dept, number := "CS", "101";
    assert JsText.IsAsciiLetter(dept[0]) && JsText.IsAsciiLetter(dept[1]);
    assert JsText.IsDigit(number[0]) && JsText.IsDigit(number[1]) && JsText.IsDigit(number[2]);
    CheckRoundTrip(dept, number);
    assert dept + "-" + number == "CS-101";
  }

  /** An id without any letter has no department and is refused. */
  lemma NoLetterRefused(courseId: string)
    requires forall k :: 0 <= k < |courseId| ==> !JsText.IsAsciiLetter(courseId[k])
    ensures CheckCourseId(courseId) == Err(InvalidCourseId)
  {
  }
}
