/** `KU.Directory`: searching the faculty/staff directory. The model covers
    the de-obfuscation of e-mail details, the turning of one result page
    (already split into its `.directory-caption` elements) into contacts,
    and the search state (`searchParams` and whether a request is in
    flight) with the paging built on it. */
module Directory {
  import opened Results
  import JsText
  import Pages

  // -----------------------------------------------------------------------
  // Deobfuscate

  /** The letters and digits in the order of the `aZ` table. */
  function Alphabet(first: char, n: nat): (r: string)
    requires first as int + n <= 0x80
    ensures |r| == n
    ensures forall i :: 0 <= i < n ==> r[i] as int == first as int + i
  {
    seq(n, i requires 0 <= i < n => (first as int + i) as char)
  }

  const Upper: string := Alphabet('A', 26)
  const Lower: string := Alphabet('a', 26)
  const Digits: string := Alphabet('0', 10)

  /** `aZ`: "ABC…Zabc…z0123456789". */
  const Plain: string := Upper + Lower + Digits

  /** `nM`: "NOP…ZABC…M" then "nop…zabc…m" then the digits. */
  const Rotated: string := Upper[13..] + Upper[..13] + Lower[13..] + Lower[..13] + Digits

  /** The two tables spell the source's literals at their ends and turning
      points. */
  lemma TablesAsWritten()
    ensures |Plain| == 62 && |Rotated| == 62
    ensures Plain[0] == 'A' && Plain[25] == 'Z' && Plain[26] == 'a' && Plain[51] == 'z'
    ensures Plain[52] == '0' && Plain[61] == '9'
    ensures Rotated[0] == 'N' && Rotated[12] == 'Z' && Rotated[13] == 'A' && Rotated[25] == 'M'
    ensures Rotated[26] == 'n' && Rotated[38] == 'z' && Rotated[39] == 'a' && Rotated[51] == 'm'
    ensures Rotated[52] == '0' && Rotated[61] == '9'
  {
  }

  /** The map built from the tables: the character at an index of `aZ`
      becomes the character at that index of `nM`; a character outside
      `aZ` is not a key and is copied. */
  function MapChar(c: char): char {
    match JsText.IndexOf(Plain, [c])
    case Some(i) => Rotated[i]
    case None => c
  }

  /** ROT13 on the ASCII letters (reference definition). */
  function Rot13(c: char): char {
    if 'A' <= c <= 'Z' then ('A' as int + (c as int - 'A' as int + 13) % 26) as char
    else if 'a' <= c <= 'z' then ('a' as int + (c as int - 'a' as int + 13) % 26) as char
    else c
  }

  /** The character at index `j` of `aZ` and of `nM`, by code point. */
  lemma TableAt(j: nat)
    requires j < 62
    ensures Plain[j] as int == (if j < 26 then 'A' as int + j
                                else if j < 52 then 'a' as int + (j - 26)
                                else '0' as int + (j - 52))
    ensures Rotated[j] as int == (if j < 13 then 'A' as int + j + 13
                                  else if j < 26 then 'A' as int + j - 13
                                  else if j < 39 then 'a' as int + (j - 26) + 13
                                  else if j < 52 then 'a' as int + (j - 26) - 13
                                  else '0' as int + (j - 52))
  {
    if j < 26 {
      assert Plain[j] == Upper[j];
    } else if j < 52 {
      assert Plain[j] == Lower[j - 26];
    } else {
      assert Plain[j] == Digits[j - 52];
    }
    if j < 13 {
      assert Rotated[j] == Upper[j + 13];
    } else if j < 26 {
      assert Rotated[j] == Upper[j - 13];
    } else if j < 39 {
      assert Rotated[j] == Lower[j - 26 + 13];
    } else if j < 52 {
      assert Rotated[j] == Lower[j - 26 - 13];
    } else {
      assert Rotated[j] == Digits[j - 52];
    }
  }

  /** `c` is found in `aZ` at index `i` when it stands there. */
  lemma PlainIndex(c: char, i: nat)
    requires i < 62 && Plain[i] == c
    ensures JsText.IndexOf(Plain, [c]) == Some(i)
  {
    assert JsText.OccursAt(Plain, [c], i) by {
      assert Plain[i..i + 1] == [c];
    }
    var k := JsText.IndexOf(Plain, [c]);
    var j := k.value;
    assert Plain[j..j + 1] == [c];
    assert Plain[j] == c;
    TableAt(i);
    TableAt(j);
  }

  /** Only letters and digits are keys of the map. */
  lemma OnlyLettersAndDigits(c: char)
    ensures JsText.IndexOf(Plain, [c]).Some? ==> JsText.IsAsciiLetter(c) || JsText.IsDigit(c)
  {
    var k := JsText.IndexOf(Plain, [c]);
    if k.Some? {
      assert Plain[k.value..k.value + 1] == [c];
      assert Plain[k.value] == c;
      TableAt(k.value);
    }
  }

  /** The table lookup is ROT13: it rotates A–Z and a–z by 13 places and
      leaves digits and every other character unchanged. */
  lemma MapCharIsRot13(c: char)
    ensures MapChar(c) == Rot13(c)
  {
    if 'A' <= c <= 'Z' {
      UpperRot(c);
    } else if 'a' <= c <= 'z' {
      LowerRot(c);
    } else if '0' <= c <= '9' {
      var i := 52 + c as int - '0' as int;
      TableAt(i);
      PlainIndex(c, i);
    } else {
      OnlyLettersAndDigits(c);
    }
  }

  lemma UpperRot(c: char)
    requires 'A' <= c <= 'Z'
    ensures MapChar(c) == Rot13(c)
  {
    var i := c as int - 'A' as int;
    TableAt(i);
    PlainIndex(c, i);
    assert (i + 13) % 26 == if i < 13 then i + 13 else i - 13;
  }

  lemma LowerRot(c: char)
    requires 'a' <= c <= 'z'
    ensures MapChar(c) == Rot13(c)
  {
    var i := 26 + c as int - 'a' as int;
    TableAt(i);
    PlainIndex(c, i);
    assert (i - 26 + 13) % 26 == if i < 39 then i - 26 + 13 else i - 26 - 13;
  }

  /** `Deobfuscate(message)`: every character looked up in the map. The
      loop's extra step past the end reads `charAt(length)`, the empty
      string, whose entry (`map[""] = ""`, from the same off-by-one in the
      table loop) appends nothing. */
  function Deobfuscate(message: string): (r: string)
    ensures |r| == |message|
    ensures forall i :: 0 <= i < |message| ==> r[i] == Rot13(message[i])
  {
    var r := seq(|message|, i requires 0 <= i < |message| => MapChar(message[i]));
    assert forall i :: 0 <= i < |message| ==> r[i] == Rot13(message[i]) by {
      forall i | 0 <= i < |message| {
        MapCharIsRot13(message[i]);
      }
    }
    r
  }

  lemma Rot13Involution(c: char)
    ensures Rot13(Rot13(c)) == c
  {
  }

  /** Deobfuscating twice gives back the message. */
  lemma DeobfuscateInvolution(message: string)
    ensures Deobfuscate(Deobfuscate(message)) == message
  {
    var once := Deobfuscate(message);
    var twice := Deobfuscate(once);
    forall i | 0 <= i < |message|
      ensures twice[i] == message[i]
    {
      Rot13Involution(message[i]);
    }
  }

  // -----------------------------------------------------------------------
  // Contact details

  /** One `.inside span` of a caption: its own text (children removed) and
      the markup facts the scraper tests. */
  datatype Span = Span(text: string, obfuscated: bool, bold: bool, hasTel: bool)

  /** `KU.Directory.Contact.Info` */
  datatype Info = Info(message: string, weight: string)

  /** `KU.Directory.Contact` */
  datatype Contact = Contact(fullName: string, info: seq<Info>, imgUrl: string)

  /** One `.directory-caption` element: the `h3` text, the first image's
      `src` if there is an image, and its detail spans. */
  datatype Caption = Caption(name: string, firstImage: Option<string>, spans: seq<Span>)

  /** An obfuscated detail is stored reversed and ROT13-encoded: its text
      read backwards, each character rotated. */
  function DetailText(sp: Span): (d: string)
    ensures |d| == |sp.text|
    ensures !sp.obfuscated ==> d == sp.text
    ensures sp.obfuscated ==> forall i :: 0 <= i < |d| ==> d[i] == Rot13(sp.text[|sp.text| - 1 - i])
  {
    if sp.obfuscated then Deobfuscate(JsText.Reverse(sp.text)) else sp.text
  }

  /** The detail survives the filter: not blank once white space is
      removed, and not holding a `.tel` element. */
  predicate Kept(sp: Span) {
    !(JsText.RemoveSpace(DetailText(sp)) == "" || sp.hasTel)
  }

  function InfoOf(sp: Span): Info {
    Info(DetailText(sp), if sp.bold then "bold" else "")
  }

  /** The kept details in order (reference definition). */
  function KeptInfo(spans: seq<Span>): seq<Info> {
    if |spans| == 0 then []
    else (if Kept(spans[0]) then [InfoOf(spans[0])] else []) + KeptInfo(spans[1..])
  }

  /** The number of kept details. */
  function KeptCount(spans: seq<Span>): nat {
    if |spans| == 0 then 0 else (if Kept(spans[0]) then 1 else 0) + KeptCount(spans[1..])
  }

  /** `KeptInfo` taken apart at index `i`. */
  lemma KeptInfoAt(spans: seq<Span>, i: nat)
    requires i < |spans|
    ensures KeptInfo(spans[i..]) == (if Kept(spans[i]) then [InfoOf(spans[i])] else []) + KeptInfo(spans[i + 1..])
  {
    assert spans[i..][1..] == spans[i + 1..];
  }

  /** The span loop of `Directory.search`: `info[counter++]` stores each kept
      detail at the next free index, so the array is dense and keeps the
      page order. */
  method GatherInfo(spans: seq<Span>) returns (info: seq<Info>)
    ensures info == KeptInfo(spans)
    ensures |info| == KeptCount(spans)
  {
    info := [];
    var counter := 0;
    var i := 0;
    while i < |spans|
      invariant 0 <= i <= |spans|
      invariant counter == |info| == KeptCount(spans[..i])
      invariant info + KeptInfo(spans[i..]) == KeptInfo(spans)
    {
      var span := spans[i];
      GatherStep(spans, i, info);
      KeptCountSnoc(spans, i);
      var detail := DetailText(span);
      if !(JsText.RemoveSpace(detail) == "" || span.hasTel) {
        info := info + [Info(detail, if span.bold then "bold" else "")];
        counter := counter + 1;
      }
      i := i + 1;
    }
    assert spans[..|spans|] == spans;
  }

  /** Storing the detail at `i` when it is kept, and nothing otherwise,
      keeps the stored details followed by those still to come equal to all
      the kept details. */
  lemma GatherStep(spans: seq<Span>, i: nat, info: seq<Info>)
    requires i < |spans| && info + KeptInfo(spans[i..]) == KeptInfo(spans)
    ensures (if Kept(spans[i]) then info + [InfoOf(spans[i])] else info) + KeptInfo(spans[i + 1..]) == KeptInfo(spans)
  {
    KeptInfoAt(spans, i);
    var rest := KeptInfo(spans[i + 1..]);
    if Kept(spans[i]) {
      assert info + ([InfoOf(spans[i])] + rest) == (info + [InfoOf(spans[i])]) + rest;
    } else {
      assert [] + rest == rest;
    }
  }

  lemma KeptCountSnoc(spans: seq<Span>, i: nat)
    requires i < |spans|
    ensures KeptCount(spans[..i + 1]) == KeptCount(spans[..i]) + (if Kept(spans[i]) then 1 else 0)
  {
    KeptCountAppend(spans[..i], [spans[i]]);
    assert spans[..i + 1] == spans[..i] + [spans[i]];
  }

  lemma {:induction false} KeptCountAppend(a: seq<Span>, b: seq<Span>)
    ensures KeptCount(a + b) == KeptCount(a) + KeptCount(b)
    decreases |a|
  {
    if |a| == 0 {
      assert a + b == b;
    } else {
      assert (a + b)[0] == a[0] && (a + b)[1..] == a[1..] + b;
      KeptCountAppend(a[1..], b);
    }
  }

  /** Every stored detail is non-blank and weighted "bold" or "", every
      kept span is stored, and nothing is dropped when every span is
      kept. */
  lemma {:induction false} KeptInfoSound(spans: seq<Span>)
    ensures |KeptInfo(spans)| == KeptCount(spans) <= |spans|
    ensures forall k :: 0 <= k < |KeptInfo(spans)| ==>
              JsText.RemoveSpace(KeptInfo(spans)[k].message) != ""
              && (KeptInfo(spans)[k].weight == "bold" || KeptInfo(spans)[k].weight == "")
    ensures forall j :: 0 <= j < |spans| && Kept(spans[j]) ==> InfoOf(spans[j]) in KeptInfo(spans)
    ensures (forall j :: 0 <= j < |spans| ==> Kept(spans[j])) ==> KeptCount(spans) == |spans|
  {
    if |spans| > 0 {
      KeptInfoSound(spans[1..]);
      var head := if Kept(spans[0]) then [InfoOf(spans[0])] else [];
      assert KeptInfo(spans) == head + KeptInfo(spans[1..]);
      forall j | 0 <= j < |spans| && Kept(spans[j])
        ensures InfoOf(spans[j]) in KeptInfo(spans)
      {
        if j > 0 {
          assert spans[1..][j - 1] == spans[j];
        }
      }
    }
  }

  /** ROT13 maps white space to white space and nothing else to it. */
  lemma Rot13Space(c: char)
    ensures JsText.IsSpace(Rot13(c)) <==> JsText.IsSpace(c)
  {
  }

  /** Obfuscation does not change whether a detail is blank: it is blank
      after decoding exactly when its raw text is all white space. */
  lemma BlankIffRawBlank(sp: Span)
    ensures JsText.RemoveSpace(DetailText(sp)) == "" <==> JsText.AllSpace(sp.text)
  {
    var d := DetailText(sp);
    JsText.RemoveSpaceEmptyIff(d);
    if sp.obfuscated {
      var rev := JsText.Reverse(sp.text);
      assert d == Deobfuscate(rev);
      forall i | 0 <= i < |rev|
        ensures JsText.IsSpace(d[i]) <==> JsText.IsSpace(sp.text[|sp.text| - 1 - i])
      {
        Rot13Space(rev[i]);
      }
      if JsText.AllSpace(d) {
        forall i | 0 <= i < |sp.text|
          ensures JsText.IsSpace(sp.text[i])
        {
          var m := |sp.text| - 1 - i;
          assert JsText.IsSpace(d[m]);
        }
      }
    }
  }

  const DirectoryHost: string := "http://my.kettering.edu"
  const DefaultIcon: string := "images/default_directory_icon.jpg"

  /** The contact built from one caption. */
  function ContactOf(c: Caption): (r: Contact)
    ensures r.fullName == c.name
    ensures r.info == KeptInfo(c.spans)
    ensures c.firstImage.None? ==> r.imgUrl == DefaultIcon
    ensures c.firstImage.Some? && |c.firstImage.value| > 0 && c.firstImage.value[0] == '/'
            ==> r.imgUrl == DirectoryHost + c.firstImage.value
    ensures c.firstImage.Some? && !(|c.firstImage.value| > 0 && c.firstImage.value[0] == '/')
            ==> r.imgUrl == c.firstImage.value
  {
    Contact(c.name, KeptInfo(c.spans), Pages.ImageSource(c.firstImage, DefaultIcon, DirectoryHost))
  }

  /** The success callback's `contacts`: one contact per caption, at the
      caption's index. */
  function Contacts(page: seq<Caption>): (r: seq<Contact>)
    ensures |r| == |page|
    ensures forall i :: 0 <= i < |page| ==> r[i] == ContactOf(page[i])
  {
    seq(|page|, i requires 0 <= i < |page| => ContactOf(page[i]))
  }

  // -----------------------------------------------------------------------
  // Search state and paging

  /** The private `searchParams` object. */
  datatype Params = Params(page: int, firstName: string, lastName: string, ext: string, departmentId: string)

  /** The module's private variables: `searchParams` and whether
      `latestSearch` holds a request in flight. */
  datatype State = State(searchParams: Option<Params>, searching: bool)

  const Initial: State := State(None, false)

  /** What a call hands back: a failure message, the success callback
      called at once with `[]`, or a request sent to `url`. */
  datatype Outcome = Failed(message: string) | NoResults | Requested(url: string)

  datatype Step = Step(state: State, outcome: Outcome)

  const BusyMessage: string := "One search is already occurring. Please cancel first."
  const NoNextMessage: string := "Please search before you attempt to get Next Page"
  const NoPreviousMessage: string := "Please search before you attempt to get Previous Page"

  /** The request URL; the page parameter is the literal "0" followed by
      the decimal page number. */
  function SearchUrl(p: Params): string {
    "http://my.kettering.edu/faculty-staff/directory?"
    + "field_faculty_staff_first_value=" + JsText.EncodeUriComponent(p.firstName)
    + "&field_faculty_staff_last_value=" + JsText.EncodeUriComponent(p.lastName)
    + "&field_phone_extension_value=" + p.ext + "&tid=" + p.departmentId
    + "&page=0" + JsText.IntToString(p.page)
  }

  /** The URL ends in `&page=0` followed by the page number, and different
      pages of the same query have different URLs. */
  lemma SearchUrlPage(p: Params, q: Params)
    ensures JsText.EndsWith(SearchUrl(p), "&page=0" + JsText.IntToString(p.page))
    ensures p.page != q.page && p.(page := 0) == q.(page := 0) ==> SearchUrl(p) != SearchUrl(q)
  {
    var base := SearchUrl(p.(page := 0));
    var head := base[..|base| - 1];
    assert SearchUrl(p) == head + JsText.IntToString(p.page);
    if p.page != q.page && p.(page := 0) == q.(page := 0) {
      assert SearchUrl(q) == head + JsText.IntToString(q.page);
      if SearchUrl(p) == SearchUrl(q) {
        assert JsText.IntToString(p.page) == SearchUrl(p)[|head|..];
        assert JsText.IntToString(q.page) == SearchUrl(q)[|head|..];
        JsText.IntToStringInjective(p.page, q.page);
      }
    }
  }

  /** `Directory.search`: refused while another search is in flight,
      leaving the state alone; otherwise the parameters are recorded
      (page defaulting to 0) and the request is sent. */
  function Search(st: State, firstName: string, lastName: string, ext: string,
                  departmentId: string, page: Option<int>): (r: Step)
    ensures st.searching ==> r == Step(st, Failed(BusyMessage))
    ensures !st.searching ==>
              && r.state.searching
              && r.state.searchParams == Some(Params(page.GetOr(0), firstName, lastName, ext, departmentId))
              && r.outcome == Requested(SearchUrl(r.state.searchParams.value))
  {
    if st.searching then Step(st, Failed(BusyMessage))
    else
      var p := Params(page.GetOr(0), firstName, lastName, ext, departmentId);
      Step(State(Some(p), true), Requested(SearchUrl(p)))
  }

  /** The request completed (success or error callback): `latestSearch`
      is cleared and the recorded parameters stay. */
  function Complete(st: State): (r: State)
    ensures !r.searching && r.searchParams == st.searchParams
  {
    st.(searching := false)
  }

  /** `Directory.abort` */
  function Abort(st: State): (r: State)
    ensures !r.searching && r.searchParams == st.searchParams
    ensures !st.searching ==> r == st
  {
    if st.searching then st.(searching := false) else st
  }

  /** `Directory.nextPage`: fails before any search; otherwise searches
      the recorded query one page further on. */
  function NextPage(st: State): (r: Step)
    ensures st.searchParams.None? ==> r == Step(st, Failed(NoNextMessage))
    ensures st.searchParams.Some? && !st.searching ==>
              && r.state.searching
              && r.state.searchParams == Some(st.searchParams.value.(page := st.searchParams.value.page + 1))
              && r.outcome == Requested(SearchUrl(r.state.searchParams.value))
    ensures st.searchParams.Some? && st.searching ==> r == Step(st, Failed(BusyMessage))
  {
    match st.searchParams
    case None => Step(st, Failed(NoNextMessage))
    case Some(p) => Search(st, p.firstName, p.lastName, p.ext, p.departmentId, Some(p.page + 1))
  }

  /** `Directory.previousPage`: fails before any search; at page 0 hands
      back no contacts without searching; otherwise searches one page
      back, which is refused while another search is in flight. */
  function PreviousPage(st: State): (r: Step)
    ensures st.searchParams.None? ==> r == Step(st, Failed(NoPreviousMessage))
    ensures st.searchParams.Some? && st.searchParams.value.page - 1 < 0 ==> r == Step(st, NoResults)
    ensures st.searchParams.Some? && st.searchParams.value.page >= 1 && !st.searching ==>
              && r.state.searching
              && r.state.searchParams == Some(st.searchParams.value.(page := st.searchParams.value.page - 1))
              && r.outcome == Requested(SearchUrl(r.state.searchParams.value))
    ensures st.searchParams.Some? && st.searchParams.value.page >= 1 && st.searching ==>
              r == Step(st, Failed(BusyMessage))
  {
    match st.searchParams
    case None => Step(st, Failed(NoPreviousMessage))
    case Some(p) =>
      if p.page - 1 < 0 then Step(st, NoResults)
      else Search(st, p.firstName, p.lastName, p.ext, p.departmentId, Some(p.page - 1))
  }

  /** Going one page on and, once that request has completed, one page
      back requests the page the search started from again. */
  lemma NextThenPrevious(st: State)
    requires st.searchParams.Some? && !st.searching && st.searchParams.value.page >= 0
    ensures var back := PreviousPage(Complete(NextPage(st).state));
            back.state.searchParams == st.searchParams
            && back.outcome == Requested(SearchUrl(st.searchParams.value))
  {
  }

  /** Paging never leaves page 0 for a negative page. */
  lemma PagesStayNonNegative(st: State)
    requires st.searchParams.Some? ==> st.searchParams.value.page >= 0
    ensures var r := PreviousPage(st);
            r.state.searchParams.Some? ==> r.state.searchParams.value.page >= 0
    ensures var r := NextPage(st);
            r.state.searchParams.Some? ==> r.state.searchParams.value.page >= 0
  {
  }
}
