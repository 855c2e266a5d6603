/** `KU.Library`: the library catalogue search. A result page is modelled
    as its `.hit_list_row` elements, each reduced to the texts it holds
    and the text of its cover script, and the form action of the hit list. */
module Library {
  import opened Results
  import JsText

  // -----------------------------------------------------------------------
  // Search options

  /** `KU.Library.SearchOption` */
  datatype SearchOption = SearchOption(valueId: string, name: string)

  /** `LIBRARY_OPTIONS`, in the order `getSearchOptions` hands them out. */
  const Options: seq<SearchOption> := [
    SearchOption("GENERAL^SUBJECT^GENERAL^^words or phrase", "Words or Phrase"),
    SearchOption("AU^AUTHOR^AUTHORS^Author Processing^author", "Author"),
    SearchOption("TI^TITLE^SERIES^Title Processing^title", "Title"),
    SearchOption("SU^SUBJECT^SUBJECTS^^subject", "Subject"),
    SearchOption("SER^SERIES^SERIES^Title Processing^series", "Series"),
    SearchOption("PER^PERTITLE^SERIES^Title Processing^periodical title", "Periodical")]

  /** `Library.getSearchOptions`: the six options, named in their declared
      order, with pairwise different ids and names. */
  function GetSearchOptions(): (r: seq<SearchOption>)
    ensures |r| == 6
    ensures r[0].name == "Words or Phrase" && r[1].name == "Author" && r[2].name == "Title"
            && r[3].name == "Subject" && r[4].name == "Series" && r[5].name == "Periodical"
    ensures forall i, j :: 0 <= i < j < |r| ==> r[i].valueId != r[j].valueId && r[i].name != r[j].name
  {
    Options
  }

  // -----------------------------------------------------------------------
  // Requests and the search state

  /** The private `searchParams` object: the hit list's form action, the
      query and the page shown. */
  datatype Params = Params(action: string, field: string, searchOptionId: string, page: int)

  /** `searchParams`, and whether `latestSearch` holds a request. */
  datatype State = State(searchParams: Option<Params>, searching: bool)

  /** A request: its address, and the page, words and option of the
      `search` call that sent it, which its success handler records. */
  datatype Request = Request(url: string, page: int, field: string, searchOptionId: string)

  /** The results are shown twenty to a page; page `n` starts at hit
      `20n + 1`. */
  const PageSize: nat := 20

  function FirstHit(page: int): int {
    page * PageSize + 1
  }

  /** The first hit of a page determines the page, and the next page starts
      twenty hits later. */
  lemma FirstHitInverse(page: int)
    ensures (FirstHit(page) - 1) / PageSize == page && (FirstHit(page) - 1) % PageSize == 0
    ensures FirstHit(page + 1) == FirstHit(page) + PageSize
    ensures page >= 0 ==> FirstHit(page) >= 1
  {
  }

  const PlainUrlStart: string :=
    "http://elibrary.palnet.info/uhtbin/cgisirsi/x/0/0/57/5?library=KU&location=KUMAIN&match_on=KEYWORD&shadow=NO&user_id=kuweb&srchfield1="

  /** The address of a first search: the option and the words, each
      percent-encoded. */
  function PlainUrl(field: string, searchOptionId: string): string {
    PlainUrlStart + JsText.EncodeUriComponent(searchOptionId)
    + "&searchdata1=" + JsText.EncodeUriComponent(field)
  }

  /** The address of a page jump inside a session: the stored form action
      and the number of the page's first hit. */
  function JumpUrl(p: Params): string {
    "http://catalog.palnet.info" + p.action + "?firsthit=&lasthit=&form_type=JUMP%5E"
    + JsText.IntToString(FirstHit(p.page))
  }

  /** `Library.search`: with stored parameters it jumps to their page,
      otherwise it starts at page 0. There is no guard against a search in
      flight; the new request replaces `latestSearch`. */
  function Search(st: State, field: string, searchOptionId: string, params: Option<Params>): (r: (State, Request))
    ensures r.0.searching && r.0.searchParams == st.searchParams
    ensures params.None? ==> r.1 == Request(PlainUrl(field, searchOptionId), 0, field, searchOptionId)
    ensures params.Some? ==> r.1 == Request(JumpUrl(params.value), params.value.page, field, searchOptionId)
  {
    var req := match params
      case None => Request(PlainUrl(field, searchOptionId), 0, field, searchOptionId)
      case Some(p) => Request(JumpUrl(p), p.page, field, searchOptionId);
    (st.(searching := true), req)
  }

  /** The success handler records the hit list's action with the words,
      option and page of the request, and clears `latestSearch`. */
  function Succeeded(st: State, req: Request, action: string): (r: State)
    ensures !r.searching
    ensures r.searchParams == Some(Params(action, req.field, req.searchOptionId, req.page))
  {
    State(Some(Params(action, req.field, req.searchOptionId, req.page)), false)
  }

  /** The error handler clears `latestSearch` and keeps the parameters. */
  function Failed(st: State): (r: State)
    ensures !r.searching && r.searchParams == st.searchParams
  {
    st.(searching := false)
  }

  /** `Library.abort` */
  function Abort(st: State): (r: State)
    ensures !r.searching && r.searchParams == st.searchParams
    ensures !st.searching ==> r == st
  {
    if st.searching then st.(searching := false) else st
  }

  /** The failure of `nextPage` before any search: `searchParams.page++` on
      null throws a `TypeError`. Its message depends on the JavaScript
      engine; this constant stands for the thrown error. */
  const NoSearchError: string := "TypeError: searchParams is null"

  /** `Library.nextPage`: increments the stored page in place, before the
      request is answered, and searches with the stored parameters. */
  function NextPage(st: State): (r: Result<(State, Request)>)
    ensures st.searchParams.None? ==> r == Err(NoSearchError)
    ensures st.searchParams.Some? ==>
              var p := st.searchParams.value;
              && r.Ok?
              && r.value.0.searchParams == Some(p.(page := p.page + 1))
              && r.value.1 == Request(JumpUrl(p.(page := p.page + 1)), p.page + 1, p.field, p.searchOptionId)
  {
    match st.searchParams
    case None => Err(NoSearchError)
    case Some(p) =>
      var bumped := p.(page := p.page + 1);
      var st' := st.(searchParams := Some(bumped));
      Ok(Search(st', bumped.field, bumped.searchOptionId, Some(bumped)))
  }

  /** A page jump after a successful page asks for the hits just after the
      twenty shown, in the same session. */
  lemma NextPageJumpsTwenty(st: State, req: Request, action: string)
    ensures var after := Succeeded(st, req, action);
            var next := NextPage(after);
            && next.Ok?
            && next.value.1.page == req.page + 1
            && next.value.1 == Request(JumpUrl(Params(action, req.field, req.searchOptionId, req.page + 1)),
                                       req.page + 1, req.field, req.searchOptionId)
            && FirstHit(next.value.1.page) == FirstHit(req.page) + PageSize
  {
  }

  /** The page recorded after a successful search counts the `nextPage`
      calls made since the first search. */
  lemma {:induction false} NextPagesCount(st: State, n: nat)
    requires st.searchParams.Some?
    ensures NextPages(st, n).searchParams.Some?
    ensures NextPages(st, n).searchParams.value == st.searchParams.value.(page := st.searchParams.value.page + n)
    decreases n
  {
    if n > 0 {
      var p := st.searchParams.value;
      var step := NextPage(st).value;
      var after := Succeeded(step.0, step.1, p.action);
      NextPagesCount(after, n - 1);
    }
  }

  /** `n` successive `nextPage` calls, each answered with the same action. */
  function NextPages(st: State, n: nat): State
    requires st.searchParams.Some?
    decreases n
  {
    if n == 0 then st
    else
      var p := st.searchParams.value;
      var step := NextPage(st).value;
      var after := Succeeded(step.0, step.1, p.action);
      NextPages(after, n - 1)
  }

  // -----------------------------------------------------------------------
  // Cover images

  /** The removal of `/,.+/g`: from every comma that has at least one
      following character on its line, up to the end of that line. */
  function StripCommaTail(s: string): (r: string)
    ensures |r| <= |s|
    decreases |s|
  {
    if |s| == 0 then ""
    else if s[0] == ',' && |s| >= 2 && !JsText.IsLineTerminator(s[1]) then StripCommaTail(s[LineEnd(s, 1)..])
    else [s[0]] + StripCommaTail(s[1..])
  }

  /** The index of the first line terminator at or after `from`, or the end
      of `s`: where `.+` stops. */
  function LineEnd(s: string, from: nat): (r: nat)
    requires from <= |s|
    ensures from <= r <= |s|
    ensures forall k :: from <= k < r ==> !JsText.IsLineTerminator(s[k])
    ensures r < |s| ==> JsText.IsLineTerminator(s[r])
    decreases |s| - from
  {
    if from == |s| || JsText.IsLineTerminator(s[from]) then from else LineEnd(s, from + 1)
  }

  /** The first comma that is not the last character, or the length. */
  function CommaCut(s: string): (r: nat)
    ensures r <= |s|
    ensures forall j :: 0 <= j < r ==> !(s[j] == ',' && j + 1 < |s|)
    ensures r < |s| ==> s[r] == ',' && r + 1 < |s|
  {
    if |s| == 0 then 0
    else if s[0] == ',' && |s| >= 2 then 0
    else 1 + CommaCut(s[1..])
  }

  /** On a single line (as in a cover script, whose white space has been
      removed) the regular expression cuts the string at its first comma
      that has a character after it; a lone trailing comma stays. */
  lemma {:induction false} StripSingleLine(s: string)
    requires forall i :: 0 <= i < |s| ==> !JsText.IsLineTerminator(s[i])
    ensures StripCommaTail(s) == s[..CommaCut(s)]
    decreases |s|
  {
    if |s| > 0 {
      if s[0] == ',' && |s| >= 2 {
        assert LineEnd(s, 1) == |s|;
        assert s[|s|..] == "";
      } else {
        StripSingleLine(s[1..]);
        assert s[..CommaCut(s)] == [s[0]] + s[1..][..CommaCut(s[1..])];
      }
    }
  }

  /** The cover script text with white space removed and the call around
      its arguments taken off. */
  function CleanScript(text: string): string {
    var t := JsText.RemoveSpace(text);
    var t := JsText.ReplaceFirst(t, "getHitCover('", "");
    JsText.ReplaceFirst(t, "');", "")
  }

  /** The image address assembled from the eight cover arguments. */
  function CoverFromArgs(args: seq<string>): string
    requires |args| == 8
  {
    args[0] + "isbn=" + StripCommaTail(args[2]) + "/SC.GIF" + "&client=" + args[1]
    + "&type=xw12&upc=&oclc=" + StripCommaTail(args[4])
  }

  /** The cover of a hit: "" without a cover script or when the script
      does not hold exactly eight arguments; any other cover is an address
      assembled from eight arguments. */
  function Cover(script: Option<string>): (url: string)
    ensures script.None? ==> url == ""
    ensures url == "" || exists args: seq<string> :: |args| == 8 && url == CoverFromArgs(args)
  {
    match script
    case None => ""
    case Some(text) =>
      var args := JsText.Split(CleanScript(text), "','");
      if |args| == 8 then CoverFromArgs(args) else ""
  }

  /** The script the catalogue writes for a cover. */
  function ScriptFor(args: seq<string>): string {
    "getHitCover('" + (JsText.Join(args, "','") + "');")
  }

  predicate NoSpace(s: string) {
    forall i :: 0 <= i < |s| ==> !JsText.IsSpace(s[i])
  }

  lemma {:induction false} RemoveSpaceNoSpace(s: string)
    requires NoSpace(s)
    ensures JsText.RemoveSpace(s) == s
  {
    if |s| > 0 {
      RemoveSpaceNoSpace(s[1..]);
      assert s == [s[0]] + s[1..];
    }
  }

  lemma {:induction false} JoinNoSpace(parts: seq<string>, sep: string)
    requires NoSpace(sep) && forall k :: 0 <= k < |parts| ==> NoSpace(parts[k])
    ensures NoSpace(JsText.Join(parts, sep))
    decreases |parts|
  {
    if |parts| > 1 {
      JoinNoSpace(parts[1..], sep);
      var rest := JsText.Join(parts[1..], sep);
      var s := parts[0] + sep + rest;
      forall i | 0 <= i < |s| ensures !JsText.IsSpace(s[i]) {
        if i < |parts[0]| {
          assert s[i] == parts[0][i];
        } else if i < |parts[0]| + |sep| {
          assert s[i] == sep[i - |parts[0]|];
        } else {
          assert s[i] == rest[i - |parts[0]| - |sep|];
        }
      }
    }
  }

  /** Taking off the closing `');` with `replace` when the arguments hold
      none. */
  lemma ReplaceClosing(body: string)
    requires JsText.Free(body, "');")
    ensures JsText.ReplaceFirst(body + "');", "');", "") == body
  {
    var s := body + "');";
    var n := |body|;
    assert JsText.OccursAt(s, "');", n) by {
      assert s[n..n + 3] == "');";
    }
    forall j | 0 <= j < n
      ensures !JsText.OccursAt(s, "');", j)
    {
      if j + 3 <= n {
        assert s[j..j + 3] == body[j..j + 3];
        assert !JsText.OccursAt(body, "');", j);
      } else if j == n - 1 {
        assert s[j + 1] == '\'';
        assert s[j..j + 3][1] == s[j + 1];
      } else {
        assert s[j + 2] == '\'';
        assert s[j..j + 3][2] == s[j + 2];
      }
    }
    JsText.ReplaceFirstSpec(s, "');", "");
    assert s[..n] + "" + s[n + 3..] == body;
  }

  /** A script made of arguments without white space has none. */
  lemma ScriptNoSpace(args: seq<string>)
    requires forall k :: 0 <= k < |args| ==> NoSpace(args[k])
    ensures NoSpace(ScriptFor(args))
  {
    var body := JsText.Join(args, "','");
    JoinNoSpace(args, "','");
    var open, close := "getHitCover('", "');";
    var script := ScriptFor(args);
    assert script == open + body + close;
    forall i | 0 <= i < |script| ensures !JsText.IsSpace(script[i]) {
      if i < |open| {
        assert script[i] == open[i];
      } else if i < |open| + |body| {
        assert script[i] == body[i - |open|];
      } else {
        assert script[i] == close[i - |open| - |body|];
      }
    }
  }

  /** Removing white space from such a script changes nothing. */
  lemma ScriptUnspaced(args: seq<string>)
    requires forall k :: 0 <= k < |args| ==> NoSpace(args[k])
    ensures JsText.RemoveSpace(ScriptFor(args)) == ScriptFor(args)
  {
    ScriptNoSpace(args);
    RemoveSpaceNoSpace(ScriptFor(args));
  }

  /** Cleaning a well-formed script leaves the argument list. */
  lemma CleanOfScript(args: seq<string>)
    requires forall k :: 0 <= k < |args| ==> NoSpace(args[k])
    requires JsText.Free(JsText.Join(args, "','"), "');")
    ensures CleanScript(ScriptFor(args)) == JsText.Join(args, "','")
  {
    var body := JsText.Join(args, "','");
    ScriptUnspaced(args);
    Unwrap(ScriptFor(args), body);
  }

  /** The two `replace` calls of the cleaning take the call apart. */
  lemma Unwrap(text: string, body: string)
    requires JsText.RemoveSpace(text) == text
    requires text == "getHitCover('" + (body + "');")
    requires JsText.Free(body, "');")
    ensures CleanScript(text) == body
  {
    JsText.ReplaceLeading("getHitCover('", body + "');");
    ReplaceClosing(body);
  }

  /** For a well-formed cover script, the parsing recovers the eight
      arguments and builds the address from them. The arguments may hold
      no white space and no quote, and their list no `');`. */
  lemma CoverOfScript(args: seq<string>)
    requires |args| == 8
    requires forall k :: 0 <= k < 8 ==> NoSpace(args[k]) && JsText.Lacks(args[k], '\'')
    requires JsText.Free(JsText.Join(args, "','"), "');")
    ensures Cover(Some(ScriptFor(args))) == CoverFromArgs(args)
  {
    CleanOfScript(args);
    JsText.SplitOfJoin(args, "','");
  }

  /** A script whose arguments do not number eight gives no cover. */
  lemma CoverNeedsEightArgs(text: string)
    requires |JsText.Split(CleanScript(text), "','")| != 8
    ensures Cover(Some(text)) == ""
  {
  }

  // -----------------------------------------------------------------------
  // Books

  /** One `.hit_list_row`: the texts of its first `.title`, `.author`,
      `.call_number` and `.holdings_statement` elements, and its cover
      script's text if it has one. */
  datatype Hit = Hit(title: string, author: string, callNumber: string, holdings: string, coverScript: Option<string>)

  /** `KU.Library.Book` */
  datatype Book = Book(title: string, author: string, callNumber: string, holdings: string, imgUrl: string)

  /** The book of one hit: the texts trimmed, the cover parsed. */
  function BookOf(hit: Hit): (b: Book)
    ensures b.title == JsText.Trim(hit.title) && b.author == JsText.Trim(hit.author)
    ensures b.callNumber == JsText.Trim(hit.callNumber) && b.holdings == JsText.Trim(hit.holdings)
    ensures b.imgUrl == Cover(hit.coverScript)
  {
    Book(JsText.Trim(hit.title), JsText.Trim(hit.author), JsText.Trim(hit.callNumber),
         JsText.Trim(hit.holdings), Cover(hit.coverScript))
  }

  /** The success handler's `books`: one book per hit, at the hit's index. */
  method Books(hits: seq<Hit>) returns (books: seq<Book>)
    ensures |books| == |hits|
    ensures forall i :: 0 <= i < |hits| ==> books[i] == BookOf(hits[i])
  {
    books := [];
    var index := 0;
    while index < |hits|
      invariant 0 <= index <= |hits| && |books| == index
      invariant forall k {:trigger books[k]} :: 0 <= k < index ==> books[k] == BookOf(hits[k])
    {
      books := books + [BookOf(hits[index])];
      index := index + 1;
    }
  }

  /** The book texts carry no surrounding white space, and trimming them
      again changes nothing. */
  lemma BookTextsTrimmed(hit: Hit)
    ensures JsText.Trim(BookOf(hit).title) == BookOf(hit).title
    ensures JsText.Trim(BookOf(hit).holdings) == BookOf(hit).holdings
  {
    JsText.TrimIdempotent(hit.title);
    JsText.TrimIdempotent(hit.holdings);
  }
}
