/** `KU.Events`: the university's events list. A result page is modelled
    as its `.views-row` elements, each reduced to the texts and attributes
    the scraper reads. The date box appears only on the first event of a
    day (`views-row-1`); the following rows of that day inherit it. */
module Events {
  import opened Results
  import JsText
  import Pages
  import Pager

  const Base: string := "http://www.kettering.edu/events"
  const Prefix: string := "http://www.kettering.edu/events?page="
  const Host: string := "http://www.kettering.edu"

  /** The address `Events.retrieve` fetches for a page. */
  function PageUrl(n: int): string {
    Pager.PagedUrl(Base, Prefix, n)
  }

  /** Different pages are fetched from different addresses, and the page
      can be read back from the address. */
  lemma PageUrlRoundTrip(n: int)
    ensures Pager.UrlPage(Base, Prefix, PageUrl(n)) == Some(n)
    ensures n == 0 ==> PageUrl(n) == Base
    ensures n != 0 ==> JsText.StartsWith(PageUrl(n), Prefix)
  {
    assert Base[|Base| - 1] == 's' && Prefix[|Base| - 1] == 's';
    assert |Prefix| > |Base|;
    Pager.PagedUrlRoundTrip(Base, Prefix, n);
  }

  /** A retrieval request: the page recorded in `page` and the address. */
  datatype Request = Request(page: int, url: string)

  /** `Events.retrieve(n)`: records `n` and fetches its address. */
  function Retrieve(n: int): (r: Request)
    ensures r.page == n && Pager.UrlPage(Base, Prefix, r.url) == Some(n)
  {
    PageUrlRoundTrip(n);
    Request(n, PageUrl(n))
  }

  /** `Events.nextPage` */
  function NextPage(page: Option<int>): (r: Request)
    ensures page.Some? ==> r.page == page.value + 1
    ensures page.None? ==> r.page == 0
    ensures r.url == PageUrl(r.page)
  {
    Retrieve(Pager.Next(page))
  }

  /** `Events.previousPage` */
  function PreviousPage(page: Option<int>): (r: Request)
    ensures r.page >= 0
    ensures page.Some? && page.value >= 1 ==> r.page == page.value - 1
    ensures page.None? || page.value < 1 ==> r.page == 0
    ensures r.url == PageUrl(r.page)
  {
    Retrieve(Pager.Previous(page))
  }

  // -----------------------------------------------------------------------
  // Month names

  /** The replacements of the month box, applied one after the other, in
      this order. May needs none; November is spelled as on the site
      scraper ("Novemeber"). */
  const MonthNames: seq<(string, string)> := [
    ("Jan", "January"), ("Feb", "February"), ("Mar", "March"), ("Apr", "April"),
    ("Jun", "June"), ("Jul", "July"), ("Aug", "August"), ("Sep", "September"),
    ("Oct", "October"), ("Nov", "Novemeber"), ("Dec", "December")]

  /** A chain of `replace` calls with string patterns. */
  function ReplaceChain(s: string, table: seq<(string, string)>): string
    decreases |table|
  {
    if |table| == 0 then s else ReplaceChain(JsText.ReplaceFirst(s, table[0].0, table[0].1), table[1..])
  }

  /** The month box after the script's eleven `replace` calls. A box that
      no abbreviation occurs in (May, or an already spelled-out name without
      one) is kept as it is. */
  function ExpandMonth(month: string): (m: string)
    ensures (forall k :: 0 <= k < |MonthNames| ==> JsText.Free(month, MonthNames[k].0)) ==> m == month
  {
    var m := JsText.ReplaceFirst(month, "Jan", "January");
    var m := JsText.ReplaceFirst(m, "Feb", "February");
    var m := JsText.ReplaceFirst(m, "Mar", "March");
    var m := JsText.ReplaceFirst(m, "Apr", "April");
    var m := JsText.ReplaceFirst(m, "Jun", "June");
    var m := JsText.ReplaceFirst(m, "Jul", "July");
    var m := JsText.ReplaceFirst(m, "Aug", "August");
    var m := JsText.ReplaceFirst(m, "Sep", "September");
    var m := JsText.ReplaceFirst(m, "Oct", "October");
    var m := JsText.ReplaceFirst(m, "Nov", "Novemeber");
    var r := JsText.ReplaceFirst(m, "Dec", "December");
    assert r == ReplaceChain(month, MonthNames);
    assert (forall k :: 0 <= k < |MonthNames| ==> JsText.Free(month, MonthNames[k].0)) ==> r == month by {
      if forall k :: 0 <= k < |MonthNames| ==> JsText.Free(month, MonthNames[k].0) {
        ReplaceChainFree(month, MonthNames);
      }
    }
    r
  }

  /** The eleven calls are the chain over `MonthNames`. */
  lemma ExpandMonthIsChain(month: string)
    ensures ExpandMonth(month) == ReplaceChain(month, MonthNames)
  {
  }

  /** A string in which no pattern of the chain occurs passes through it
      unchanged. */
  lemma {:induction false} ReplaceChainFree(s: string, table: seq<(string, string)>)
    requires forall k :: 0 <= k < |table| ==> JsText.Free(s, table[k].0)
    ensures ReplaceChain(s, table) == s
    decreases |table|
  {
    if |table| > 0 {
      JsText.ReplaceFirstSpec(s, table[0].0, table[0].1);
      assert JsText.ReplaceFirst(s, table[0].0, table[0].1) == s;
      ReplaceChainFree(s, table[1..]);
    }
  }

  /** A three-letter string is free of another one. */
  lemma FreeOfOther(s: string, pat: string)
    requires |s| == 3 && |pat| == 3 && s != pat
    ensures JsText.Free(s, pat)
  {
    assert !JsText.OccursAt(s, pat, 0) by {
      assert s[0..3] == s;
    }
  }

  /** A string shorter than the pattern is free of it. */
  lemma FreeOfLonger(s: string, pat: string)
    requires |s| < |pat|
    ensures JsText.Free(s, pat)
  {
  }

  /** Replacing a pattern in the pattern itself gives the replacement. */
  lemma ReplaceWhole(pat: string, rep: string)
    ensures JsText.ReplaceFirst(pat, pat, rep) == rep
  {
    assert JsText.OccursAt(pat, pat, 0) by {
      assert pat[0..|pat|] == pat;
    }
    JsText.ReplaceFirstSpec(pat, pat, rep);
    assert pat[..0] == "" && pat[|pat|..] == "";
  }

  /** The month box "May" stays "May". */
  lemma MayUnchanged()
    ensures ExpandMonth("May") == "May"
  {
    forall k | 0 <= k < |MonthNames|
      ensures JsText.Free("May", MonthNames[k].0)
    {
      FreeOfOther("May", MonthNames[k].0);
    }
    assert forall k :: 0 <= k < |MonthNames| ==> JsText.Free("May", MonthNames[k].0);
  }

  /** The month names of the chain come out spelled in full. */
  lemma MonthAbbreviationsExpanded()
    ensures ExpandMonth("Jan") == "January"
    ensures ExpandMonth("Sep") == "September"
    ensures ExpandMonth("Nov") == "Novemeber"
    ensures ExpandMonth("Dec") == "December"
  {
    ExpandsAt(0);
    ExpandsAt(7);
    ExpandsAt(9);
    ExpandsAt(10);
  }

  /** The abbreviation at position `k` of the chain is turned into its
      full name: no earlier pattern occurs in it, and no later pattern
      occurs in the name it becomes. */
  lemma ExpandsAt(k: nat)
    requires k < |MonthNames|
    ensures ExpandMonth(MonthNames[k].0) == MonthNames[k].1
  {
    var abbr := MonthNames[k].0;
    var full := MonthNames[k].1;
    forall j | 0 <= j < k
      ensures JsText.Free(abbr, MonthNames[j].0)
    {
      FreeOfOther(abbr, MonthNames[j].0);
    }
    ReplaceChainFree(abbr, MonthNames[..k]);
    ChainSplit(abbr, MonthNames, k);
    ReplaceWhole(abbr, full);
    forall j | k < j < |MonthNames|
      ensures JsText.Free(full, MonthNames[j].0)
    {
      FullNameFree(k, j);
    }
    ReplaceChainFree(full, MonthNames[k + 1..]);
  }

  /** Running the chain is running its first `k` steps, then step `k`,
      then the rest. */
  lemma {:induction false} ChainSplit(s: string, table: seq<(string, string)>, k: nat)
    requires k < |table|
    ensures ReplaceChain(s, table)
            == ReplaceChain(JsText.ReplaceFirst(ReplaceChain(s, table[..k]), table[k].0, table[k].1), table[k + 1..])
    decreases k
  {
    if k > 0 {
      var t := JsText.ReplaceFirst(s, table[0].0, table[0].1);
      ChainSplit(t, table[1..], k - 1);
      assert table[1..][..k - 1] == table[..k][1..];
      assert table[1..][k - 1] == table[k];
      assert table[1..][k..] == table[k + 1..];
    }
  }

  /** Only the first letter of the string is a capital. */
  predicate NoUpperAfterFirst(s: string) {
    forall i :: 1 <= i < |s| ==> !('A' <= s[i] <= 'Z')
  }

  /** Every abbreviation is three letters starting with a capital, and
      every full name starts with its abbreviation and has no further
      capital. */
  lemma NameShape(k: nat)
    requires k < |MonthNames|
    ensures |MonthNames[k].0| == 3 && 'A' <= MonthNames[k].0[0] <= 'Z'
    ensures |MonthNames[k].1| >= 3 && MonthNames[k].1[..3] == MonthNames[k].0
    ensures NoUpperAfterFirst(MonthNames[k].1)
  {
    if k == 0 {
      assert MonthNames[k] == ("Jan", "January");
      assert NoUpperAfterFirst("January") && "January"[..3] == "Jan";
    } else if k == 1 {
      assert MonthNames[k] == ("Feb", "February");
      assert NoUpperAfterFirst("February") && "February"[..3] == "Feb";
    } else if k == 2 {
      assert MonthNames[k] == ("Mar", "March");
      assert NoUpperAfterFirst("March") && "March"[..3] == "Mar";
    } else if k == 3 {
      assert MonthNames[k] == ("Apr", "April");
      assert NoUpperAfterFirst("April") && "April"[..3] == "Apr";
    } else if k == 4 {
      assert MonthNames[k] == ("Jun", "June");
      assert NoUpperAfterFirst("June") && "June"[..3] == "Jun";
    } else if k == 5 {
      assert MonthNames[k] == ("Jul", "July");
      assert NoUpperAfterFirst("July") && "July"[..3] == "Jul";
    } else if k == 6 {
      assert MonthNames[k] == ("Aug", "August");
      assert NoUpperAfterFirst("August") && "August"[..3] == "Aug";
    } else if k == 7 {
      assert MonthNames[k] == ("Sep", "September");
      assert NoUpperAfterFirst("September") && "September"[..3] == "Sep";
    } else if k == 8 {
      assert MonthNames[k] == ("Oct", "October");
      assert NoUpperAfterFirst("October") && "October"[..3] == "Oct";
    } else if k == 9 {
      assert MonthNames[k] == ("Nov", "Novemeber");
      assert NoUpperAfterFirst("Novemeber") && "Novemeber"[..3] == "Nov";
    } else {
      assert MonthNames[k] == ("Dec", "December");
      assert NoUpperAfterFirst("December") && "December"[..3] == "Dec";
    }
  }

  /** A capitalised pattern can only occur at the start of a name with no
      other capital. */
  lemma FreeOfCapitalized(full: string, pat: string)
    requires |pat| == 3 && 'A' <= pat[0] <= 'Z' && NoUpperAfterFirst(full)
    requires |full| >= 3 && full[..3] != pat
    ensures JsText.Free(full, pat)
  {
    forall i | 0 <= i <= |full|
      ensures !JsText.OccursAt(full, pat, i)
    {
      if i + 3 <= |full| {
        assert full[i..i + 3][0] == full[i];
        if i == 0 {
          assert full[0..3] == full[..3];
        }
      }
    }
  }

  /** No later abbreviation occurs in a full name. */
  lemma FullNameFree(k: nat, j: nat)
    requires k < j < |MonthNames|
    ensures JsText.Free(MonthNames[k].1, MonthNames[j].0)
  {
    NameShape(k);
    NameShape(j);
    FreeOfCapitalized(MonthNames[k].1, MonthNames[j].0);
  }

  // -----------------------------------------------------------------------
  // Captions

  /** The date box of the first event of a day. */
  datatype Day = Day(month: string, dayOfMonth: string, dayOfWeek: string)

  /** One `.views-row`: whether it carries `views-row-1`, its date box,
      title, location, the texts of its `.date-display-single` elements,
      tags, first image source and `h3 a` link. */
  datatype Row = Row(firstOfDay: bool, dateBox: Day, title: string, location: string,
                     dates: seq<string>, tags: string, firstImage: Option<string>, link: string)

  /** `KU.Events.Caption`; the day is `None` (undefined in the script) for
      rows before the first `views-row-1`. */
  datatype Caption = Caption(title: string, location: string, time: string, day: Option<Day>,
                             tags: string, imgUrl: string, detailsUrl: string)

  /** The time of an event: two date displays joined by " - " (the site
      puts the location under the time then), otherwise the first, or ""
      when there is none. */
  function Time(dates: seq<string>): (r: string)
    ensures |dates| == 2 ==> r == dates[0] + " - " + dates[1]
    ensures |dates| != 2 && |dates| > 0 ==> r == dates[0]
    ensures |dates| == 0 ==> r == ""
  {
    if |dates| == 2 then dates[0] + " - " + dates[1]
    else if |dates| > 0 then dates[0]
    else ""
  }

  /** A two-display time splits back into its displays at its first
      " - ", as long as the first display holds no " - " of its own. */
  lemma {:induction false} TimeSplitsAtFirstDash(a: string, b: string)
    requires JsText.Free(a + " -", " - ")
    ensures var t := Time([a, b]);
            JsText.IndexOf(t, " - ") == Some(|a|) && t[..|a|] == a && t[|a| + 3..] == b
  {
    var t := Time([a, b]);
    assert t == a + " - " + b;
    assert JsText.OccursAt(t, " - ", |a|) by {
      assert t[|a|..|a| + 3] == " - ";
    }
    forall j | 0 <= j < |a|
      ensures !JsText.OccursAt(t, " - ", j)
    {
      assert !JsText.OccursAt(a + " -", " - ", j);
      assert t[j..j + 3] == (a + " -")[j..j + 3];
    }
    assert JsText.IndexOf(t, " - ") == Some(|a|);
    assert t[..|a|] == a;
    assert t[|a| + 3..] == b;
  }

  /** The date box a row updates the carried day with. */
  function DayOf(row: Row): Day {
    Day(ExpandMonth(row.dateBox.month), row.dateBox.dayOfMonth, row.dateBox.dayOfWeek)
  }

  /** The last row before index `n` that starts a day (reference
      definition of the carried day). */
  function LastMarked(rows: seq<Row>, n: nat): (r: Option<nat>)
    requires n <= |rows|
    ensures r.Some? ==> r.value < n
  {
    if n == 0 then None
    else if rows[n - 1].firstOfDay then Some(n - 1)
    else LastMarked(rows, n - 1)
  }

  /** `LastMarked` finds the last row before `n` that starts a day, and
      none when no such row exists. */
  lemma {:induction false} LastMarkedIsLast(rows: seq<Row>, n: nat)
    requires n <= |rows|
    ensures var r := LastMarked(rows, n);
            && (r.Some? ==> rows[r.value].firstOfDay && forall k :: r.value < k < n ==> !rows[k].firstOfDay)
            && (r.None? ==> forall k :: 0 <= k < n ==> !rows[k].firstOfDay)
  {
    if n > 0 && !rows[n - 1].firstOfDay {
      LastMarkedIsLast(rows, n - 1);
    }
  }

  /** The day carried after the first `n` rows. */
  function CarriedDay(rows: seq<Row>, n: nat): Option<Day>
    requires n <= |rows|
  {
    match LastMarked(rows, n)
    case None => None
    case Some(j) => Some(DayOf(rows[j]))
  }

  /** The day shown with the row at index `i`: that of the last row up to
      and including it that starts a day. */
  function DayAt(rows: seq<Row>, i: nat): Option<Day>
    requires i < |rows|
  {
    CarriedDay(rows, i + 1)
  }

  /** One more row moves the carried day on when it starts a day. */
  lemma CarriedStep(rows: seq<Row>, i: nat)
    requires i < |rows|
    ensures CarriedDay(rows, i + 1) == if rows[i].firstOfDay then Some(DayOf(rows[i])) else CarriedDay(rows, i)
  {
  }

  function CaptionOf(row: Row, day: Option<Day>): Caption {
    Caption(row.title, row.location, Time(row.dates), day, row.tags,
            Pages.ImageSource(row.firstImage, "", Host), row.link)
  }

  /** The success handler of `Events.retrieve`: one caption per row, at the
      row's index, carrying the most recent date box forward. */
  method Captions(rows: seq<Row>) returns (events: seq<Caption>)
    ensures |events| == |rows|
    ensures forall i {:trigger events[i]} :: 0 <= i < |rows| ==> events[i] == CaptionOf(rows[i], DayAt(rows, i))
  {
    events := [];
    var recent: Option<Day> := None;
    var i := 0;
    while i < |rows|
      invariant 0 <= i <= |rows| && |events| == i
      invariant recent == CarriedDay(rows, i)
      invariant forall k {:trigger events[k]} :: 0 <= k < i ==> events[k] == CaptionOf(rows[k], DayAt(rows, k))
    {
      var row := rows[i];
      if row.firstOfDay {
        recent := Some(DayOf(row));
      }
      CarriedStep(rows, i);
      ghost var before := events;
      events := events + [CaptionOf(row, recent)];
      assert forall k :: 0 <= k < i ==> events[k] == before[k];
      i := i + 1;
    }
  }

  /** A row that starts a day shows its own date box; any other row shows
      the same day as the row before it, and a row before the first
      `views-row-1` shows none. */
  lemma DayCarriedForward(rows: seq<Row>, i: nat)
    requires i < |rows|
    ensures rows[i].firstOfDay ==> DayAt(rows, i) == Some(DayOf(rows[i]))
    ensures !rows[i].firstOfDay && i > 0 ==> DayAt(rows, i) == DayAt(rows, i - 1)
    ensures !rows[i].firstOfDay && i == 0 ==> DayAt(rows, i) == None
  {
  }

  /** Every row from one that starts a day up to the next one shows that
      day. */
  lemma DayHolds(rows: seq<Row>, j: nat, i: nat)
    requires j <= i < |rows| && rows[j].firstOfDay
    requires forall k :: j < k <= i ==> !rows[k].firstOfDay
    ensures DayAt(rows, i) == Some(DayOf(rows[j]))
  {
    LastMarkedIsLast(rows, i + 1);
  }
}
