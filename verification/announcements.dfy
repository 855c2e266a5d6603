/** `KU.Announcements`: the announcements list. A result page is modelled
    as its `.views-row` elements; each element is the sequence of its
    parts, a heading being a part that is an `h3`. */
module Announcements {
  import opened Results
  import JsText
  import Pager

  const Base: string := "http://my.kettering.edu/announcements/"
  const Prefix: string := "http://my.kettering.edu/announcements?page="

  /** The address `Announcements.retrieve` fetches for a page. */
  function PageUrl(n: int): string {
    Pager.PagedUrl(Base, Prefix, n)
  }

  /** The page can be read back from the address; page 0 is the plain
      list, with its trailing slash. */
  lemma PageUrlRoundTrip(n: int)
    ensures Pager.UrlPage(Base, Prefix, PageUrl(n)) == Some(n)
    ensures n == 0 ==> PageUrl(n) == Base
    ensures n != 0 ==> JsText.StartsWith(PageUrl(n), Prefix)
  {
    assert Base[|Base| - 1] == '/' && Prefix[|Base| - 1] == '?';
    Pager.PagedUrlRoundTrip(Base, Prefix, n);
  }

  datatype Request = Request(page: int, url: string)

  /** `Announcements.retrieve(n)`: records `n` and fetches its address. */
  function Retrieve(n: int): (r: Request)
    ensures r.page == n && Pager.UrlPage(Base, Prefix, r.url) == Some(n)
  {
    PageUrlRoundTrip(n);
    Request(n, PageUrl(n))
  }

  /** `Announcements.nextPage` */
  function NextPage(page: Option<int>): (r: Request)
    ensures page.Some? ==> r.page == page.value + 1
    ensures page.None? ==> r.page == 0
    ensures r.url == PageUrl(r.page)
  {
    Retrieve(Pager.Next(page))
  }

  /** `Announcements.previousPage` */
  function PreviousPage(page: Option<int>): (r: Request)
    ensures r.page >= 0
    ensures page.Some? && page.value >= 1 ==> r.page == page.value - 1
    ensures page.None? || page.value < 1 ==> r.page == 0
    ensures r.url == PageUrl(r.page)
  {
    Retrieve(Pager.Previous(page))
  }

  /** A part of an announcement: an `h3` with its text and markup, or any
      other markup. */
  datatype Part = Heading(text: string, markup: string) | Other(markup: string)

  /** `KU.Announcements.Caption` */
  datatype Caption = Caption(title: string, mainHtml: string)

  /** The index of the first heading, if there is one. */
  function FirstHeading(parts: seq<Part>): (r: Option<nat>)
    ensures r.Some? ==> r.value < |parts| && parts[r.value].Heading?
                        && forall k :: 0 <= k < r.value ==> !parts[k].Heading?
    ensures r.None? ==> forall k :: 0 <= k < |parts| ==> !parts[k].Heading?
  {
    if |parts| == 0 then None
    else if parts[0].Heading? then Some(0)
    else match FirstHeading(parts[1..])
         case None => None
         case Some(i) => Some(i + 1)
  }

  /** The markup of a sequence of parts. */
  function Html(parts: seq<Part>): string {
    if |parts| == 0 then "" else parts[0].markup + Html(parts[1..])
  }

  lemma {:induction false} HtmlAppend(a: seq<Part>, b: seq<Part>)
    ensures Html(a + b) == Html(a) + Html(b)
    decreases |a|
  {
    if |a| == 0 {
      assert a + b == b;
    } else {
      assert (a + b)[0] == a[0] && (a + b)[1..] == a[1..] + b;
      HtmlAppend(a[1..], b);
    }
  }

  /** The caption of one element: the first heading's text as the title
      ("" without one), and the element's markup with that heading removed. */
  function CaptionOf(parts: seq<Part>): Caption {
    match FirstHeading(parts)
    case None => Caption("", Html(parts))
    case Some(i) => Caption(parts[i].text, Html(parts[..i]) + Html(parts[i + 1..]))
  }

  /** Putting the removed heading back where it stood restores the
      element's markup; an element without a heading keeps all of it. */
  lemma CaptionKeepsRest(parts: seq<Part>)
    ensures FirstHeading(parts).None? ==> CaptionOf(parts) == Caption("", Html(parts))
    ensures FirstHeading(parts).Some? ==>
              var i := FirstHeading(parts).value;
              Html(parts[..i]) + parts[i].markup + Html(parts[i + 1..]) == Html(parts)
              && CaptionOf(parts).title == parts[i].text
              && CaptionOf(parts).mainHtml == Html(parts[..i]) + Html(parts[i + 1..])
  {
    match FirstHeading(parts)
    case None =>
    case Some(i) =>
      SpliceHtml(parts, i);
  }

  /** The markup of parts is the markup before any one part, that part's
      markup and the markup after it. */
  lemma SpliceHtml(parts: seq<Part>, i: nat)
    requires i < |parts|
    ensures Html(parts[..i]) + parts[i].markup + Html(parts[i + 1..]) == Html(parts)
  {
    HtmlSplitAt(parts, i);
    HtmlAtHead(parts, i);
    var a, m, c := Html(parts[..i]), parts[i].markup, Html(parts[i + 1..]);
    assert a + (m + c) == a + m + c;
  }

  lemma HtmlSplitAt(parts: seq<Part>, i: nat)
    requires i <= |parts|
    ensures Html(parts) == Html(parts[..i]) + Html(parts[i..])
  {
    assert parts == parts[..i] + parts[i..];
    HtmlAppend(parts[..i], parts[i..]);
  }

  lemma HtmlAtHead(parts: seq<Part>, i: nat)
    requires i < |parts|
    ensures Html(parts[i..]) == parts[i].markup + Html(parts[i + 1..])
  {
    assert parts[i..][0] == parts[i] && parts[i..][1..] == parts[i + 1..];
  }

  /** The success handler of `Announcements.retrieve`: one caption per
      element, at the element's index. */
  method Captions(rows: seq<seq<Part>>) returns (list: seq<Caption>)
    ensures |list| == |rows|
    ensures forall i :: 0 <= i < |rows| ==> list[i] == CaptionOf(rows[i])
  {
    list := [];
    var index := 0;
    while index < |rows|
      invariant 0 <= index <= |rows| && |list| == index
      invariant forall k :: 0 <= k < index ==> list[k] == CaptionOf(rows[k])
    {
      list := list + [CaptionOf(rows[index])];
      index := index + 1;
    }
  }
}
