/** `KU.News`: the news list. A result page is modelled as its
    `.news-caption` elements, each reduced to the texts and attributes the
    scraper reads. */
module News {
  import opened Results
  import JsText
  import Pages
  import Pager

  const Base: string := "http://news.kettering.edu/news/current-news"
  const Prefix: string := "http://news.kettering.edu/news/current-news?page="
  const Host: string := "http://news.kettering.edu"

  /** The address `News.retrieve` fetches for a page. */
  function PageUrl(n: int): string {
    Pager.PagedUrl(Base, Prefix, n)
  }

  /** The page can be read back from the address; page 0 is the plain
      list. */
  lemma PageUrlRoundTrip(n: int)
    ensures Pager.UrlPage(Base, Prefix, PageUrl(n)) == Some(n)
    ensures n == 0 ==> PageUrl(n) == Base
    ensures n != 0 ==> JsText.StartsWith(PageUrl(n), Prefix)
  {
    assert |Prefix| > |Base|;
    Pager.PagedUrlRoundTrip(Base, Prefix, n);
  }

  datatype Request = Request(page: int, url: string)

  /** `News.retrieve(n)`: records `n` and fetches its address. */
  function Retrieve(n: int): (r: Request)
    ensures r.page == n && Pager.UrlPage(Base, Prefix, r.url) == Some(n)
  {
    PageUrlRoundTrip(n);
    Request(n, PageUrl(n))
  }

  /** `News.nextPage` */
  function NextPage(page: Option<int>): (r: Request)
    ensures page.Some? ==> r.page == page.value + 1
    ensures page.None? ==> r.page == 0
    ensures r.url == PageUrl(r.page)
  {
    Retrieve(Pager.Next(page))
  }

  /** `News.previousPage` */
  function PreviousPage(page: Option<int>): (r: Request)
    ensures r.page >= 0
    ensures page.Some? && page.value >= 1 ==> r.page == page.value - 1
    ensures page.None? || page.value < 1 ==> r.page == 0
    ensures r.url == PageUrl(r.page)
  {
    Retrieve(Pager.Previous(page))
  }

  /** One `.news-caption`: the first image's `src` if there is an image, the
      `h3`, `.info .by` and `.info .date` texts and the `.more` link. */
  datatype Item = Item(firstImage: Option<string>, title: string, byline: string, date: string, link: string)

  /** `KU.News.Caption` */
  datatype Caption = Caption(title: string, byline: string, date: string, imgUrl: string, articleUrl: string)

  /** The caption of one item: its texts and link as found, and its image
      made absolute on the news host ("" when it has no image). */
  function CaptionOf(item: Item): (c: Caption)
    ensures c.title == item.title && c.byline == item.byline && c.date == item.date && c.articleUrl == item.link
    ensures item.firstImage.None? ==> c.imgUrl == ""
    ensures item.firstImage.Some? && JsText.StartsWith(item.firstImage.value, "/")
            ==> c.imgUrl == Host + item.firstImage.value
    ensures item.firstImage.Some? && !JsText.StartsWith(item.firstImage.value, "/")
            ==> c.imgUrl == item.firstImage.value
  {
    Caption(item.title, item.byline, item.date, Pages.ImageSource(item.firstImage, "", Host), item.link)
  }

  /** The success handler of `News.retrieve`: `newsList[index]` for every
      caption element, so one caption per item at the item's index. */
  method Captions(items: seq<Item>) returns (news: seq<Caption>)
    ensures |news| == |items|
    ensures forall i :: 0 <= i < |items| ==> news[i] == CaptionOf(items[i])
  {
    news := [];
    var index := 0;
    while index < |items|
      invariant 0 <= index <= |items| && |news| == index
      invariant forall k :: 0 <= k < index ==> news[k] == CaptionOf(items[k])
    {
      news := news + [CaptionOf(items[index])];
      index := index + 1;
    }
  }

  /** Every item with an image keeps that image's source as the tail of
      its stored address; at most the host is put in front of it. */
  lemma ImagesKeepSource(items: seq<Item>, news: seq<Caption>, i: nat)
    requires |news| == |items| && i < |items|
    requires forall k :: 0 <= k < |items| ==> news[k] == CaptionOf(items[k])
    requires items[i].firstImage.Some?
    ensures JsText.EndsWith(news[i].imgUrl, items[i].firstImage.value)
  {
    Pages.AbsolutizeKeepsSource(Host, items[i].firstImage.value);
  }
}
