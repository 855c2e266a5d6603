/** The page bookkeeping shared by `KU.Events`, `KU.News` and
    `KU.Announcements`: each keeps a private `page` number (null until the
    first retrieval), asks for page 0 under the plain list address and for
    any other page under `?page=n`. */
module Pager {
  import opened Results
  import JsText

  /** `nextPage`: page 0 before any retrieval, otherwise one page further
      on. */
  function Next(page: Option<int>): (r: int)
    ensures page.None? ==> r == 0
    ensures page.Some? ==> r == page.value + 1
  {
    match page
    case None => 0
    case Some(p) => p + 1
  }

  /** `previousPage`: page 0 before any retrieval or when one page back
      would be negative, otherwise one page back. */
  function Previous(page: Option<int>): (r: int)
    ensures r >= 0
    ensures page.Some? && page.value >= 1 ==> r == page.value - 1
    ensures page.None? || page.value < 1 ==> r == 0
  {
    match page
    case None => 0
    case Some(p) => if p - 1 < 0 then 0 else p - 1
  }

  /** Going one page on and then one page back returns to a non-negative
      page; going back from page 1 or later and then on returns to it too. */
  lemma NextPreviousInverse(p: int)
    ensures p >= 0 ==> Previous(Some(Next(Some(p)))) == p
    ensures p >= 1 ==> Next(Some(Previous(Some(p)))) == p
    ensures p < 1 ==> Next(Some(Previous(Some(p)))) == 1
  {
  }

  /** The address of page `n` of a list: `base` for page 0, otherwise
      `prefix` followed by the number. */
  function PagedUrl(base: string, prefix: string, n: int): string {
    if n != 0 then prefix + JsText.IntToString(n) else base
  }

  /** The page an address of the list asks for (partner of `PagedUrl`). */
  function UrlPage(base: string, prefix: string, url: string): Option<int> {
    if url == base then Some(0)
    else if JsText.StartsWith(url, prefix) then JsText.ParseInt(url[|prefix|..])
    else None
  }

  /** The page can be read back from the address, so different pages are
      fetched from different addresses. */
  lemma PagedUrlRoundTrip(base: string, prefix: string, n: int)
    requires !JsText.StartsWith(base, prefix)
    ensures UrlPage(base, prefix, PagedUrl(base, prefix, n)) == Some(n)
  {
    if n != 0 {
      var url := PagedUrl(base, prefix, n);
      assert url[..|prefix|] == prefix;
      assert url != base;
      assert url[|prefix|..] == JsText.IntToString(n);
      JsText.IntToStringRoundTrip(n);
    }
  }

  lemma PagedUrlInjective(base: string, prefix: string, m: int, n: int)
    requires !JsText.StartsWith(base, prefix)
    requires PagedUrl(base, prefix, m) == PagedUrl(base, prefix, n)
    ensures m == n
  {
    PagedUrlRoundTrip(base, prefix, m);
    PagedUrlRoundTrip(base, prefix, n);
  }
}
