/** Pieces shared by the scrapers of the directory, events and news pages. */
module Pages {
  import opened Results

  /** Turns a site-relative image source (one that starts with `/`) into an
      absolute address on `host`; any other source is kept as it is. */
  function Absolutize(host: string, src: string): string {
    if |src| > 0 && src[0] == '/' then host + src else src
  }

  /** The `src` of an element's first image, or `fallback` when it holds no
      image, made absolute on `host`. */
  function ImageSource(firstImage: Option<string>, fallback: string, host: string): string {
    Absolutize(host, firstImage.GetOr(fallback))
  }

  /** An absolutized source always ends with the original source, and is
      longer than it exactly when it was site-relative. */
  lemma AbsolutizeKeepsSource(host: string, src: string)
    ensures |Absolutize(host, src)| >= |src|
    ensures Absolutize(host, src)[|Absolutize(host, src)| - |src|..] == src
    ensures |host| > 0 ==> (|Absolutize(host, src)| > |src| <==> (|src| > 0 && src[0] == '/'))
  {
  }
}
