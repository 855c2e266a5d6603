# KetteringJS, modelled in Dafny

KetteringJS is a browser library that scrapes the web sites of Kettering
University. It covers the directory, transfer credits, events, news,
announcements, the library catalogue and the student web portal. A Python
script concatenates its modules into one bundle. This project models two
things:

- the bundler, `build_JS.py`;
- the decision logic inside each scraper, once the downloaded page has been
  reduced to plain records.

In those records a page is the rows of its data tables, and each row holds
its `th` texts and its `td` cells. A JSON answer is its list of entries.

The modules follow the source files:

| module | file | models |
|---|---|---|
| `Bundler` | `bundler.dfy` | `build_JS.py`: the core copy, the `.js` filter, the `"\n"` separator and the header-skipping counter |
| `Directory` | `directory.dfy` | `KU.Directory`: `Deobfuscate`, the detail filter, the image fix, the single-search guard, `nextPage`/`previousPage` |
| `Transfer` | `transfer.dfy` | `KU.Transfer`: the two `sorter`s, `sort`, the `transferableflag` filter, the three result mappings |
| `Sorting` | `sorting.dfy` | the order the `sorter`s define, and a stable sort with its permutation and sortedness proofs |
| `Pager` | `pager.dfy` | the page counter shared by events, news and announcements, and the page-0 URL choice |
| `Events`, `News`, `Announcements` | `events.dfy`, `news.dfy`, `announcements.dfy` | `retrieve`, `nextPage`, `previousPage` and the caption builders |
| `Pages` | `pages.dfy` | the site-relative image fix shared by three scrapers |
| `Library` | `library.dfy` | `KU.Library`: the search options, the jump-page arithmetic, `nextPage` and the cover-address builder |
| `StudentRows` | `rows.dfy` | the row records every `KU.Student.JWEB` scraper reads, and how a scraper answers |
| `StudentAccount` | `account.dfy` | `retrieveAccountSummary`: the entry totals and the emission of terms |
| `StudentCatalog` | `catalog.dfy` | `retrieveScheduleCatalog`: how a section carries forward |
| `StudentAwards` | `awards.dfy` | `retrieveAwardHistory`: which rows are selected, one year per table |
| `StudentEvaluation` | `evaluation.dfy` | `retrieveEvaluation`: the overview, the special-course queue, name fallback and area emission |
| `StudentStatus` | `studentinfo.dfy` | `retrieveStudentInfo`: the credit and program rows, and repeated fields joined with `", "` |
| `RequiredBooks` | `books.dfy` | `retrieveRequiredBooks`: the course-id check before any request |
| `JsText` | `jstext.dfy` | the JavaScript string built-ins that the scrapers call |
| `Results` | `results.dfy` | `Option` and `Result` |

Each walk over rows is modelled twice. The first version follows the loop
branch for branch, and a lemma ties it to a reference reading of the rows:
"the last row of this kind", "the entries of these rows", "the section named
most recently".

The month table in `js/events.js` expands `"Nov"` to `"Novemeber"`. The
model keeps that spelling, and `Events.MonthAbbreviationsExpanded` states
it.

`Directory.search` inserts the literal `0` in front of the page number
(`&page=0` + page). The model keeps that too.

## Model

| member | source | states |
|---|---|---|
| Bundler.BuildBundle | build_JS.py:22-50 | The written lines are the reference bundle: the core file's lines first, unchanged and in order, then each candidate's contribution. |
| Bundler.CopyAfterHeader | build_JS.py:41-50 | The counting loop writes exactly the lines numbered 17 and later, which is the body of the file. |
| Bundler.CopyCountedDropsHeader | build_JS.py:44-50 | Starting from any counter value, the copy drops just the lines the counter has not yet passed, and keeps the rest verbatim. |
| Bundler.CopyCountedIsBody | build_JS.py:41-50 | Starting from counter 0, the copy equals the file without its first 16 lines. |
| Bundler.CoreFirst | build_JS.py:25-29 | The bundle starts with every line of the core file, in order. |
| Bundler.OutputTextStartsWithCore | build_JS.py:25-29 | The text of the bundle starts with the text of the core file. |
| Bundler.ShortCandidate | build_JS.py:11 | A candidate with at most 16 lines contributes the separator alone. A longer one contributes the separator and then its lines from index 16 on. |
| Bundler.OtherExtensionIgnored | build_JS.py:36 | An entry whose name does not end in `.js` contributes nothing. |
| Bundler.CoreEntryIgnored | build_JS.py:36 | The entry named `KetteringJS-Core.js` contributes nothing, so the core is never emitted twice. |
| Bundler.NonCandidateIgnored | build_JS.py:36 | Removing a non-candidate from anywhere in the listing leaves the bundle unchanged. |
| Bundler.ListingOrder | build_JS.py:32-39 | A candidate's contribution sits in the bundle between the contributions of the entries listed before it and those listed after it. |
| Bundler.ContributionsAppend | build_JS.py:32 | The contributions of two concatenated listings are the two contributions concatenated. |
| Bundler.ContributionsAround | build_JS.py:32 | The contributions of a listing split around any one entry. |
| Bundler.ContributionsAreCandidates | build_JS.py:32-50 | The contributions are `"\n"` followed by the body, once for each candidate, in listing order, and nothing else. |
| Bundler.BundleIsCoreThenCandidates | build_JS.py:22-50 | The bundle is the core followed by `"\n"` plus the body of each candidate, in listing order. |
| Bundler.Candidates | build_JS.py:36 | The selected entries are all candidates and are no more than the listing. |
| Bundler.ContributionsSize | build_JS.py:39-50 | The contributions have exactly the sum, over candidates, of 1 plus the body's length lines. |
| Bundler.BundleSize | build_JS.py:22-50 | The bundle's size is the core's size plus that sum. |
| Bundler.TextAppend | build_JS.py:29 | Writing two runs of lines one after the other writes their concatenated text. |
| Pages.AbsolutizeKeepsSource | js/news.js:294-296 | The fixed image address ends with the original source. With a non-empty host it is longer than the source exactly when the source starts with `/`. |
| Directory.Alphabet | js/directory.js:43-44 | A run of consecutive characters of the requested length, each code point one above the previous. |
| Directory.TablesAsWritten | js/directory.js:43-44 | `aZ` and `nM` are 62 characters long, and their letter and digit blocks sit where the source writes them. |
| Directory.TableAt | js/directory.js:43-44 | Gives the code point at every index of `aZ` and of `nM`. |
| Directory.PlainIndex | js/directory.js:49 | The key a character is stored under is its first (and only) index in `aZ`. |
| Directory.OnlyLettersAndDigits | js/directory.js:49-54 | Only ASCII letters and digits are keys of the map. Every other character passes through unchanged. |
| Directory.MapCharIsRot13 | js/directory.js:49-54 | The table lookup agrees with ROT13 on every character: letters rotate by 13 within their case, and everything else is unchanged. |
| Directory.Deobfuscate | js/directory.js:41-59 | The output has the input's length, and each character is the ROT13 of the input character at the same index. |
| Directory.Rot13Involution | js/directory.js:43-44 | Rotating a character twice gives it back. |
| Directory.DeobfuscateInvolution | js/directory.js:41-59 | Deobfuscating twice returns the original message. |
| Directory.Rot13Space | js/directory.js:300-310 | A rotated character is white space exactly when the original is. |
| Directory.BlankIffRawBlank | js/directory.js:297-310 | A detail counts as blank after reversing and decoding exactly when its raw text is all white space. |
| Directory.KeptInfoAt | js/directory.js:286-316 | The kept details of a suffix are the first span's detail, if it is kept, followed by those of the rest. |
| Directory.GatherInfo | js/directory.js:283-316 | The loop stores exactly the kept details, densely and in span order. Their count equals the number of kept spans. |
| Directory.KeptCountSnoc | js/directory.js:310-314 | The counter grows by one exactly at a kept span. |
| Directory.KeptCountAppend | js/directory.js:310-314 | The count of kept spans adds up over concatenated span lists. |
| Directory.KeptInfoSound | js/directory.js:297-314 | At most one detail is stored per span. Every stored detail is non-blank and weighted `"bold"` or `""`. Every kept span's detail is among them, and when all spans are kept, all are stored. |
| Directory.DetailText | js/directory.js:296-306 | A detail keeps its length. A plain detail is its own text. An obfuscated one is its text read backwards with every character ROT13-rotated. |
| Directory.ContactOf | js/directory.js:270-318 | A contact carries the `h3` name, the kept details, and the image: the default icon when there is no image, the directory host prefixed to a source that starts with `/`, and any other source unchanged. |
| Directory.Contacts | js/directory.js:268-321 | There is one contact per caption, at the caption's index. |
| Directory.SearchUrlPage | js/directory.js:248-252 | The URL ends with `&page=0` followed by the page number, so two pages of the same query have different URLs. |
| Directory.Search | js/directory.js:225-253 | While a search is in flight, a new search fails with the busy message and changes nothing. Otherwise it records the parameters, with the page defaulting to 0, marks a search in flight and requests the URL of those parameters. |
| Directory.Complete | js/directory.js:323-338 | An answer clears the in-flight flag and keeps the parameters. |
| Directory.Abort | js/directory.js:186-194 | An abort clears the in-flight flag and keeps the parameters; with no search in flight it changes nothing. |
| Directory.NextPage | js/directory.js:370-385 | Before any search it fails with its own message. Otherwise it searches the same query one page further on: it records that page, marks a search in flight and requests that page's address. That search itself fails with the busy message while another is in flight. |
| Directory.PreviousPage | js/directory.js:412-435 | Before any search it fails with its own message. At page 0 or below it answers with no results and does not search. Otherwise it searches one page back: it records that page, marks a search in flight and requests that page's address. While another search is in flight, that search fails with the busy message instead. |
| Directory.NextThenPrevious | js/directory.js:370-435 | Going a page on, being answered, then going a page back requests the original page with the original parameters. |
| Directory.PagesStayNonNegative | js/directory.js:422-433 | Starting from a non-negative page, neither paging operation records a negative page. |
| Transfer.CollegeUrl | src/Transfer.js:245-246 | The college search address starts with the service address and ends with `?as_sbgi=` followed by the code. |
| Transfer.CreditSorter | src/Transfer.js:261-273 | The college-search comparator gives the lexicographic comparison on (course, title): course first, the title breaking a tie. |
| Transfer.CreditSorterOrder | src/Transfer.js:261-273 | The college-search comparator answers 0 exactly when both fields agree, and swapping its arguments flips the answer. |
| Transfer.TransferableCounts | src/Transfer.js:291 | Filtering keeps each entry flagged `"Y"` as often as it occurs and drops every other entry. |
| Transfer.TransferableSorted | src/Transfer.js:281-307 | Filtering a sorted list leaves it sorted. |
| Transfer.CollegeCourse | src/Transfer.js:294-304 | A kept entry becomes a course with every text field trimmed, coded by the queried college code, with city and state undefined. |
| Transfer.CollegeNameDropsCode | src/Transfer.js:299 | An institution written as the code and then a name is named by the trimmed name. An institution that does not mention the code keeps its trimmed text. |
| Transfer.SearchByCollege | src/Transfer.js:276-307 | The courses are the transferable entries of the sorted list, stored densely, in sorted order, one course per kept entry. |
| Transfer.SearchByCollegeKeeps | src/Transfer.js:276-307 | The kept entries are exactly the `"Y"` entries of the answer, each as often as it came, and they stand in comparator order. |
| Transfer.FieldLacksAmp | src/Transfer.js:358-359 | A query field made of an `&`-free name and an encoded value holds no `&`. |
| Transfer.SplitTwo | src/Transfer.js:356-359 | Two `&`-free fields joined by `&` split back into those two fields. |
| Transfer.CourseIdUrlShape | src/Transfer.js:356-359 | The course-search address is the fixed service address, then `&`, then the two query fields. |
| Transfer.CourseIdUrlFields | src/Transfer.js:356-359 | After the fixed start, the query splits on `&` into exactly the upper-cased, encoded subject field and the encoded number field, so neither value can leak into the other. |
| Transfer.CourseSorter | src/Transfer.js:373-394 | The course-search comparator gives the lexicographic comparison on (state, college, title). |
| Transfer.CourseSorterOrder | src/Transfer.js:373-394 | The course-search comparator answers 0 exactly when all three fields agree, and swapping its arguments flips the answer. |
| Transfer.CourseIdCourse | src/Transfer.js:408-420 | An entry becomes a course with the Kettering id `upper(subject) + "-" + idNumber`, the entry's course, title, college, code, city and state, and no Kettering title or credits. |
| Transfer.SearchByCourseId | src/Transfer.js:397-421 | There is one course per sorted entry, at the entry's index, with no filtering. |
| Transfer.SearchByCourseIdOrdered | src/Transfer.js:397-421 | There are as many courses as parsed entries. All carry the queried Kettering id, and they are ordered by state, college and title. |
| Transfer.GetColleges | src/Transfer.js:486-492 | Entry i becomes the college at index i, named and coded by the entry, with city and state undefined. |
| Sorting.KeyCompare | src/Transfer.js:261-273 | A comparison answers -1, 0 or 1. |
| Sorting.KeyCompareAntisymmetric | src/Transfer.js:373-394 | Swapping the records flips the comparison. |
| Sorting.KeyCompareZero | src/Transfer.js:373-394 | The comparison is 0 exactly when every field is equal. |
| Sorting.KeyCompareTransitive | src/Transfer.js:373-394 | "Not after" is transitive, so the comparator is a consistent order for `sort`. |
| Sorting.InsertPermutes | src/Transfer.js:276 | Inserting adds exactly one copy of the record. |
| Sorting.InsertSorted | src/Transfer.js:276 | Inserting into a sorted list keeps it sorted. |
| Sorting.SortPermutes | src/Transfer.js:276 | Sorting only rearranges the records. |
| Sorting.SortSorted | src/Transfer.js:397 | Sorting leaves the records in comparator order. |
| Sorting.SortSpec | src/Transfer.js:276 | The sorted list is a permutation of the input and is in comparator order. |
| Pager.Next | js/events.js:421-423 | `nextPage` gives page 0 before any retrieval, and the next page otherwise. |
| Pager.Previous | js/events.js:458-461 | `previousPage` gives page 0 before any retrieval or when one page back would be negative, and one page back otherwise. The result is never negative. |
| Pager.NextPreviousInverse | js/news.js:348-396 | From a non-negative page, on then back returns to it. From page 1 or later, back then on returns to it. From below 1, back then on lands on page 1. |
| Pager.PagedUrlRoundTrip | js/events.js:297-298 | The page can be read back from the address: page 0 from the plain list address, any other page from the `?page=` address. |
| Pager.PagedUrlInjective | js/news.js:271-272 | Different pages are fetched from different addresses. |
| Events.PageUrlRoundTrip | js/events.js:297-298 | Page 0 is fetched from `http://www.kettering.edu/events`, any other page from the `?page=` address, and the page can be read back from it. |
| Events.Retrieve | js/events.js:289-300 | `retrieve` records the requested page and fetches the address of that page. |
| Events.NextPage | js/events.js:419-426 | The next page is 0 before any retrieval and one further otherwise, fetched from its own address. |
| Events.PreviousPage | js/events.js:456-464 | The previous page is 0 before any retrieval and from page 0 or below, one back from page 1 or later, and is fetched from its own address. |
| Events.ExpandMonthIsChain | js/events.js:357-367 | The eleven `replace` calls are the chain of first-occurrence replacements over the month table, in the source's order. |
| Events.ReplaceChainFree | js/events.js:357-367 | A chain leaves unchanged a text that contains none of its patterns. |
| Events.FreeOfOther | js/events.js:357-367 | A three-letter text contains no different three-letter pattern. |
| Events.FreeOfLonger | js/events.js:357-367 | A text contains no pattern longer than itself. |
| Events.ReplaceWhole | js/events.js:357-367 | Replacing a whole text that equals the pattern gives the replacement. |
| Events.ExpandMonth | js/events.js:357-367 | A month text holding none of the eleven abbreviations is kept as it is. |
| Events.MayUnchanged | js/events.js:357-367 | `"May"` is not in the table and stays `"May"`. |
| Events.MonthAbbreviationsExpanded | js/events.js:357-367 | `"Jan"` becomes `"January"`, `"Sep"` becomes `"September"`, `"Nov"` becomes `"Novemeber"` as written, and `"Dec"` becomes `"December"`. |
| Events.ExpandsAt | js/events.js:357-367 | Each of the eleven abbreviations, alone, expands to exactly its full name from the table. |
| Events.ChainSplit | js/events.js:357-367 | The chain can be split at any step into the steps before it, that step, and the steps after it. |
| Events.NameShape | js/events.js:357-367 | Every abbreviation is three letters starting with a capital, every full name starts with its abbreviation, and no full name has a capital after its first letter. |
| Events.FreeOfCapitalized | js/events.js:357-367 | A capitalised three-letter pattern does not occur in a name that has no capital after its first letter and starts differently. |
| Events.FullNameFree | js/events.js:357-367 | No later abbreviation occurs in an earlier full name, so a later step never rewrites an earlier expansion. |
| Events.Time | js/events.js:338-346 | With exactly two date displays the time is `first + " - " + second`. With any other positive number it is the first alone, and with none it is empty. |
| Events.TimeSplitsAtFirstDash | js/events.js:338-346 | A two-display time splits at its first `" - "` back into the two displays, when the first display holds no `" - "` of its own. |
| Events.LastMarked | js/events.js:349 | The day row found lies before the given position. |
| Events.LastMarkedIsLast | js/events.js:349-367 | The row found starts a day and is the last such row before the position. When there is none, no row before the position starts a day. |
| Events.CarriedStep | js/events.js:312-369 | The carried day changes only at a `views-row-1` row, and changes to that row's day. |
| Events.Captions | js/events.js:315-378 | There is one caption per row, at the row's index, carrying the day of the most recent `views-row-1` row up to and including that row. |
| Events.DayCarriedForward | js/events.js:348-375 | A `views-row-1` row uses its own date box, any other row uses the day of the row before it, and before any such row the day is undefined. |
| Events.DayHolds | js/events.js:348-375 | Every row from a `views-row-1` row up to the next one shows that row's day. |
| News.PageUrlRoundTrip | js/news.js:271-272 | Page 0 is fetched from `.../news/current-news`, any other page from its `?page=` address, and the page can be read back from it. |
| News.Retrieve | js/news.js:263-274 | `retrieve` records the requested page and fetches its address. |
| News.NextPage | js/news.js:348-355 | The next page is 0 before any retrieval and one further otherwise, fetched from its own address. |
| News.PreviousPage | js/news.js:386-394 | The previous page is 0 before any retrieval and from page 0 or below, one back from page 1 or later, and is fetched from its own address. |
| News.CaptionOf | js/news.js:290-305 | A caption carries the item's title, byline, date and link. Its image is `""` when there is none, prefixed with the news host when it starts with `/`, and otherwise unchanged. |
| News.Captions | js/news.js:286-307 | There is one caption per `.news-caption`, at the same index. |
| News.ImagesKeepSource | js/news.js:290-296 | For an item with an image, the stored image address ends with the image's original source. |
| Announcements.PageUrlRoundTrip | js/announcements.js:103-104 | Page 0 is fetched from `http://my.kettering.edu/announcements/` with its trailing slash, any other page from the `?page=` address, and the page can be read back from it. |
| Announcements.Retrieve | js/announcements.js:95-106 | `retrieve` records the requested page and fetches its address. |
| Announcements.NextPage | js/announcements.js:170-177 | The next page is 0 before any retrieval and one further otherwise, fetched from its own address. |
| Announcements.PreviousPage | js/announcements.js:208-216 | The previous page is 0 before any retrieval and from page 0 or below, one back from page 1 or later, and is fetched from its own address. |
| Announcements.FirstHeading | js/announcements.js:122-124 | The index found is the first `h3` of the element. None is found exactly when the element has no `h3`. |
| Announcements.HtmlAppend | js/announcements.js:123-127 | The markup of concatenated parts is their markups concatenated. |
| Announcements.CaptionKeepsRest | js/announcements.js:122-127 | The title is the first `h3`'s text, and the stored markup is the markup before it followed by the markup after it: putting that heading back where it stood restores the element's markup. An element without an `h3` gets an empty title and keeps all its markup. |
| Announcements.Captions | js/announcements.js:118-128 | There is one caption per `.views-row`, at the row's index. |
| Library.GetSearchOptions | src/Library.js:36-43 | `getSearchOptions` returns six options named, in order, Words or Phrase, Author, Title, Subject, Series and Periodical, with pairwise different ids and names. |
| Library.FirstHitInverse | src/Library.js:213-214 | A page jump asks for hit `20*page + 1`, which determines the page. The next page starts 20 hits later, and a non-negative page starts at hit 1 or later. |
| Library.Search | src/Library.js:206-232 | With stored parameters the search jumps to their page, otherwise it starts at page 0 from the plain address. Either way a search is in flight, and the stored parameters change only when the answer arrives. |
| Library.Succeeded | src/Library.js:246-253 | A successful answer records the hit list's action together with the words, option and page of the request it answers, and clears the in-flight flag. |
| Library.Failed | src/Library.js:308-313 | An error clears the in-flight flag and keeps the stored parameters. |
| Library.Abort | src/Library.js:381-389 | An abort clears the in-flight flag and keeps the stored parameters; with no search in flight it changes nothing. |
| Library.NextPage | src/Library.js:342-351 | Before any search, `nextPage` throws. Otherwise it increments the stored page by exactly 1 and jumps to that page with the stored parameters. |
| Library.NextPageJumpsTwenty | src/Library.js:345-349 | After an answered search, `nextPage` asks for the hits just after the twenty shown, in the same session. |
| Library.NextPagesCount | src/Library.js:345 | After n answered `nextPage` calls, the stored page is the first page plus n. |
| Library.StripCommaTail | src/Library.js:279 | Removing `/,.+/g` never lengthens the text. |
| Library.LineEnd | src/Library.js:279 | The position found is where `.+` stops: the first line terminator at or after the start, or the end of the text. |
| Library.CommaCut | src/Library.js:279 | The position found is the first comma that has a character after it, or the length when there is none. |
| Library.StripSingleLine | src/Library.js:279-282 | On one line, the removal cuts the text at its first comma that has a character after it. A lone trailing comma stays. |
| Library.RemoveSpaceNoSpace | src/Library.js:267 | Removing white space from a text that has none changes nothing. |
| Library.JoinNoSpace | src/Library.js:273 | Joining space-free parts with a space-free separator gives a space-free text. |
| Library.ReplaceClosing | src/Library.js:268 | The `replace` of `');` removes exactly the closing call when the arguments hold none. |
| Library.ScriptNoSpace | src/Library.js:266-268 | A cover script built from space-free arguments has no white space. |
| Library.ScriptUnspaced | src/Library.js:266-268 | Removing white space from such a script leaves it as written. |
| Library.CleanOfScript | src/Library.js:266-268 | Cleaning a well-formed script leaves exactly the argument list, joined by `','`. |
| Library.CoverOfScript | src/Library.js:266-283 | For a well-formed cover script with eight arguments, the parsing recovers those arguments and builds the address from them. |
| Library.Cover | src/Library.js:259-288 | A hit without a cover script has the empty source. Any non-empty source is the address assembled from eight arguments. |
| Library.CoverNeedsEightArgs | src/Library.js:275-288 | A script whose cleaned text does not split into exactly eight arguments gives the empty source. |
| Library.BookOf | src/Library.js:259-297 | A book carries its four texts trimmed and the cover parsed from its script. |
| Library.Books | src/Library.js:255-300 | There is one book per hit, at the hit's index. |
| Library.BookTextsTrimmed | src/Library.js:292-295 | The stored title and holdings are already trimmed, so trimming them again changes nothing. |
| JsText.TrimSpec | src/Transfer.js:294-299 | `trim` returns the slice between the leading and the trailing white space. The slice neither starts nor ends with white space. |
| JsText.TrimIdempotent | src/Library.js:292-295 | Trimming twice is trimming once. |
| JsText.RemoveSpaceKeepsOthers | src/Library.js:267 | `replace(/\s/g, '')` keeps every other character, as often as it occurs. |
| JsText.RemoveSpaceEmptyIff | js/directory.js:310 | A text is empty once its white space is removed exactly when it is all white space. |
| JsText.CaseMapAt | src/Transfer.js:358 | Case mapping works character by character. |
| JsText.ToUpperIdempotent | src/Transfer.js:410 | Upper-casing leaves no lower-case ASCII letter and is idempotent. |
| JsText.IndexOf | js/events.js:357-367 | The index found is the first occurrence of the pattern, and none is found only when the pattern occurs nowhere. |
| JsText.ReplaceFirstSpec | src/Transfer.js:299 | `replace` with a string pattern splices the replacement in at the first occurrence, and changes nothing when there is none. |
| JsText.ReplaceLeading | src/Library.js:267 | Replacing a leading pattern with `""` takes it off. |
| JsText.Split | src/Library.js:273 | `split` gives at least one piece, and no piece contains the separator. |
| JsText.SplitJoin | src/Library.js:273 | Joining the pieces of a split with the same separator gives back the text. |
| JsText.SplitOfJoin | src/Library.js:273-275 | Splitting a join gives back the parts, when no part contains the separator's first character. |
| JsText.Reverse | js/directory.js:303 | `split("").reverse().join("")` puts the character at index i at index `n - 1 - i`. |
| JsText.ReverseInvolution | js/directory.js:303 | Reversing twice gives the text back. |
| JsText.IntToStringRoundTrip | js/directory.js:252 | The decimal rendering of an integer reads back as that integer. |
| JsText.IntToStringInjective | src/Library.js:214 | Distinct integers render differently. |
| JsText.EncodeUriComponent | src/Transfer.js:358-359 | `encodeURIComponent` never shortens its input and produces only unreserved characters and `%`. |
| JsText.EncodedLacks | src/Transfer.js:358-359 | An encoding holds no `&`, `=` or other character outside that set. |
| JsText.EncodeAppend | js/directory.js:249-250 | Encoding distributes over concatenation. |
| JsText.EncodeUnreservedIdentity | src/Library.js:225-226 | A text of unreserved characters is its own encoding. |
| JsText.LessIrreflexive | src/Transfer.js:262-271 | No string is `<` itself. |
| JsText.LessAsymmetric | src/Transfer.js:262-271 | `a < b` excludes `b < a`. |
| JsText.LessTransitive | src/Transfer.js:376-389 | `<` on strings is transitive. |
| JsText.LessTotal | src/Transfer.js:376-389 | Any two different strings are ordered one way or the other. |
| StudentRows.CellText | js/student.js:1431-1434 | A cell's text is the trimmed `td` text, and `""` when the row has no such cell. |
| StudentAccount.AccountSummary | js/student.js:1353-1470 | An error page fails with `"Request failed"`. Any other page succeeds, with the balance of the last `"account balance:"` row (`"0"` without one) and one term per `"term balance:"` row. |
| StudentAccount.EntryTotal | js/student.js:1436-1439 | An empty charge gives the credit. A charge containing `$0` is kept as written. Any other charge is negated with `-`. |
| StudentAccount.RunAppend | js/student.js:1387 | Walking two runs of rows one after the other is walking their concatenation. |
| StudentAccount.BalanceIsLast | js/student.js:1397 | The balance is the value of the last `"account balance:"` row, or `"0"` without one. Closing a term never resets it. |
| StudentAccount.TermsCounted | js/student.js:1400-1406 | Exactly one term is emitted per `"term balance:"` row. |
| StudentAccount.Gathering | js/student.js:1390-1445 | Between two closings the terms stay as they are. The term name, totals and entries are those of the last term row, the last totals rows and the five-cell rows read since the previous closing. |
| StudentAccount.SegmentCloses | js/student.js:1400-1411 | After a fresh start, a `"term balance:"` row emits exactly the term described by the rows since then, and starts afresh. |
| StudentAccount.TrailingDropped | js/student.js:1387-1470 | Rows after the last `"term balance:"` row change no emitted term. |
| StudentCatalog.SectionOf | js/student.js:1799-1805 | A section is identified by the CRN cell, and its course id is subject, `-`, number. |
| StudentCatalog.ScheduleCatalog | js/student.js:1768-1827 | An error page fails with `"Request failed"`. Otherwise the entries are the reference entries: one per seventeen-cell row, with the section in force at that row. |
| StudentCatalog.EntriesCounted | js/student.js:1793-1820 | There is one entry per seventeen-cell row. |
| StudentCatalog.CarriedIsLastNamed | js/student.js:1796-1806 | The section in force is that of the last row with a non-blank CRN. With no such row it is the blank defaults. |
| StudentCatalog.MeetingRowEntry | js/student.js:1793-1820 | A seventeen-cell row adds exactly one entry. It has the row's own meeting, and its own section when the CRN is not blank, otherwise the section carried from above. |
| StudentCatalog.OtherRowIgnored | js/student.js:1793 | Any other row adds no entry and leaves the section in force as it was. |
| StudentAwards.EntryOf | js/student.js:1680-1690 | An entry takes its name from cell 0, cancelled from cell 4 and paid-to-date from cell 6, skipping cell 5. |
| StudentAwards.EntriesCounted | js/student.js:1673 | There is one entry per seven-cell row. |
| StudentAwards.EntriesAreAwardRows | js/student.js:1673-1691 | A row adds its own entry exactly when it has seven cells, and adds nothing otherwise. |
| StudentAwards.Years | js/student.js:1658-1700 | There is one award year per table, in table order, with that table's caption years and entries. |
| StudentAwards.AwardHistory | js/student.js:1636-1704 | An error page fails with `"Request failed"`. Otherwise every table yields one award year, even without entries, whose entries are exactly those of its seven-cell rows, in order. A caption the pattern does not match gives `""` as the years. |
| StudentAwards.AwardHistoryAsWritten | js/student.js:1636-1704 | As written: an error page fails with `"Request failed"`. A page with a caption the pattern does not match gets no answer. An answer has one award year per table, carrying that table's captured years. |
| StudentAwards.AsWrittenLosesUnmatchedCaption | js/student.js:1664-1665 | As written, a table whose caption does not match gives no answer at all, where the corrected handler answers. |
| StudentAwards.AsWrittenAnswersIffAllMatch | js/student.js:1664-1665 | As written, the handler answers exactly when every caption matches. |
| StudentAwards.CorrectedAgreesWhenAllMatch | js/student.js:1658-1704 | When every caption matches, the as-written and corrected handlers agree. |
| StudentEvaluation.Stamp | js/student.js:2411-2419 | Flushing the queue keeps every queued course and sets only its details to the current ones. |
| StudentEvaluation.NameOr | js/student.js:2467 | A course name of `""` or `"-"` falls back to the rule cell's text. Any other name is kept. |
| StudentEvaluation.FlushingRow | js/student.js:2405-2431 | An area, seventeen-, twelve-, unsatisfied ten-, unsatisfied five- or four-cell row, or a closing `")"` row, appends the whole queue stamped with the current details, then at most its own course. At most one course waits afterwards. |
| StudentEvaluation.DiscardingRow | js/student.js:2659-2682 | A two-cell row that is not `")"` empties the queue without adding it. |
| StudentEvaluation.HoldingRow | js/student.js:2588-2656 | Elective and details rows leave the required courses alone and at most append one course to the queue. |
| StudentEvaluation.FullCourseRow | js/student.js:2434-2485 | A seventeen-cell row flushes the queue and then adds its own course when that course is named. The name falls back to the rule when it is `""` or `"-"`. |
| StudentEvaluation.RunAppend | js/student.js:2402 | Walking two runs of rows one after the other is walking their concatenation. |
| StudentEvaluation.StepGrows | js/student.js:2402-2755 | No row removes or reorders a required course. |
| StudentEvaluation.RequiredGrows | js/student.js:2402-2755 | The required courses only grow, as a prefix, over a whole table. |
| StudentEvaluation.QueuedAtEndNotAdded | js/student.js:2402-2765 | When no row after some point flushes, courses queued after that point never reach the required courses. |
| StudentEvaluation.FlushKeepsNamed | js/student.js:2411-2419 | Flushing adds only named courses. |
| StudentEvaluation.StepKeepsNamed | js/student.js:2466-2718 | Every course a row adds or queues has a non-empty name. |
| StudentEvaluation.RunKeepsNamed | js/student.js:2402-2755 | Over a whole table, every required course has a non-empty name. |
| StudentEvaluation.AreaFieldsFromLastAreaRow | js/student.js:2405-2431 | The area's name, credits and status are those of the last area row. No other row kind changes them. |
| StudentEvaluation.AreaIffNamed | js/student.js:2759-2765 | A table yields an area exactly when its last area row names one. The area then carries that row's name, credits and status, and named courses only. |
| StudentEvaluation.AreasNamed | js/student.js:2393-2765 | At most one area per table, and every area has a non-empty name. |
| StudentEvaluation.RequiredCreditsFromTotals | js/student.js:2343-2354 | The degree's required credits are those of the last `"total required :"` row. The GPA and transfer rows never change them. |
| StudentEvaluation.EvaluateAsWritten | js/student.js:2255-2779 | As written, for a page whose header matches: an error page fails with `"Request failed"`, and fewer than two data tables fail with `"Invalid evaluation page found."`. With exactly two tables, the required credits are those of the last `"total required :"` row. With an area table, they are the credits of the last area row of the final table, or `""`. |
| StudentEvaluation.AsWrittenReportsLastArea | js/student.js:2337-2398 | As written, once there is an area table, the reported required credits are the credits of the last area row of the final table, or `""` when it has none, whatever the overview says. |
| StudentEvaluation.AsWrittenLeaksAreaCredits | js/student.js:2398-2428 | Concrete case: with an empty overview and one area table of 16.00 credits, the as-written evaluation reports `"16.00"` where the corrected one reports `""`. |
| StudentEvaluation.Evaluate | js/student.js:2255-2779 | An error page fails with `"Request failed"`, and a page with fewer than two data tables with `"Invalid evaluation page found."`. Otherwise the required credits are those of the last `"total required :"` row. The areas are those of the area tables, at most one per table, and every one has a non-empty name. |
| StudentEvaluation.AsWrittenDiffersOnlyInCredits | js/student.js:2337-2775 | The as-written and corrected handlers succeed together, and differ at most in the required credits. Without an area table they agree. |
| StudentStatus.Append | js/student.js:3053-3054 | A value is appended with `", "` only when the field already holds something. |
| StudentStatus.Standing | js/student.js:2973-2983 | The standing is the capture of the last message that matched, or `""` when none did. |
| StudentStatus.Info | js/student.js:2947-3092 | The handler fails exactly on an error page, with `"Request failed"`. Otherwise the full name is the header's captured name, or `""` without a header match. |
| StudentStatus.DropLeadingBlanks | js/student.js:3053 | Dropping leading blanks never adds values. |
| StudentStatus.DropLeadingBlanksSnoc | js/student.js:3053-3054 | A blank value after only blanks adds nothing, and any other value is kept. |
| StudentStatus.DropLeadingBlanksHead | js/student.js:3053 | The values kept start with a non-blank one. |
| StudentStatus.JoinSnoc | js/student.js:3053-3054 | Joining one more part appends the separator and the part. |
| StudentStatus.JoinNonEmpty | js/student.js:3053 | A join that starts with a non-empty part is not empty. |
| StudentStatus.AccumulateIsJoin | js/student.js:3050-3079 | Appending values one by one gives the values from the first non-blank one on, joined with `", "`. |
| StudentStatus.StepAccumulates | js/student.js:3040-3079 | A row adds its cell to a repeated field exactly when it is classified as a heading row for that field's heading; every other row leaves the field as it was. |
| StudentStatus.AccumulateSnoc | js/student.js:3053-3054 | Accumulating one more value appends it. |
| StudentStatus.RepeatedFieldAccumulates | js/student.js:3004-3083 | Over the rows, each repeated field is the accumulation of the values of its heading rows, in order. |
| StudentStatus.InfoJoinsRepeatedFields | js/student.js:3050-3089 | Major, minor, concentration and specialty are the values of their heading rows from the first non-blank one on, joined with `", "`. |
| StudentStatus.CollegeIsLast | js/student.js:3043-3047 | The college is the value of the last `"college:"` row, or `""` without one. |
| StudentStatus.ProgramFollowsLabel | js/student.js:3032-3037 | The program is the text of the row after the last `"current program"` row that has a following row. |
| StudentStatus.ProgramRowCarriesNext | js/student.js:3032-3037 | A row counts as a `"current program"` row exactly when it is not a three-cell row, its neutral text is `"current program"` and a row follows it; it then carries the following row's text. |
| RequiredBooks.LetterRunEnd | js/student.js:3145 | The run of letters found is as long as possible. |
| RequiredBooks.DigitRunEnd | js/student.js:3145 | The run of digits found is as long as possible. |
| RequiredBooks.MatchFrom | js/student.js:3152-3155 | The start found is the leftmost position where the pattern matches. None is found only when it matches nowhere after the search start. |
| RequiredBooks.CheckCourseId | js/student.js:3145-3166 | The check fails, with `"Please provide valid course id"`, exactly when the pattern matches nowhere. On a match, the department is a non-empty run of letters and the number a non-empty run of digits. |
| RequiredBooks.CheckFindsGroups | js/student.js:3152-3157 | On a match, the id holds the department, one separator and the number, starting at the leftmost match, and the number is not followed by a further digit. |
| RequiredBooks.LetterRunOfLetters | js/student.js:3145 | A run of n letters followed by a non-letter ends n later. |
| RequiredBooks.DigitRunOfDigits | js/student.js:3145 | A run of n digits followed by a non-digit ends n later. |
| RequiredBooks.CheckRoundTrip | js/student.js:3145-3157 | An id written as letters, `-` and digits splits back into that department and number. |
| RequiredBooks.CheckExample | js/student.js:3145-3157 | `"CS-101"` names department `"CS"` and number `"101"`. |
| RequiredBooks.NoLetterRefused | js/student.js:3161-3166 | An id without any letter is refused with the failure message. |

## Left out

- Network and browser plumbing is not modelled: every `$.ajax` call, the callbacks, cookies and `latestSearch.abort()`. A search in flight is a boolean, and an answer, an error or an abort is a function on the state.
- jQuery DOM queries and `JSON.parse` are not modelled. A page arrives as its extracted rows, spans, hits or entries. The `views-row-1` class, `.tel`, `obfuscated` and `bold` are flags, and missing images are `None`.
- The outcomes of four regular expressions are inputs: `namePattern` in award history, `areaPattern` in evaluation, and `headerPattern` and `standingPattern` in student info. Each is an `Option` of the captured groups for its caption, row, header or message, and the model does not tie it to the text it is matched against. These outcomes also choose branches. An unmatched caption makes the as-written award handler give no answer (js/student.js:1664-1665). An area match makes a row an area row (js/student.js:2406). A standing match sets the standing (js/student.js:2981). The other patterns are written out by hand and decided on the text itself: `termPattern`, `zeroPattern`, `/,.+/g`, `/\s/g` and the course-id pattern.
- Filesystem details of `build_JS.py` are not modelled: `os.listdir` order, `fileinput` and truncating `open`. The listing and file contents are inputs, and lines keep their own terminators.
- `Sorting.Sort`: the model is a stable insertion sort. JavaScript engines of the time did not promise a stable `sort`, so only permutation and comparator order are claimed for the source.
- `JsText.ToLower`: only ASCII letters are mapped, where `toLowerCase()` maps every Unicode letter. The lower-cased text is only compared with ASCII labels, so the model answers differently only for a non-ASCII character whose lower case is ASCII. The Kelvin sign (U+212A) is one: it lower-cases to `"k"` in the source and stays as it is here.
- `JsText.ToUpper`: only ASCII letters are mapped, where `toUpperCase()` maps every Unicode letter. The subject upper-cased at src/Transfer.js:358 and src/Transfer.js:410 goes into the address (`Transfer.CourseIdUrl`) and into the course id (`Transfer.CourseIdCourse`), so for a subject with a non-ASCII letter the model differs from the source: `"é"` stays `"é"` instead of becoming `"É"`, and `"ß"` stays `"ß"` instead of becoming `"SS"`. `JsText.CaseMapAt` and `JsText.ToUpperIdempotent` hold for this ASCII mapping only.
- `JsText.Reverse` reverses the sequence of Unicode scalar values. `split("").reverse().join("")` at js/directory.js:303 reverses UTF-16 code units, so an obfuscated detail holding a character outside the Basic Multilingual Plane would come out with its surrogate pair swapped in the source.
- `JsText.Less`: strings are sequences of Unicode scalar values, so lone surrogates cannot occur. The UTF-16 ordering is reproduced by a rank on code points.
- `Transfer.CollegeUrl`: the college code is taken as the text it converts to.
- `Transfer.CourseIdUrl` has no decoder partner. The fields are shown to split apart on `&`, but `encodeURIComponent` is not inverted.
- `Directory.Deobfuscate`: the source's loops run one index past both strings. That extra step maps `""` to `""` and adds nothing, so the model omits it.
- `Announcements.Part`: an element is a flat list of top-level parts. An `h3` nested inside a child element is selected by `$('h3:first', this)` at js/announcements.js:122 and removed by `find("h3:first")` at js/announcements.js:124, but cannot be written in this model.
- An image element without a `src` is not modelled, because `source[0]` then throws on `undefined`.
- The evaluation page's header and first table (college, degree, majors and so on) are not modelled. Neither is the `headerGroups.length` read at js/student.js:2303-2305, which throws when `headerPattern` does not match.
- `retrieveRequiredBooks` is modelled only up to the course-id check: `parseInt(section)` and the bookstore requests after it are left out.
- `Directory.getDepartments`, the `abort` functions of `KU.Transfer` (their effect is `Directory.Abort`'s), login and session checks, and the functions that only return HTML are not part of this model.
- The duplicated five-cell branch in `retrieveAccountSummary` (js/student.js:1448-1464) can never run, so it has no model.
- `src/Directory.js`, `src/student.js`, `bin/KetteringJS.js`, `docs/api.js` and `js/KetteringJS-Core.js` are not part of this model. The first two are older copies, and the others are generated output or the bundler's constant input.

## Findings

| source | as written | input that shows it | evidently intended | confidence | as-written member | corrected member |
|---|---|---|---|---|---|---|
| js/student.js:1664-1665 | `groups = namePattern.exec(...)` is followed by `groups.length` with no null check | a data table whose caption does not match `namePattern`, e.g. "Award History": `exec` returns null, reading `.length` throws, and neither callback runs | such a table yields an award year with years `""`, as the default at js/student.js:1661 suggests | not executed | StudentAwards.AsWrittenLosesUnmatchedCaption | StudentAwards.AwardHistory |
| js/student.js:2337-2398 | the per-table `var requiredCredits = ""` re-declares the function-scoped variable of the overview | an empty overview table, then one area table whose area row gives 16.00 credits: the evaluation reports `"16.00"` as the degree's required credits | the degree's required credits from the `"total required :"` row | not executed | StudentEvaluation.AsWrittenLeaksAreaCredits | StudentEvaluation.Evaluate |
