# mangaApp scraper logic in Dafny

A model of the string and list logic inside a small React manga-scraper UI, with proofs about it.
The app has three pages, and each page's handler is modelled here.

- **Search page.** `handleSearch` builds the search URL from the query and fetches the listing.
  Each `.novel-item` becomes a `MangaResult`; every field falls back to a fixed text when its
  element or attribute is missing or blank. The app then goes to `/results`.
- **Results page.** `handleMangaSelection` moves a hit's link onto the site's origin
  `https://www.mgeko.cc`. It takes the title id from the second path segment and goes to
  `/manga/<id>`. Without an id it does nothing.
- **Title page.** `MangaPage` first fetches the title's chapter list through a CORS relay. Each
  `li.chapter-list-item` becomes a `ChapterResult`, and the list is sorted newest first by
  `parseInt(orderNumber)`. Picking a chapter clears the images, fetches the chapter page and
  lists its `img` sources.

The JavaScript built-ins this logic depends on are modelled as well: string falsiness,
`String.prototype.trim`, `split`/`filter(Boolean)`, `parseInt` without a radix,
`encodeURIComponent` and the stable `Array.prototype.sort`.

Modules, one file each:

| module | file | contents |
|---|---|---|
| `Wrappers` | wrappers.dfy | `Option` |
| `MangaTypes` | manga_types.dfy | the three record types of `src/types/manga.ts` |
| `JsString` | js_string.dfy | the falsy-or on strings, `trim`, `startsWith`, `split`, `filter(Boolean)` |
| `JsNumber` | js_number.dfy | `parseInt` with whitespace, sign, `0x` prefix and longest digit run; NaN is `None` |
| `UriComponent` | uri_component.dfy | `encodeURIComponent`, plus a decoder used to state that nothing is lost: a lenient percent step (either hexadecimal case, other ASCII characters passed through) and a strict UTF-8 step |
| `Links` | links.dfy | host stripping, the leading `/`, the origin prefix, path segments, the title id |
| `ResultPage` | result_page.dfy | `handleMangaSelection` |
| `SearchPage` | search_page.dfy | `handleSearch` |
| `ChapterOrder` | chapter_order.dfy | the comparator, a stable descending sort as a function, and the in-place array sort proved equal to it |
| `MangaPage` | manga_page.dfy | chapter and image derivation, and the component state as the class `MangaView` |

The browser is abstracted as follows:

- **The DOM.** A scraped element is a datatype with one `Option<string>` field per selector or
  attribute the code reads. `None` stands for a missing element and a missing attribute alike.
  The code treats the two the same way through `?.` and `||`.
- **Fetching and parsing.** These become parameters. A fetched page is an `Option` of its item
  list, where `None` means `fetch`, `response.text()` or the parse threw.
- **`new URL(href, base).href`.** This is the parameter
  `resolve: (string, string) -> Option<string>`, where `None` means the constructor threw.
- **The `async` handlers.** Each handler is split at its `await` into a `Start…` method, which
  changes the state and returns the URL to fetch, and a `Finish…` method, which receives the
  outcome.

The sort is written once. `ChapterOrder.SortBy` takes an array and a key function, and
`SortChapters` applies it to the chapters' order key. The method's postcondition ties the array
to the function `SortDesc`, and the lemmas about `SortDesc` state permutation, descending order
and stability.

## Model

| member | source | states |
|---|---|---|
| `Links.StripHost` | src/components/ResultPage.tsx:12 | A link that does not start with lower-case `http://` or `https://` followed by a non-`/` character is returned as is. Otherwise the result is a strictly shorter suffix of the link that is empty or starts with `/`. |
| `Links.StripHostRemoves` | src/components/ResultPage.tsx:12 | For any scheme `http://`/`https://`, any non-empty host without `/` and a rest that is empty or starts with `/`, exactly the scheme and host are removed. |
| `Links.CleanPath` | src/components/ResultPage.tsx:13-15 | The result always starts with `/`. A path that already starts with `/` is kept; any other path gets exactly one `/` in front. |
| `Links.TitlePath` | src/components/ResultPage.tsx:12-15 | The cleaned path of any link is non-empty and starts with `/`. |
| `Links.NormalisedLink` | src/components/ResultPage.tsx:22-25 | The updated link starts with `https://www.mgeko.cc`, is followed by `/`, and the rest is the cleaned path. |
| `Links.NormalisedLinkIgnoresHost` | src/components/ResultPage.tsx:12-25 | A link on any host is moved to the site's origin with its path unchanged. |
| `Links.NormalisedRelativeLink` | src/components/ResultPage.tsx:12-25 | A link without scheme and host keeps its text, with a `/` added in front when it lacks one. |
| `Links.TitlePathOfNormalised` | src/components/MangaPage.tsx:25-28 | Stripping and cleaning an already normalised link gives back the path it was built from. |
| `Links.NormalisedLinkIdempotent` | src/components/MangaPage.tsx:25-29 | Normalising the updated link again, as the title page does, gives the same URL. |
| `Links.Segments` | src/components/ResultPage.tsx:18 | No segment of `split("/").filter(Boolean)` is empty or contains `/`. |
| `Links.SegmentsSpellPath` | src/components/ResultPage.tsx:18 | The segments laid end to end are the path with every `/` removed, so nothing but slashes is lost. |
| `Links.MangaId` | src/components/ResultPage.tsx:18-19 | The id never contains `/`. It is `""` exactly when there are fewer than two segments, and otherwise it is the second segment. |
| `Links.MangaIdOf` | src/components/ResultPage.tsx:18-19 | In `/<kind>/<id>` followed by nothing or by `/…`, the id is extracted exactly. |
| `ResultPage.SelectManga` | src/components/ResultPage.tsx:9-43 | Navigation happens exactly when the path has two segments. The route is `/manga/` plus the second segment, which has no `/`. Title, author and summary are unchanged, and the link is the origin plus the cleaned path. |
| `ResultPage.SelectionIsStable` | src/components/ResultPage.tsx:22-26 | Selecting the record a selection carries leads to the same route with the same record. |
| `ResultPage.SelectOnAnyHost` | src/components/ResultPage.tsx:12-42 | A hit linked as `scheme + host + /kind/id…` navigates to `/manga/id`, carrying the link `https://www.mgeko.cc/kind/id…`. |
| `JsString.Trim` | src/components/SearchPage.tsx:24 | `trim` leaves no whitespace at either end, and its result is empty exactly when the text is all whitespace. |
| `JsString.TrimIsMiddle` | src/components/SearchPage.tsx:24 | What `trim` keeps is a contiguous middle of the text, with only whitespace cut on either side. |
| `JsString.TrimKeeps` | src/components/MangaPage.tsx:74 | Text with no outer whitespace is not changed by `trim`. |
| `JsString.TrimIdempotent` | src/components/MangaPage.tsx:74 | Trimming twice is trimming once. |
| `JsString.TrimmedOr` | src/components/SearchPage.tsx:23-25 | An optional element's trimmed text with the fallback `d` is either the fallback `d` or the element's trimmed text, which is then non-empty and has no outer whitespace. |
| `JsString.TrimmedOrCases` | src/components/SearchPage.tsx:23-25 | An optional element's trimmed text with a fallback `d` is that trimmed text, which is non-empty, when the element exists and is not blank, and `d` otherwise. |
| `JsString.AttributeOr` | src/components/SearchPage.tsx:26 | An optional attribute with a fallback `d` is the raw value when it is present and non-empty, and `d` otherwise. |
| `JsString.Split` | src/components/ResultPage.tsx:18 | `split` yields at least one piece, and no piece contains the separator. |
| `JsString.JoinSplit` | src/components/ResultPage.tsx:18 | Joining the pieces of `split` with the same separator gives the original string back. |
| `JsString.NonEmpty` | src/components/ResultPage.tsx:18 | `filter(Boolean)` keeps exactly the non-empty pieces and is never longer than its input. |
| `JsString.NonEmptyConcat` | src/components/ResultPage.tsx:18 | Filtering a concatenation is concatenating the filtered parts, so the filter keeps order and drops only empty pieces. |
| `JsString.NonEmptySingle` | src/components/ResultPage.tsx:18 | A single piece is dropped exactly when it is empty. |
| `JsString.ConcatNonEmpty` | src/components/ResultPage.tsx:18 | Dropping empty pieces does not change what the pieces spell. |
| `JsString.ConcatSplit` | src/components/ResultPage.tsx:18 | The pieces of `split` spell the string with every separator removed. |
| `JsNumber.ParseInt` | src/components/MangaPage.tsx:95 | A number is read only when the first character after leading whitespace is `+`, `-` or a decimal digit, and a negative number only after `-`. |
| `JsNumber.DigitPrefix` | src/components/MangaPage.tsx:95 | `parseInt` reads the longest run of digits of the base, and the run stops at the first non-digit. |
| `JsNumber.ParseIntOfNumeral` | src/components/MangaPage.tsx:95 | `parseInt` reads back the decimal numeral of any integer (negative ones included), whatever follows it, as long as the next character is not a decimal digit and, after a lone `0`, not `x` or `X`. |
| `JsNumber.ParseIntSkipsWhitespace` | src/components/MangaPage.tsx:95 | Leading whitespace does not change what `parseInt` reads. |
| `JsNumber.ParseIntNaN` | src/components/MangaPage.tsx:95 | Text that does not start with a sign or a digit after its whitespace is NaN. |
| `JsNumber.ParseIntHex` | src/components/MangaPage.tsx:95 | For any run `d` of hexadecimal digits after `0x` or `0X`, followed by text that cannot extend the run, `parseInt` reads `d` in base 16. |
| `JsNumber.ParseIntNegativeHex` | src/components/MangaPage.tsx:95 | A `-` in front of any such `0x`/`0X` numeral reads as minus `d` in base 16. |
| `JsNumber.ParseIntHexNaN` | src/components/MangaPage.tsx:95 | `0x` or `0X` followed by no hexadecimal digit is NaN, not 0. |
| `JsNumber.DigitRunDigits` | src/components/MangaPage.tsx:95 | Every character of a digit run is a digit of its base. |
| `UriComponent.PercentEncode` | src/components/MangaPage.tsx:33 | Every byte becomes three characters, each `%` or an unescaped character. |
| `UriComponent.Encode` | src/components/MangaPage.tsx:33 | `encodeURIComponent` is never shorter than its input, and its output contains only unescaped characters and `%`, so no `/ ? # & =` survives. |
| `UriComponent.EncodeKeepsUnescaped` | src/components/MangaPage.tsx:33 | Text made only of unescaped characters is its own encoding. |
| `UriComponent.Utf8RoundTrip` | src/components/MangaPage.tsx:33 | Decoding the UTF-8 bytes of any string gives that string back. |
| `UriComponent.PercentDecodeEncode` | src/components/MangaPage.tsx:33 | Percent-decoding what `encodeURIComponent` produced gives back exactly the UTF-8 bytes of the string. |
| `UriComponent.DecodeEncode` | src/components/MangaPage.tsx:33 | Percent-decoding and UTF-8-decoding what `encodeURIComponent` produced gives back the original string. |
| `SearchPage.SearchUrl` | src/components/SearchPage.tsx:15 | The search URL is the fixed prefix followed by the query verbatim, without encoding. |
| `SearchPage.ToMangaResult` | src/components/SearchPage.tsx:22-33 | Whatever the markup, the record has four non-empty fields, and its title and author carry no outer whitespace. |
| `SearchPage.TitlePolicy` | src/components/SearchPage.tsx:23-25 | `title` is the trimmed `.novel-title` text, or `"Unknown Title"` when the element is missing or blank. |
| `SearchPage.AuthorPolicy` | src/components/SearchPage.tsx:27-29 | `author` is the trimmed `.text1row` text, or `"Unknown Author"`. |
| `SearchPage.AttributePolicy` | src/components/SearchPage.tsx:26-32 | `link` is the raw `href`, neither resolved nor trimmed, or `"#"`. `summary` is the raw `title` attribute, or `"No summary available"`. |
| `SearchPage.ToMangaResults` | src/components/SearchPage.tsx:21-33 | There is one record per `.novel-item`, in document order, and every record is well formed. |
| `SearchPage.HandleSearch` | src/components/SearchPage.tsx:10-40 | The app navigates exactly when the fetch succeeds. It then goes to `/results` carrying exactly the mapped list, every record well formed, and on failure it stays. |
| `SearchPage.NoItemsNoResults` | src/components/SearchPage.tsx:21-35 | A page with no item leads to `/results` with an empty list, not to a failure. |
| `ChapterOrder.SortKey` | src/components/MangaPage.tsx:95 | An empty order number sorts as 0, and any other is read as `parseInt` reads it. |
| `ChapterOrder.GoesBeforeComparator` | src/components/MangaPage.tsx:93-96 | A chapter goes before another exactly when the comparator `key(b) - key(a)` called on them is a negative number, and then never the other way round. A NaN key makes the comparator NaN and puts neither first. |
| `ChapterOrder.SortDesc` | src/components/MangaPage.tsx:93-96 | The sorted list is as long as the input. |
| `ChapterOrder.SortPermutes` | src/components/MangaPage.tsx:93-96 | The sorted list is a permutation of the records: the same chapters, each as often. |
| `ChapterOrder.Insert` | src/components/MangaPage.tsx:93-96 | Inserting one chapter lengthens the list by one. |
| `ChapterOrder.InsertPermutes` | src/components/MangaPage.tsx:93-96 | Inserting adds exactly that chapter. |
| `ChapterOrder.InsertBounded` | src/components/MangaPage.tsx:93-96 | Inserting keeps any lower bound on the keys. |
| `ChapterOrder.InsertDescending` | src/components/MangaPage.tsx:93-96 | Inserting a keyed chapter into a keyed descending list keeps it descending. |
| `ChapterOrder.SortDescending` | src/components/MangaPage.tsx:93-96 | When every order number has an integer prefix, the sorted keys never increase. |
| `ChapterOrder.InsertStable` | src/components/MangaPage.tsx:93-96 | Inserting a chapter appends it to the chapters of its own key and changes no other key's order. |
| `ChapterOrder.SortStable` | src/components/MangaPage.tsx:93-96 | For every key, the chapters with that key keep their document order (for NaN keys, in the model's fixed order; the engine's order is then implementation-defined). |
| `ChapterOrder.NumeralKey` | src/components/MangaPage.tsx:95 | An order number written as a decimal integer sorts by that integer, not by its text. |
| `ChapterOrder.InsertLands` | src/components/MangaPage.tsx:93-96 | A chapter that must precede every element from position `j` on, but not the one before `j`, is inserted exactly at `j`. |
| `ChapterOrder.InsertAt` | src/components/MangaPage.tsx:93-96 | One pass shifts `a[i]` left past the elements it must precede, leaves the insertion in `a[..i+1]` and leaves the rest untouched. |
| `ChapterOrder.SortBy` | src/components/MangaPage.tsx:93-96 | The in-place sort leaves the array holding `SortDesc` of its old contents. |
| `ChapterOrder.SortChapters` | src/components/MangaPage.tsx:93-96 | `chapterResults.sort(...)` leaves the array holding the stable descending sort by `parseInt` of the order number (`"0"` when empty). |
| `MangaPage.ProxyUrl` | src/components/MangaPage.tsx:32-33 | The relay URL starts with the relay prefix. The rest decodes back to the target exactly and holds only `%` and unescaped characters. A target that needs no escaping is appended unchanged. |
| `MangaPage.ChapterListUrl` | src/components/MangaPage.tsx:24-33 | The relay URL starts with the relay prefix, holds only encoded characters after it, and decodes to the title's cleaned path on `https://www.mgeko.cc`, whatever host the link named. |
| `MangaPage.DeriveChapter` | src/components/MangaPage.tsx:62-90 | A record exists exactly when the `href` (or `""`) resolves against the origin. Its `chapterLink` is that resolution, and its order number and title are never empty. |
| `MangaPage.NumberPolicy` | src/components/MangaPage.tsx:63-64 | `chapterNumber` is `data-chapterno` or `""`. `orderNumber` is `data-orderno`, else `data-chapterno`, else `"0"`, and is never empty. |
| `MangaPage.ChapterTitlePolicy` | src/components/MangaPage.tsx:72-74 | `chapterTitle` is the trimmed `.chapter-number` text, which is non-empty, or `"Chapter"`. |
| `MangaPage.ReadTimePolicy` | src/components/MangaPage.tsx:76-78 | `chapterReadTime` is the trimmed `.chapter-stats` text, or `""`. |
| `MangaPage.DerivedSortKey` | src/components/MangaPage.tsx:85 | A chapter whose `data-orderno` is a decimal integer is sorted by that integer. |
| `MangaPage.TryMap` | src/components/MangaPage.tsx:62-90 | A map whose callback may throw gives every result in order when no call throws, and fails exactly when one does. |
| `MangaPage.DeriveChapters` | src/components/MangaPage.tsx:62-90 | There is one record per list item in document order, and the whole list fails exactly when some item's link cannot be resolved. |
| `MangaPage.LoadedChapters` | src/components/MangaPage.tsx:51-102 | A non-empty chapter list appears only after a fetched page whose every link resolved, and it has one chapter per list item. |
| `MangaPage.LoadFailures` | src/components/MangaPage.tsx:51-55 | A failed fetch, zero list items or an unresolvable link leaves no chapters. |
| `MangaPage.LoadSucceeds` | src/components/MangaPage.tsx:62-99 | A successful load shows a permutation of the derived records, keeps equal keys in page order (for NaN keys, in the model's fixed order), and is newest first when every key is numeric. |
| `MangaPage.ImagesOf` | src/components/MangaPage.tsx:133-136 | There is one image per `img`, in document order, and `src` is the raw attribute or `""`. |
| `MangaPage.MangaView.constructor` | src/components/MangaPage.tsx:9-12 | The initial state: nothing selected, no chapters, not loading, no images. |
| `MangaPage.MangaView.Open` | src/components/MangaPage.tsx:14-19 | Without a manga nothing changes. With one, it is selected, loading starts and the chapter list URL is requested. |
| `MangaPage.MangaView.StartChapterLoad` | src/components/MangaPage.tsx:21-33 | Loading is on while the fetch is pending, the relay URL of the normalised link is requested, and nothing else changes. |
| `MangaPage.MangaView.FinishChapterLoad` | src/components/MangaPage.tsx:37-105 | The chapters become the loaded list, or `[]` on any failure. Loading is off on every path, and the images and selection are untouched. |
| `MangaPage.MangaView.StartChapterSelection` | src/components/MangaPage.tsx:108-113 | The images are cleared first, and the relay URL of the chapter link is requested. |
| `MangaPage.MangaView.FinishChapterSelection` | src/components/MangaPage.tsx:117-142 | A fetched page sets the images to its `img` sources. A failure leaves the images as they are. |
| `MangaPage.SelectChapter` | src/components/MangaPage.tsx:108-142 | After a selection the images are exactly the page's `img` sources, or empty when the fetch failed, and the chapters, the selection and the loading flag are unchanged. |

## Left out

- Network I/O, the CORS relay's behaviour, `DOMParser` and CSS-selector matching are not modelled. The browser does them, so they become parameters: a page is an `Option` of its items, and an element is a datatype of `Option` fields.
- `new URL(href, base)` (WHATWG URL resolution) is the parameter `resolve`, not a model of the URL standard.
- React hooks, `useEffect` scheduling, JSX rendering, the router (src/App.tsx is not part of this model), focus styling and `console` logging are not modelled. They are UI plumbing.
- SearchPage.HandleSearch: does not model the page's `loading` flag (src/components/SearchPage.tsx:12, 39). It is a UI-only spinner state.
- MangaPage.MangaView.FinishChapterLoad: overlapping loads or selections whose responses arrive out of order are not modelled. Each `Start…`/`Finish…` pair is taken as one uninterrupted exchange.
- ChapterOrder.SortDesc: with an order number `parseInt` cannot read, the comparator returns NaN and the engine's order is implementation-defined. The model fixes one stable insertion order. Only its permutation and same-key stability (`SortPermutes`, `SortStable`) are claimed for such input; descending order (`SortDescending`) needs every key numeric.
- JsNumber.ParseInt: works on unbounded integers. JavaScript numbers are doubles, so numerals beyond 2^53 lose precision, both in `parseInt` and in the comparator's subtraction.
- UriComponent.Encode: `encodeURIComponent` throws on a lone surrogate. A Dafny `char` is a Unicode scalar value, so that input cannot arise here.
- UriComponent.Decode: is not a full `decodeURIComponent`. Its percent step accepts either hexadecimal case, passes other ASCII characters through and rejects raw non-ASCII characters. It serves only to state that the encoding loses nothing.
- An order number that `parseInt` cannot read is not treated as 0. It stays NaN (`None`), so the comparator yields NaN and the sort treats the chapter as "equal" to every other (src/components/MangaPage.tsx:93-96).
- A search result's `link` is not resolved against any base URL. It is the raw `href` (src/components/SearchPage.tsx:26).
- A new search clears no held title, chapter or image record. `handleSearch` only navigates to `/results` (src/components/SearchPage.tsx:35).
