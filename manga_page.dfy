/**
 * The title page (`MangaPage`): on arrival it fetches the title's chapter list through a CORS
 * proxy, turns each `li.chapter-list-item` into a `ChapterResult` and sorts the list newest
 * first; picking a chapter fetches that chapter's page and lists its images. The component's
 * state hooks are the fields of `MangaView`; each `async` handler is split at its `await` into a
 * method that issues the request and one that receives the outcome.
 */
module MangaPage {
  import opened Wrappers
  import opened JsString
  import opened MangaTypes
  import opened Links
  import opened UriComponent
  import opened ChapterOrder
  import JsNumber

  const CorsProxy: string := "https://api.allorigins.win/raw?url="
  const UntitledChapter: string := "Chapter"

  /**
   * `${corsProxy}${encodeURIComponent(target)}`: the proxy's address, then the target encoded
   * so that it decodes back intact and holds nothing but `%` and unescaped characters; a target
   * that needs no escaping is appended as it stands.
   */
  function ProxyUrl(target: string): (url: string)
    ensures StartsWith(url, CorsProxy)
    ensures Decode(url[|CorsProxy|..]) == Some(target)
    ensures forall i | |CorsProxy| <= i < |url| :: url[i] == '%' || IsUnescaped(url[i])
    ensures (forall i | 0 <= i < |target| :: IsUnescaped(target[i])) ==> url == CorsProxy + target
  {
    DecodeEncode(target);
    EncodedAfter(CorsProxy, target);
    CorsProxy + Encode(target)
  }

  lemma EncodedAfter(prefix: string, target: string)
    ensures StartsWith(prefix + Encode(target), prefix)
    ensures (prefix + Encode(target))[|prefix|..] == Encode(target)
    ensures forall i | |prefix| <= i < |prefix + Encode(target)| ::
              (prefix + Encode(target))[i] == '%' || IsUnescaped((prefix + Encode(target))[i])
    ensures (forall i | 0 <= i < |target| :: IsUnescaped(target[i])) ==> prefix + Encode(target) == prefix + target
  {
    var e := Encode(target);
    assert forall i | |prefix| <= i < |prefix + e| :: (prefix + e)[i] == e[i - |prefix|];
    if forall i | 0 <= i < |target| :: IsUnescaped(target[i]) {
      EncodeKeepsUnescaped(target);
    }
  }

  /**
   * The proxy URL for a title's chapter list. The proxy hands the target back intact: the page
   * requested is the title's path on the site's origin, whatever host the scraped link named.
   */
  function ChapterListUrl(manga: MangaResult): (url: string)
    ensures StartsWith(url, CorsProxy)
    ensures Decode(url[|CorsProxy|..]) == Some(Origin + TitlePath(manga.link))
    ensures forall i | |CorsProxy| <= i < |url| :: url[i] == '%' || IsUnescaped(url[i])
  {
    var target := NormalisedLink(manga.link);
    assert target == target[..|Origin|] + target[|Origin|..];
    ProxyUrl(target)
  }

  /**
   * One `li.chapter-list-item` as the code reads it: its `data-chapterno` and `data-orderno`
   * attributes, the `href` of its first anchor and the texts of its `.chapter-number` and
   * `.chapter-stats`. `None` stands for a missing element or attribute alike.
   */
  datatype ChapterItem = ChapterItem(
    chapterNo: Option<string>,
    orderNo: Option<string>,
    href: Option<string>,
    titleText: Option<string>,
    statsText: Option<string>)

  /**
   * The record one list item becomes. `resolve(href, base)` is `new URL(href, base).href`, or
   * `None` when the constructor throws; a throw abandons the whole list. The record exists
   * exactly when the `href` (or "" without one) resolves against the origin, its link is that
   * resolution, and its order number and title are never empty.
   */
  function DeriveChapter(item: ChapterItem, resolve: (string, string) -> Option<string>): (r: Option<ChapterResult>)
    ensures r.Some? <==> resolve(OrEmpty(item.href), Origin).Some?
    ensures r.Some? ==> r.value.chapterLink == resolve(OrEmpty(item.href), Origin).value
    ensures r.Some? ==> r.value.orderNumber != "" && r.value.chapterTitle != ""
  {
    match resolve(OrEmpty(item.href), Origin)
    case None => None
    case Some(link) =>
      Some(ChapterResult(
        OrEmpty(item.chapterNo),
        link,
        TrimmedOr(item.titleText, UntitledChapter),
        TrimmedOr(item.statsText, ""),
        Or(Or(OrEmpty(item.orderNo), OrEmpty(item.chapterNo)), "0")))
  }

  /**
   * The chapter number is `data-chapterno` as written, or "" without it; the order number is
   * `data-orderno`, else `data-chapterno`, else "0", so it is never empty.
   */
  lemma NumberPolicy(item: ChapterItem, resolve: (string, string) -> Option<string>)
    requires DeriveChapter(item, resolve).Some?
    ensures var c := DeriveChapter(item, resolve).value;
      && c.chapterNumber == OrEmpty(item.chapterNo)
      && c.orderNumber != ""
      && (item.orderNo.Some? && item.orderNo.value != "" ==> c.orderNumber == item.orderNo.value)
      && (OrEmpty(item.orderNo) == "" && item.chapterNo.Some? && item.chapterNo.value != "" ==>
            c.orderNumber == item.chapterNo.value)
      && (OrEmpty(item.orderNo) == "" && OrEmpty(item.chapterNo) == "" ==> c.orderNumber == "0")
  {
  }

  /** The title is the trimmed `.chapter-number` text, or "Chapter" when it is missing or blank. */
  lemma ChapterTitlePolicy(item: ChapterItem, resolve: (string, string) -> Option<string>)
    requires DeriveChapter(item, resolve).Some?
    ensures var c := DeriveChapter(item, resolve).value;
      && (item.titleText.Some? && !AllWhitespace(item.titleText.value) ==>
            c.chapterTitle == Trim(item.titleText.value) != "")
      && (item.titleText.None? || AllWhitespace(item.titleText.value) ==> c.chapterTitle == UntitledChapter)
  {
    TrimmedOrCases(item.titleText, UntitledChapter);
  }

  /** The read time is the trimmed `.chapter-stats` text, "" when it is missing or blank. */
  lemma ReadTimePolicy(item: ChapterItem, resolve: (string, string) -> Option<string>)
    requires DeriveChapter(item, resolve).Some?
    ensures var c := DeriveChapter(item, resolve).value;
      && (item.statsText.Some? && !AllWhitespace(item.statsText.value) ==>
            c.chapterReadTime == Trim(item.statsText.value) != "")
      && (item.statsText.None? || AllWhitespace(item.statsText.value) ==> c.chapterReadTime == "")
  {
    TrimmedOrCases(item.statsText, "");
  }

  /**
   * A chapter whose `data-orderno` is a decimal integer is sorted by that integer; the
   * comparator's own `|| "0"` never applies to a derived record.
   */
  lemma DerivedSortKey(item: ChapterItem, resolve: (string, string) -> Option<string>, n: int)
    requires DeriveChapter(item, resolve).Some?
    requires item.orderNo == Some(JsNumber.IntToString(n))
    ensures SortKey(DeriveChapter(item, resolve).value) == Some(n)
  {
    var c := DeriveChapter(item, resolve).value;
    assert |JsNumber.NatToString(if n < 0 then -n else n)| > 0;
    NumeralKey(c, n);
  }

  /**
   * A map whose callback may throw: every result in order when `f` succeeds on every element,
   * `None` as soon as it fails on one.
   */
  function TryMap<A, B>(f: A -> Option<B>, items: seq<A>): (r: Option<seq<B>>)
    ensures r.Some? <==> forall i | 0 <= i < |items| :: f(items[i]).Some?
    ensures r.Some? ==> |r.value| == |items|
    ensures r.Some? ==> forall i | 0 <= i < |items| :: Some(r.value[i]) == f(items[i])
  {
    if items == [] then Some([])
    else
      match f(items[0])
      case None => None
      case Some(b) =>
        match TryMap(f, items[1..])
        case None =>
          assert forall i | 0 <= i < |items| - 1 :: items[1..][i] == items[i + 1];
          None
        case Some(bs) => Some([b] + bs)
  }

  /**
   * `Array.from(chapterItems).map(...)`: every item's record in document order, or `None` when
   * any item's link cannot be resolved.
   */
  function DeriveChapters(items: seq<ChapterItem>, resolve: (string, string) -> Option<string>): (r: Option<seq<ChapterResult>>)
    ensures r.Some? <==> forall i | 0 <= i < |items| :: DeriveChapter(items[i], resolve).Some?
    ensures r.Some? ==> |r.value| == |items|
    ensures r.Some? ==> forall i | 0 <= i < |items| :: Some(r.value[i]) == DeriveChapter(items[i], resolve)
  {
    TryMap(item => DeriveChapter(item, resolve), items)
  }

  /**
   * The chapter list a finished load leaves behind: empty when the fetch failed, the page had
   * no chapter item or a link could not be resolved, and otherwise the derived records sorted
   * newest first.
   */
  function LoadedChapters(page: Option<seq<ChapterItem>>, resolve: (string, string) -> Option<string>): (r: seq<ChapterResult>)
    ensures r != [] ==> page.Some? && DeriveChapters(page.value, resolve).Some? && |r| == |page.value|
    ensures page.Some? && DeriveChapters(page.value, resolve).Some? ==> |r| == |page.value|
  {
    match page
    case None => []
    case Some(items) =>
      if |items| == 0 then []
      else
        match DeriveChapters(items, resolve)
        case None => []
        case Some(cs) => SortDesc(SortKey, cs)
  }

  /** Any failure, and an empty page, leaves no chapters. */
  lemma LoadFailures(page: Option<seq<ChapterItem>>, resolve: (string, string) -> Option<string>)
    ensures page.None? ==> LoadedChapters(page, resolve) == []
    ensures page == Some([]) ==> LoadedChapters(page, resolve) == []
    ensures page.Some? && (exists i | 0 <= i < |page.value| :: DeriveChapter(page.value[i], resolve).None?) ==>
              LoadedChapters(page, resolve) == []
  {
  }

  /**
   * A successful load shows every derived chapter exactly once, chapters that share an order
   * key in page order, and, when every order number is numeric, newest first.
   */
  lemma LoadSucceeds(items: seq<ChapterItem>, resolve: (string, string) -> Option<string>)
    requires DeriveChapters(items, resolve).Some?
    ensures var cs := DeriveChapters(items, resolve).value;
      var shown := LoadedChapters(Some(items), resolve);
      && multiset(shown) == multiset(cs)
      && (forall k :: WithKey(SortKey, shown, k) == WithKey(SortKey, cs, k))
      && (AllKeyed(SortKey, cs) ==> AllKeyed(SortKey, shown) && Descending(SortKey, shown))
  {
    var cs := DeriveChapters(items, resolve).value;
    SortPermutes(SortKey, cs);
    forall k ensures WithKey(SortKey, SortDesc(SortKey, cs), k) == WithKey(SortKey, cs, k) {
      SortStable(SortKey, cs, k);
    }
    if AllKeyed(SortKey, cs) {
      SortDescending(SortKey, cs);
    }
  }

  /** One `#chapter-reader img` as the code reads it: its `src` attribute. */
  datatype ImageItem = ImageItem(src: Option<string>)

  /** `Array.from(imageItems).map(item => ({ src: item.getAttribute("src") || "" }))`. */
  function ImagesOf(items: seq<ImageItem>): (images: seq<ImageResult>)
    ensures |images| == |items|
    ensures forall i | 0 <= i < |items| :: images[i].src == OrEmpty(items[i].src)
  {
    if items == [] then [] else [ImageResult(OrEmpty(items[0].src))] + ImagesOf(items[1..])
  }

  /** The state of one mounted title page. */
  class MangaView {
    var selectedManga: Option<MangaResult>
    var chapters: seq<ChapterResult>
    var loadingChapters: bool
    var images: seq<ImageResult>

    /** The initial state: nothing selected, no chapters, not loading, no images. */
    constructor ()
      ensures selectedManga == None && chapters == [] && !loadingChapters && images == []
    {
      selectedManga := None;
      chapters := [];
      loadingChapters := false;
      images := [];
    }

    /**
     * The effect run when the route's manga changes: without one nothing happens; with one it
     * is selected and its chapter list requested. The result is the URL fetched, if any.
     */
    method Open(manga: Option<MangaResult>) returns (request: Option<string>)
      modifies this
      ensures manga.None? ==> request == None && unchanged(this)
      ensures manga.Some? ==>
                && request == Some(ChapterListUrl(manga.value))
                && selectedManga == manga
                && loadingChapters
                && unchanged(`chapters, `images)
    {
      if manga.None? {
        return None;
      }
      selectedManga := manga;
      var url := StartChapterLoad(manga.value);
      request := Some(url);
    }

    /** `fetchChapters` up to its `fetch`: the spinner is on and the proxy URL is returned. */
    method StartChapterLoad(manga: MangaResult) returns (url: string)
      modifies this
      ensures url == ChapterListUrl(manga)
      ensures loadingChapters
      ensures unchanged(`selectedManga, `chapters, `images)
    {
      url := ChapterListUrl(manga);
      loadingChapters := true;
    }

    /**
     * `fetchChapters` after its `fetch`: `page` is the list of chapter items, or `None` when the
     * fetch or reading the response threw. Whatever happens the spinner is turned off.
     */
    method FinishChapterLoad(page: Option<seq<ChapterItem>>, resolve: (string, string) -> Option<string>)
      modifies this
      ensures chapters == LoadedChapters(page, resolve)
      ensures !loadingChapters
      ensures unchanged(`selectedManga, `images)
    {
      if page.None? || |page.value| == 0 {
        chapters := [];
      } else {
        var derived := DeriveChapters(page.value, resolve);
        if derived.None? {
          chapters := [];
        } else {
          var cs := derived.value;
          var a := new ChapterResult[|cs|](i requires 0 <= i < |cs| => cs[i]);
          assert a[..] == cs;
          SortChapters(a);
          chapters := a[..];
        }
      }
      loadingChapters := false;
    }

    /** `handleChapterSelection` up to its `fetch`: the old images go, the proxy URL is returned. */
    method StartChapterSelection(chapter: ChapterResult) returns (url: string)
      modifies this
      ensures url == ProxyUrl(chapter.chapterLink)
      ensures images == []
      ensures unchanged(`selectedManga, `chapters, `loadingChapters)
    {
      images := [];
      url := ProxyUrl(chapter.chapterLink);
    }

    /**
     * `handleChapterSelection` after its `fetch`: `page` is the list of reader images, or `None`
     * when the fetch threw, in which case the images are left as they are.
     */
    method FinishChapterSelection(page: Option<seq<ImageItem>>)
      modifies this
      ensures page.None? ==> images == old(images)
      ensures page.Some? ==> images == ImagesOf(page.value)
      ensures unchanged(`selectedManga, `chapters, `loadingChapters)
    {
      if page.Some? {
        if |page.value| == 0 {
          images := [];
        } else {
          images := ImagesOf(page.value);
        }
      }
    }
  }

  /**
   * Selecting a chapter and receiving its page shows exactly that page's images; a failed fetch
   * shows none, because the selection already cleared them.
   */
  method SelectChapter(view: MangaView, chapter: ChapterResult, page: Option<seq<ImageItem>>) returns (url: string)
    modifies view
    ensures url == ProxyUrl(chapter.chapterLink)
    ensures Decode(url[|CorsProxy|..]) == Some(chapter.chapterLink)
    ensures view.images == (if page.Some? then ImagesOf(page.value) else [])
    ensures unchanged(view`chapters, view`selectedManga, view`loadingChapters)
  {
    url := view.StartChapterSelection(chapter);
    view.FinishChapterSelection(page);
  }
}
