/**
 * The search flow (`handleSearch`): the query goes into the search URL as it is typed, the
 * listing page is fetched, and every `.novel-item` becomes one `MangaResult`, each field falling
 * back to a fixed text when its element or attribute is missing or blank.
 */
module SearchPage {
  import opened Wrappers
  import opened JsString
  import opened MangaTypes

  const SearchPrefix: string := "https://www.mgeko.cc/search/?search="
  const ResultsRoute: string := "/results"

  const UnknownTitle: string := "Unknown Title"
  const NoLink: string := "#"
  const UnknownAuthor: string := "Unknown Author"
  const NoSummary: string := "No summary available"

  /**
   * One `.novel-item` as the code reads it: the text of its `.novel-title`, the `href` of its
   * first anchor, the text of its `.text1row` and the `title` attribute of its `.summary`.
   * `None` stands for a missing element or attribute alike.
   */
  datatype NovelItem = NovelItem(
    titleText: Option<string>,
    href: Option<string>,
    authorText: Option<string>,
    summaryTitle: Option<string>)

  /** The search URL: the query is appended with no percent-encoding at all. */
  function SearchUrl(query: string): (url: string)
    ensures StartsWith(url, SearchPrefix)
    ensures url[|SearchPrefix|..] == query
  {
    SearchPrefix + query
  }

  /** What every scraped record satisfies: no empty field, title and author trimmed. */
  predicate WellFormed(m: MangaResult)
  {
    && m.title != "" && NoOuterWhitespace(m.title)
    && m.link != ""
    && m.author != "" && NoOuterWhitespace(m.author)
    && m.summary != ""
  }

  /** The record one listing item becomes; whatever the markup, it is well formed. */
  function ToMangaResult(item: NovelItem): (m: MangaResult)
    ensures WellFormed(m)
  {
    DefaultsAreTrimmed();
    MangaResult(
      TrimmedOr(item.titleText, UnknownTitle),
      AttributeOr(item.href, NoLink),
      TrimmedOr(item.authorText, UnknownAuthor),
      AttributeOr(item.summaryTitle, NoSummary))
  }

  /**
   * The title is the trimmed text of `.novel-title` when that element is there and not blank,
   * and "Unknown Title" otherwise.
   */
  lemma TitlePolicy(item: NovelItem)
    ensures var m := ToMangaResult(item);
      && (item.titleText.Some? && !AllWhitespace(item.titleText.value) ==> m.title == Trim(item.titleText.value))
      && (item.titleText.None? || AllWhitespace(item.titleText.value) ==> m.title == UnknownTitle)
  {
    TrimmedOrCases(item.titleText, UnknownTitle);
  }

  /** The author is the trimmed text of `.text1row` when not blank, "Unknown Author" otherwise. */
  lemma AuthorPolicy(item: NovelItem)
    ensures var m := ToMangaResult(item);
      && (item.authorText.Some? && !AllWhitespace(item.authorText.value) ==> m.author == Trim(item.authorText.value))
      && (item.authorText.None? || AllWhitespace(item.authorText.value) ==> m.author == UnknownAuthor)
  {
    TrimmedOrCases(item.authorText, UnknownAuthor);
  }

  /**
   * The link is the raw `href` and the summary the raw `title` attribute, neither resolved nor
   * trimmed; an empty or missing attribute gives "#" and "No summary available".
   */
  lemma AttributePolicy(item: NovelItem)
    ensures var m := ToMangaResult(item);
      && (item.href.Some? && item.href.value != "" ==> m.link == item.href.value)
      && (item.href.None? || item.href.value == "" ==> m.link == NoLink)
      && (item.summaryTitle.Some? && item.summaryTitle.value != "" ==> m.summary == item.summaryTitle.value)
      && (item.summaryTitle.None? || item.summaryTitle.value == "" ==> m.summary == NoSummary)
  {
  }

  lemma DefaultsAreTrimmed()
    ensures UnknownTitle != "" && NoOuterWhitespace(UnknownTitle)
    ensures UnknownAuthor != "" && NoOuterWhitespace(UnknownAuthor)
  {
    assert UnknownTitle[0] == 'U' && UnknownTitle[|UnknownTitle| - 1] == 'e';
    assert UnknownAuthor[0] == 'U' && UnknownAuthor[|UnknownAuthor| - 1] == 'r';
  }

  /** `Array.from(mangaItems).map(...)`: one record per item, in document order. */
  function ToMangaResults(items: seq<NovelItem>): (rs: seq<MangaResult>)
    ensures |rs| == |items|
    ensures forall i | 0 <= i < |items| :: rs[i] == ToMangaResult(items[i])
    ensures forall i | 0 <= i < |rs| :: WellFormed(rs[i])
  {
    if items == [] then [] else [ToMangaResult(items[0])] + ToMangaResults(items[1..])
  }

  datatype SearchOutcome =
    | StayOnSearch
    | GoToResults(route: string, results: seq<MangaResult>)

  /**
   * `handleSearch`: `fetchPage(url)` is the list of `.novel-item`s on the page at `url`, or
   * `None` when fetching or reading the response throws. A failure leaves the app where it is;
   * otherwise it goes to "/results" with exactly the mapped list, every record well formed.
   */
  function HandleSearch(query: string, fetchPage: string -> Option<seq<NovelItem>>): (o: SearchOutcome)
    ensures o.GoToResults? <==> fetchPage(SearchUrl(query)).Some?
    ensures o.GoToResults? ==>
              var items := fetchPage(SearchUrl(query)).value;
              && o.route == ResultsRoute
              && |o.results| == |items|
              && (forall i | 0 <= i < |items| :: o.results[i] == ToMangaResult(items[i]))
              && forall i | 0 <= i < |o.results| :: WellFormed(o.results[i])
  {
    match fetchPage(SearchUrl(query))
    case None => StayOnSearch
    case Some(items) => GoToResults(ResultsRoute, ToMangaResults(items))
  }

  /** A page with no listing item leads to an empty results list, not to a failure. */
  lemma NoItemsNoResults(query: string, fetchPage: string -> Option<seq<NovelItem>>)
    requires fetchPage(SearchUrl(query)) == Some([])
    ensures HandleSearch(query, fetchPage) == GoToResults(ResultsRoute, [])
  {
  }
}
