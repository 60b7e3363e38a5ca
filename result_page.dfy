/**
 * Picking a title on the results page (`handleMangaSelection`): the record's link is moved to
 * the site's origin and the title id is read from its path; without an id nothing happens,
 * otherwise the app goes to "/manga/<id>" carrying the updated record.
 */
module ResultPage {
  import opened JsString
  import opened MangaTypes
  import opened Links

  const MangaRoute: string := "/manga/"

  datatype Selection =
    | Stay
    | Navigate(route: string, manga: MangaResult)

  /** `handleMangaSelection(manga)`. */
  function SelectManga(manga: MangaResult): (sel: Selection)
    ensures sel.Navigate? <==> |Segments(TitlePath(manga.link))| >= 2
    ensures sel.Navigate? ==>
              && StartsWith(sel.route, MangaRoute)
              && sel.route[|MangaRoute|..] == Segments(TitlePath(manga.link))[1]
              && '/' !in sel.route[|MangaRoute|..]
    ensures sel.Navigate? ==>
              && sel.manga.title == manga.title
              && sel.manga.author == manga.author
              && sel.manga.summary == manga.summary
              && StartsWith(sel.manga.link, Origin)
              && sel.manga.link[|Origin|..] == TitlePath(manga.link)
  {
    var cleanPath := TitlePath(manga.link);
    var mangaId := MangaId(cleanPath);
    var updated := manga.(link := Origin + cleanPath);
    if mangaId == "" then Stay
    else
      assert (MangaRoute + mangaId)[|MangaRoute|..] == mangaId;
      Navigate(MangaRoute + mangaId, updated)
  }

  /**
   * Selecting the record that a selection carries leads to the same place with the same
   * record: the title page, which normalises the link again, sees the link unchanged.
   */
  lemma SelectionIsStable(manga: MangaResult)
    ensures var sel := SelectManga(manga);
            sel.Navigate? ==> SelectManga(sel.manga) == sel
  {
    TitlePathOfNormalised(manga.link);
    NormalisedLinkIdempotent(manga.link);
  }

  /** A title path with an id leads to that id's route, carrying the normalised link. */
  lemma SelectByTitleId(manga: MangaResult, id: string)
    requires id != "" && MangaId(TitlePath(manga.link)) == id
    ensures SelectManga(manga) == Navigate(MangaRoute + id, manga.(link := NormalisedLink(manga.link)))
  {
  }

  /**
   * A hit whose link carries any host and the path "/<kind>/<id>..." leads to "/manga/<id>",
   * with the link moved onto the site's origin and the path kept.
   */
  lemma SelectOnAnyHost(manga: MangaResult, scheme: string, host: string, kind: string, id: string, rest: string)
    requires scheme == "http://" || scheme == "https://"
    requires host != "" && '/' !in host
    requires kind != "" && '/' !in kind && id != "" && '/' !in id
    requires rest == "" || rest[0] == '/'
    requires manga.link == scheme + host + ("/" + kind + "/" + id + rest)
    ensures SelectManga(manga) == Navigate(MangaRoute + id, manga.(link := Origin + ("/" + kind + "/" + id + rest)))
  {
    var path := "/" + kind + "/" + id + rest;
    NormalisedLinkIgnoresHost(scheme, host, path);
    assert TitlePath(manga.link) == (Origin + path)[|Origin|..] == path;
    MangaIdOf(kind, id, rest);
    SelectByTitleId(manga, id);
  }
}
