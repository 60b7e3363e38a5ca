/** The three records that flow between the pages (src/types/manga.ts); every field is a string. */
module MangaTypes {

  /** One search hit: `link` may be relative or carry any host. */
  datatype MangaResult = MangaResult(title: string, link: string, author: string, summary: string)

  /** One chapter of a title; `orderNumber` is a numeral used only to order the list. */
  datatype ChapterResult = ChapterResult(
    chapterNumber: string,
    chapterLink: string,
    chapterTitle: string,
    chapterReadTime: string,
    orderNumber: string)

  /** One page image of a chapter, `src` as written in the markup. */
  datatype ImageResult = ImageResult(src: string)
}
