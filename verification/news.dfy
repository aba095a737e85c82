/** The shapes of the news data (src/types/news.ts). */
module News {
  import opened Wrappers

  /** The publisher of an article; `id` is null for some sources. */
  datatype Source = Source(id: Option<string>, name: string)

  /** A news item. Only `url` matters to the store: it is the article's identity. */
  datatype Article = Article(
    source: Source,
    author: Option<string>,
    title: string,
    description: Option<string>,
    url: string,
    urlToImage: Option<string>,
    publishedAt: string,
    content: Option<string>)

  /** The envelope the news API answers with. */
  datatype NewsResponse = NewsResponse(status: string, totalResults: int, articles: seq<Article>)

  datatype NewsCategory =
    | General
    | Business
    | Technology
    | Entertainment
    | Sports
    | Science
    | Health

  /** A saved article with its own id and the time it was saved. */
  datatype Bookmark = Bookmark(id: string, article: Article, savedAt: string)
}
