# News reader: bookmark and offline-article store

This project models the persistence layer of a news-reading web client. The
layer is `src/lib/storage.ts` together with the record types of
`src/types/news.ts`. It keeps two lists in the browser's key-value storage:

- **bookmarks** under the key `news_app_bookmarks`. Each bookmark is an `{id, article, savedAt}` record, and the newest comes first.
- **offline articles** under `news_app_offline_articles`. Writes keep this list unique by article `url`.

The four writing operations read a whole list, change it with `filter`, a
prepend or a `push`, and write it back under their own key;
`saveArticleOffline` writes only when the url is new. The five reading
operations use `some`, `find`, or nothing beyond the read.

Files:

- `wrappers.dfy`: `Option`, and the `Result` of a call that may throw.
- `news.dfy`: `Article`, `Source`, `Bookmark`, `NewsCategory` and `NewsResponse`.
- `storage.dfy`: module `Storage`. The functions over lists model `some`, `find` and `filter`. The lemmas state the store's properties. `LocalStore` is a class whose two fields are what the two storage keys hold. Its methods are the four writing operations, and its functions are the five reading ones.
- `callers.dfy`: module `Callers`. It models how the pages call the store: the bookmark toggle of the news list and of the article page, and the "clear all" loop of the bookmarks page.

Each storage key is modelled as a `Stored<T>` value with four cases:

- `Missing`: `getItem` returned null.
- `EmptyText`: the key holds the empty string.
- `Json(items)`: the key holds the JSON of an array.
- `Malformed`: the key holds text that `JSON.parse` rejects.

Reading follows `stored ? JSON.parse(stored) : []`. A falsy value reads as
the empty list. Malformed text throws, and `storage.ts` catches nothing. Among
the callers, only the article page's loading effect catches it
(`src/pages/ArticleDetail.tsx` lines 32-71); the handlers modelled in
`Callers` do not. Every operation therefore returns a `Result`, and
`Err(JsonSyntaxError)` stands for that exception. Where an operation throws, the store is left unchanged.

Malformed stored text is not read as an empty list: `JSON.parse` throws and
the store does not catch it (`src/lib/storage.ts` lines 11 and 59). Bookmark ids are
not unique: an id is `"bookmark-"` followed by the millisecond clock, so two
saves in the same millisecond share an id, and `removeBookmark` then deletes
both (`RemoveNewestOfTwoSaves`).

The clock (`Date.now()`) and the timestamp text (`new Date().toISOString()`)
are parameters: `now: nat` and `savedAt: string`.

## Model

| member | source | states |
|---|---|---|
| `Storage.Load` | src/lib/storage.ts:9-12 | A missing or empty-string value reads as the empty list, and so does a stored `[]`, and nothing else does. Reading throws exactly when the text is malformed. The same reading is used at lines 57-60. |
| `Storage.LocalStore.constructor` | src/lib/storage.ts:9-12 | In a never-written store both lists read as empty. `isArticleBookmarked` and `isArticleSavedOffline` are false for every url. |
| `Storage.LocalStore.GetBookmarks` | src/lib/storage.ts:9-12 | `getBookmarks` throws exactly when the stored bookmark text is malformed. A missing or empty key gives `[]`, and a key holding JSON gives its list. |
| `Storage.LocalStore.GetOfflineArticles` | src/lib/storage.ts:57-60 | `getOfflineArticles` throws exactly when the stored offline text is malformed. A missing or empty key gives `[]`, and a key holding JSON gives its list. |
| `Storage.DecimalStringInjective` | src/lib/storage.ts:16 | Two whole numbers have the same decimal text iff they are equal. |
| `Storage.BookmarkId` | src/lib/storage.ts:16 | Every id is `"bookmark-"` followed by at least one character. |
| `Storage.BookmarkIdsCollideIff` | src/lib/storage.ts:16 | Two ids are equal iff they were made from the same clock reading. |
| `Storage.HasBookmarkFor` | src/lib/storage.ts:38 | `some` over the bookmarks holds iff some bookmark's article url equals the url exactly. |
| `Storage.FirstBookmarkIndex` | src/lib/storage.ts:43 | It returns no index iff no bookmark has the url. Otherwise the index is a match, and no earlier bookmark matches. |
| `Storage.FindBookmark` | src/lib/storage.ts:43 | `find` returns nothing iff no bookmark has the url. Otherwise it returns a match at an index with no earlier match. |
| `Storage.FindAfterPrepend` | src/lib/storage.ts:24-43 | After a bookmark is prepended, its url is bookmarked and `find` returns that bookmark, even when the article was bookmarked before. |
| `Storage.SaveOrder` | src/lib/storage.ts:24 | After saving `a` and then `b`, the list is `b`'s bookmark, then `a`'s, then the old list. |
| `Storage.WithoutId` | src/lib/storage.ts:32 | The result holds exactly the bookmarks with another id and is no longer than the input. It equals the input iff no bookmark had the id, so removing an absent id changes nothing. |
| `Storage.WithoutIdConcat` | src/lib/storage.ts:32 | Removal distributes over concatenation, so the survivors keep their order. |
| `Storage.WithoutIdIdempotent` | src/lib/storage.ts:30-34 | Removing an id twice gives the same list as removing it once. |
| `Storage.HasBookmarkAfterRemoval` | src/lib/storage.ts:32-38 | After removing an id, a url is still bookmarked iff some bookmark with that url had another id. |
| `Storage.RemoveUndoesSave` | src/lib/storage.ts:14-34 | Removing a new bookmark's id gives back the list from before the save iff no older bookmark has the same id. |
| `Storage.RemoveNewestOfTwoSaves` | src/lib/storage.ts:16-32 | Take two saves, and remove the id of the newer one. The newer bookmark is always gone. The older one survives iff the two clock readings differ. |
| `Storage.HasArticleFor` | src/lib/storage.ts:51 | `some` over the offline articles holds iff some article's url equals the url exactly. |
| `Storage.AddOffline` | src/lib/storage.ts:47-55 | If the url was already present, the list is unchanged. Otherwise the article is appended after the old list. Either way the url is present afterwards. Distinct urls stay distinct. |
| `Storage.AddOfflineIdempotent` | src/lib/storage.ts:47-55 | Saving an article offline twice gives the same list as saving it once. |
| `Storage.SaveOfflineTwiceLeavesOne` | src/lib/storage.ts:51-52 | Start from distinct urls and save two articles with the same url. Exactly one article with that url remains. |
| `Storage.DistinctUrlsCountAtMostOne` | src/lib/storage.ts:51-52 | If the urls are distinct, each url occurs at most once. |
| `Storage.WithoutUrl` | src/lib/storage.ts:64 | The result holds exactly the articles with another url, and none with this url. It equals the input iff the url was absent. |
| `Storage.WithoutUrlConcat` | src/lib/storage.ts:64 | Offline removal distributes over concatenation, so the survivors keep their order. |
| `Storage.WithoutUrlKeepsDistinct` | src/lib/storage.ts:62-66 | Removing a url keeps the offline urls distinct. |
| `Storage.LocalStore.IsArticleBookmarked` | src/lib/storage.ts:36-39 | It throws exactly on malformed text. Otherwise it is true iff some stored bookmark's article has exactly this url. |
| `Storage.LocalStore.GetBookmarkByArticleUrl` | src/lib/storage.ts:41-44 | It throws exactly on malformed text. It is absent iff `isArticleBookmarked` is false. Otherwise it is the result of `FindBookmark` on the stored list: the stored bookmark of this url with the lowest index, which is the most recently saved one. |
| `Storage.LocalStore.IsArticleSavedOffline` | src/lib/storage.ts:68-71 | It throws exactly on malformed text. Otherwise it is true iff some stored offline article has exactly this url. |
| `Storage.LocalStore.SaveBookmark` | src/lib/storage.ts:14-28 | The new bookmark goes in front of the old list. It is returned and then found by its url, and the list grows by one even for a duplicate. The offline list is unchanged. On malformed text it throws and nothing changes. |
| `Storage.LocalStore.RemoveBookmark` | src/lib/storage.ts:30-34 | The key is rewritten with the survivors of the old list, and no stored bookmark has the id afterwards. The offline list is unchanged. On malformed text it throws and nothing changes. |
| `Storage.LocalStore.SaveArticleOffline` | src/lib/storage.ts:47-55 | If the url is present, nothing is written. Otherwise the article is appended. Either way the url is saved offline afterwards, and the bookmarks are unchanged. |
| `Storage.LocalStore.RemoveOfflineArticle` | src/lib/storage.ts:62-66 | The key is rewritten with the articles of other urls, and afterwards the url is not saved offline. The bookmarks are unchanged. |
| `Callers.WithoutIds` | src/pages/Bookmarks.tsx:28 | The result holds exactly the bookmarks whose id is outside the set. |
| `Callers.WithoutIdsStep` | src/pages/Bookmarks.tsx:28 | Each further `removeBookmark` call removes one more id from the set. |
| `Callers.WithoutCoveringIds` | src/pages/Bookmarks.tsx:28 | Removing a set of ids that covers every bookmark leaves nothing. |
| `Callers.ClearAllBookmarks` | src/pages/Bookmarks.tsx:27-34 | Removing each id of the page's list leaves the bookmarks whose id is not in that list. When the page's list is the stored one, the store ends empty. On malformed text the first call throws and nothing changes. |
| `Callers.ToggleOffClearsUrlIff` | src/components/NewsList.tsx:18-21 | Removing the first match's id un-bookmarks the url iff every bookmark of that url shares that id. |
| `Callers.ToggleBookmark` | src/components/NewsList.tsx:17-35 | If the url is bookmarked, the first match's id is removed and the flag becomes false. Otherwise the article is saved, the url becomes bookmarked and the flag becomes true. |
| `Callers.ToggleBookmarkInDetail` | src/pages/ArticleDetail.tsx:77-98 | With the page's flag clear, the article is saved even if it is already bookmarked. With the flag set, the first match's id is removed; if nothing matches, nothing changes and the flag stays set. |

## Left out

- JSON serialisation is not modelled. A key holds the list it would parse to, so the model assumes the JSON round trip keeps every record.
- Stored text that parses as JSON but is not an array is not modelled separately; the model treats it like malformed text. The code does not always throw on it: `saveBookmark` spreads a stored JSON string into its characters and writes them after the new bookmark, and the JSON text `""` (a quoted empty string) reads with length 0 on the bookmarks page. Other non-array values make the next `some`, `find`, `filter` or spread throw.
- Storage failures from the environment are not modelled, for example `setItem` running out of quota. The model has no error for a write.
- `Date.now()` and `toISOString()` are replaced by the parameters `now` and `savedAt`. The id's number text is the plain decimal form, which is how a millisecond count below 10^21 prints.
- Concurrent access from several tabs or windows to the same storage is not modelled. The code is single-threaded.
- `src/lib/api.ts`, the network gateway with its mock generators, is not part of this model.
- The rendering, routing, toasts and local React state of the pages and components are not part of this model. Only their calls into the store are modelled.
