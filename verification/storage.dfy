/**
 * The bookmark and offline-article store (src/lib/storage.ts).
 *
 * Two keys of the browser's key-value storage each hold a JSON array: the
 * bookmarks, newest first, and the articles saved for offline reading. The
 * four writing operations read a whole array, change it with `filter`, a
 * prepend or a `push`, and write it back under their own key;
 * `saveArticleOffline` writes only when the url is new. The five reading
 * operations use `some`, `find`, or nothing beyond the read.
 */
module Storage {
  import opened Wrappers
  import opened News

  /** The prefix of every bookmark id. */
  const BookmarkIdPrefix: string := "bookmark-"

  // ---------------------------------------------------------------------
  // What one storage key holds, and how it is read
  // ---------------------------------------------------------------------

  /**
   * The content of one storage key, already seen through the JSON layer:
   * nothing (`getItem` answers null), the empty string, the JSON text of an
   * array, or text that `JSON.parse` rejects.
   */
  datatype Stored<T> =
    | Missing
    | EmptyText
    | Json(items: seq<T>)
    | Malformed

  /**
   * Reading a key: a falsy value (null or "") reads as the empty list, JSON
   * text reads as its array, and malformed text makes `JSON.parse` throw,
   * which the store does not catch.
   */
  function Load<T>(item: Stored<T>): (r: Result<seq<T>>)
    ensures r.Err? <==> item.Malformed?
    ensures r == Ok([]) <==> item.Missing? || item.EmptyText? || item == Json([])
    ensures item.Json? ==> r == Ok(item.items)
  {
    match item
    case Missing => Ok([])
    case EmptyText => Ok([])
    case Json(items) => Ok(items)
    case Malformed => Err(JsonSyntaxError)
  }

  // ---------------------------------------------------------------------
  // Bookmark ids: `bookmark-${Date.now()}`
  // ---------------------------------------------------------------------

  /** The character of one decimal digit. */
  function Digit(d: nat): (c: char)
    requires d < 10
  {
    ('0' as int + d) as char
  }

  /** The decimal text of a whole number, as a template literal prints it. */
  function DecimalString(n: nat): (s: string)
    ensures |s| >= 1
    ensures |s| == 1 <==> n < 10
    ensures forall i :: 0 <= i < |s| ==> '0' <= s[i] <= '9'
    decreases n
  {
    if n < 10 then [Digit(n)] else DecimalString(n / 10) + [Digit(n % 10)]
  }

  /** Different numbers print differently. */
  lemma {:induction false} DecimalStringInjective(m: nat, n: nat)
    ensures DecimalString(m) == DecimalString(n) <==> m == n
    decreases n
  {
    if DecimalString(m) == DecimalString(n) {
      var s := DecimalString(m);
      if m >= 10 && n >= 10 {
        assert DecimalString(m / 10) == s[..|s| - 1] == DecimalString(n / 10);
        assert Digit(m % 10) == s[|s| - 1] == Digit(n % 10);
        DecimalStringInjective(m / 10, n / 10);
      } else if m < 10 && n < 10 {
        assert Digit(m) == s[0] == Digit(n);
      }
    }
  }

  /** The id `saveBookmark` gives a bookmark created at clock reading `now`. */
  function BookmarkId(now: nat): (id: string)
    ensures |id| > |BookmarkIdPrefix| && id[..|BookmarkIdPrefix|] == BookmarkIdPrefix
  {
    BookmarkIdPrefix + DecimalString(now)
  }

  /** Ids depend on the clock alone: two saves share an id iff they read the same clock. */
  lemma BookmarkIdsCollideIff(m: nat, n: nat)
    ensures BookmarkId(m) == BookmarkId(n) <==> m == n
  {
    if BookmarkId(m) == BookmarkId(n) {
      assert DecimalString(m) == BookmarkId(m)[|BookmarkIdPrefix|..];
      assert DecimalString(n) == BookmarkId(n)[|BookmarkIdPrefix|..];
      DecimalStringInjective(m, n);
    }
  }

  // ---------------------------------------------------------------------
  // The bookmark list
  // ---------------------------------------------------------------------

  /** `bookmarks.some(b => b.article.url === url)`: exact string equality. */
  function HasBookmarkFor(bs: seq<Bookmark>, url: string): (r: bool)
    ensures r <==> exists i :: 0 <= i < |bs| && bs[i].article.url == url
  {
    if |bs| == 0 then false
    else if bs[0].article.url == url then true
    else
      var rest := HasBookmarkFor(bs[1..], url);
      assert forall i :: 1 <= i < |bs| ==> bs[i] == bs[1..][i - 1];
      rest
  }

  /** The index of the first bookmark of an article url, if any. */
  function FirstBookmarkIndex(bs: seq<Bookmark>, url: string): (r: Option<nat>)
    ensures r.None? <==> !HasBookmarkFor(bs, url)
    ensures r.Some? ==>
      && r.value < |bs|
      && bs[r.value].article.url == url
      && forall j :: 0 <= j < r.value ==> bs[j].article.url != url
  {
    if |bs| == 0 then None
    else if bs[0].article.url == url then Some(0)
    else
      match FirstBookmarkIndex(bs[1..], url)
      case None => None
      case Some(k) =>
        assert forall j :: 1 <= j < k + 1 ==> bs[j] == bs[1..][j - 1];
        Some(k + 1)
  }

  /**
   * `bookmarks.find(b => b.article.url === url)`: absent iff no bookmark has
   * the url, and otherwise the match with the lowest index, which is the most
   * recently saved one.
   */
  function FindBookmark(bs: seq<Bookmark>, url: string): (r: Option<Bookmark>)
    ensures r.None? <==> !HasBookmarkFor(bs, url)
    ensures r.Some? ==> r.value.article.url == url
    ensures r.Some? ==>
      exists k :: 0 <= k < |bs| && bs[k] == r.value && (forall j :: 0 <= j < k ==> bs[j].article.url != url)
  {
    match FirstBookmarkIndex(bs, url)
    case None => None
    case Some(k) => Some(bs[k])
  }

  /** The bookmark `saveBookmark` creates. */
  function NewBookmark(article: Article, now: nat, savedAt: string): (b: Bookmark)
  {
    Bookmark(BookmarkId(now), article, savedAt)
  }

  /**
   * After a bookmark is prepended, looking up its url finds that bookmark,
   * whatever the list held before, duplicates of the article included.
   */
  lemma FindAfterPrepend(bs: seq<Bookmark>, b: Bookmark)
    ensures HasBookmarkFor([b] + bs, b.article.url)
    ensures FindBookmark([b] + bs, b.article.url) == Some(b)
  {
    assert ([b] + bs)[0] == b;
  }

  /** Saving `a` and then `b` puts `b` first and `a` second. */
  lemma SaveOrder(bs: seq<Bookmark>, a: Article, b: Article, now1: nat, now2: nat, at1: string, at2: string)
    ensures var after := [NewBookmark(b, now2, at2)] + ([NewBookmark(a, now1, at1)] + bs);
      && |after| == |bs| + 2
      && after[0].article == b && after[1].article == a
      && after[2..] == bs
  {
    var after := [NewBookmark(b, now2, at2)] + ([NewBookmark(a, now1, at1)] + bs);
    assert after[2..] == bs;
  }

  /** `bookmarks.filter(b => b.id !== id)`. */
  function WithoutId(bs: seq<Bookmark>, id: string): (r: seq<Bookmark>)
    ensures forall b :: b in r <==> b in bs && b.id != id
    ensures |r| <= |bs|
    ensures r == bs <==> forall i :: 0 <= i < |bs| ==> bs[i].id != id
  {
    if |bs| == 0 then []
    else
      var rest := WithoutId(bs[1..], id);
      assert bs == [bs[0]] + bs[1..];
      assert forall i :: 1 <= i < |bs| ==> bs[i] == bs[1..][i - 1];
      if bs[0].id == id then
        assert bs[0] !in rest;
        rest
      else
        [bs[0]] + rest
  }

  /** Removal keeps the order of what remains: it distributes over concatenation. */
  lemma {:induction false} WithoutIdConcat(a: seq<Bookmark>, b: seq<Bookmark>, id: string)
    ensures WithoutId(a + b, id) == WithoutId(a, id) + WithoutId(b, id)
  {
    if |a| > 0 {
      assert (a + b)[0] == a[0] && (a + b)[1..] == a[1..] + b;
      WithoutIdConcat(a[1..], b, id);
      if a[0].id != id {
        assert [a[0]] + (WithoutId(a[1..], id) + WithoutId(b, id)) == ([a[0]] + WithoutId(a[1..], id)) + WithoutId(b, id);
      }
    } else {
      assert a + b == b;
    }
  }

  /** Removing an id twice is removing it once. */
  lemma WithoutIdIdempotent(bs: seq<Bookmark>, id: string)
    ensures WithoutId(WithoutId(bs, id), id) == WithoutId(bs, id)
  {
    var once := WithoutId(bs, id);
    forall i | 0 <= i < |once| ensures once[i].id != id {
      assert once[i] in once;
    }
  }

  /** After a removal, a url is still bookmarked iff some bookmark of it had another id. */
  lemma HasBookmarkAfterRemoval(bs: seq<Bookmark>, id: string, url: string)
    ensures HasBookmarkFor(WithoutId(bs, id), url) <==>
      exists i :: 0 <= i < |bs| && bs[i].article.url == url && bs[i].id != id
  {
    var r := WithoutId(bs, id);
    if HasBookmarkFor(r, url) {
      var k :| 0 <= k < |r| && r[k].article.url == url;
      assert r[k] in r;
      var i :| 0 <= i < |bs| && bs[i] == r[k];
    }
    if exists i :: 0 <= i < |bs| && bs[i].article.url == url && bs[i].id != id {
      var i :| 0 <= i < |bs| && bs[i].article.url == url && bs[i].id != id;
      assert bs[i] in bs;
      var k :| 0 <= k < |r| && r[k] == bs[i];
    }
  }

  /**
   * Removing the id of a just-saved bookmark undoes the save iff no older
   * bookmark carries the same id.
   */
  lemma RemoveUndoesSave(bs: seq<Bookmark>, a: Article, now: nat, savedAt: string)
    ensures WithoutId([NewBookmark(a, now, savedAt)] + bs, BookmarkId(now)) == bs <==>
      forall i :: 0 <= i < |bs| ==> bs[i].id != BookmarkId(now)
  {
    var s := [NewBookmark(a, now, savedAt)] + bs;
    assert s[1..] == bs;
  }

  /**
   * Two bookmarks saved at one clock reading share an id, so removing the id
   * of the newer one removes the older one too; saved at different readings,
   * the older one stays.
   */
  lemma RemoveNewestOfTwoSaves(bs: seq<Bookmark>, a1: Article, a2: Article, now1: nat, now2: nat, at1: string, at2: string)
    ensures var b1 := NewBookmark(a1, now1, at1);
      var after := WithoutId([NewBookmark(a2, now2, at2)] + ([b1] + bs), BookmarkId(now2));
      && NewBookmark(a2, now2, at2) !in after
      && (b1 in after <==> now1 != now2)
  {
    BookmarkIdsCollideIff(now1, now2);
  }

  // ---------------------------------------------------------------------
  // The offline article list
  // ---------------------------------------------------------------------

  /** `articles.some(a => a.url === url)`. */
  function HasArticleFor(articles: seq<Article>, url: string): (r: bool)
    ensures r <==> exists i :: 0 <= i < |articles| && articles[i].url == url
  {
    if |articles| == 0 then false
    else if articles[0].url == url then true
    else
      var rest := HasArticleFor(articles[1..], url);
      assert forall i :: 1 <= i < |articles| ==> articles[i] == articles[1..][i - 1];
      rest
  }

  /** No two articles of the list share a url. */
  ghost predicate UrlsDistinct(articles: seq<Article>) {
    forall i, j :: 0 <= i < j < |articles| ==> articles[i].url != articles[j].url
  }

  /** How many articles of the list have the url. */
  function CountUrl(articles: seq<Article>, url: string): (n: nat)
    ensures n <= |articles|
    ensures n == 0 <==> !HasArticleFor(articles, url)
  {
    if |articles| == 0 then 0
    else (if articles[0].url == url then 1 else 0) + CountUrl(articles[1..], url)
  }

  /** With distinct urls, each url occurs at most once. */
  lemma {:induction false} DistinctUrlsCountAtMostOne(articles: seq<Article>, url: string)
    requires UrlsDistinct(articles)
    ensures CountUrl(articles, url) <= 1
  {
    if |articles| > 0 {
      var rest := articles[1..];
      assert UrlsDistinct(rest) by {
        forall i, j | 0 <= i < j < |rest| ensures rest[i].url != rest[j].url {
          assert rest[i] == articles[i + 1] && rest[j] == articles[j + 1];
        }
      }
      DistinctUrlsCountAtMostOne(rest, url);
      if articles[0].url == url {
        forall i | 0 <= i < |rest| ensures rest[i].url != url {
          assert rest[i] == articles[i + 1];
        }
      }
    }
  }

  /** Appending one article adds one to the count of its url only. */
  lemma {:induction false} CountUrlAppend(articles: seq<Article>, a: Article, url: string)
    ensures CountUrl(articles + [a], url) == CountUrl(articles, url) + (if a.url == url then 1 else 0)
  {
    if |articles| > 0 {
      assert (articles + [a])[1..] == articles[1..] + [a];
      CountUrlAppend(articles[1..], a, url);
    } else {
      assert articles + [a] == [a];
    }
  }

  /**
   * What `saveArticleOffline` makes of the list: the article is pushed at
   * the end iff no stored article has its url.
   */
  function AddOffline(articles: seq<Article>, a: Article): (r: seq<Article>)
    ensures HasArticleFor(r, a.url)
    ensures HasArticleFor(articles, a.url) ==> r == articles
    ensures !HasArticleFor(articles, a.url) ==> |r| == |articles| + 1 && r[..|articles|] == articles && r[|articles|] == a
    ensures UrlsDistinct(articles) ==> UrlsDistinct(r)
  {
    if HasArticleFor(articles, a.url) then articles
    else
      var r := articles + [a];
      assert r[|articles|] == a;
      assert r[..|articles|] == articles;
      r
  }

  /** Saving an article offline twice is saving it once. */
  lemma AddOfflineIdempotent(articles: seq<Article>, a: Article)
    ensures AddOffline(AddOffline(articles, a), a) == AddOffline(articles, a)
  {
  }

  /**
   * Saving two articles with one url into a list of distinct urls leaves
   * exactly one article with that url.
   */
  lemma SaveOfflineTwiceLeavesOne(articles: seq<Article>, a: Article, again: Article)
    requires UrlsDistinct(articles)
    requires again.url == a.url
    ensures CountUrl(AddOffline(AddOffline(articles, a), again), a.url) == 1
  {
    var once := AddOffline(articles, a);
    assert AddOffline(once, again) == once;
    if !HasArticleFor(articles, a.url) {
      assert once == articles + [a];
      CountUrlAppend(articles, a, a.url);
    } else {
      DistinctUrlsCountAtMostOne(articles, a.url);
    }
  }

  /** `articles.filter(a => a.url !== url)`. */
  function WithoutUrl(articles: seq<Article>, url: string): (r: seq<Article>)
    ensures forall a :: a in r <==> a in articles && a.url != url
    ensures |r| <= |articles|
    ensures !HasArticleFor(r, url)
    ensures r == articles <==> !HasArticleFor(articles, url)
  {
    if |articles| == 0 then []
    else
      var rest := WithoutUrl(articles[1..], url);
      assert articles == [articles[0]] + articles[1..];
      if articles[0].url == url then
        assert articles[0] !in rest;
        rest
      else
        [articles[0]] + rest
  }

  /** Removal keeps the order of what remains: it distributes over concatenation. */
  lemma {:induction false} WithoutUrlConcat(a: seq<Article>, b: seq<Article>, url: string)
    ensures WithoutUrl(a + b, url) == WithoutUrl(a, url) + WithoutUrl(b, url)
  {
    if |a| > 0 {
      assert (a + b)[0] == a[0] && (a + b)[1..] == a[1..] + b;
      WithoutUrlConcat(a[1..], b, url);
      if a[0].url != url {
        assert [a[0]] + (WithoutUrl(a[1..], url) + WithoutUrl(b, url)) == ([a[0]] + WithoutUrl(a[1..], url)) + WithoutUrl(b, url);
      }
    } else {
      assert a + b == b;
    }
  }

  /** Dropping the first article keeps the urls distinct. */
  lemma DistinctTail(articles: seq<Article>)
    requires UrlsDistinct(articles) && |articles| > 0
    ensures UrlsDistinct(articles[1..])
  {
    var rest := articles[1..];
    forall i, j | 0 <= i < j < |rest| ensures rest[i].url != rest[j].url {
      assert rest[i] == articles[i + 1] && rest[j] == articles[j + 1];
    }
  }

  /** Putting an article with a fresh url in front keeps the urls distinct. */
  lemma DistinctCons(a: Article, rest: seq<Article>)
    requires UrlsDistinct(rest) && !HasArticleFor(rest, a.url)
    ensures UrlsDistinct([a] + rest)
  {
    var r := [a] + rest;
    forall i, j | 0 <= i < j < |r| ensures r[i].url != r[j].url {
      assert r[j] == rest[j - 1];
      if i > 0 {
        assert r[i] == rest[i - 1];
      }
    }
  }

  /** Removal keeps the offline urls distinct. */
  lemma {:induction false} WithoutUrlKeepsDistinct(articles: seq<Article>, url: string)
    requires UrlsDistinct(articles)
    ensures UrlsDistinct(WithoutUrl(articles, url))
  {
    if |articles| > 0 {
      var rest := articles[1..];
      DistinctTail(articles);
      WithoutUrlKeepsDistinct(rest, url);
      var tail := WithoutUrl(rest, url);
      if articles[0].url != url {
        forall k | 0 <= k < |tail| ensures tail[k].url != articles[0].url {
          assert tail[k] in tail;
          var i :| 0 <= i < |rest| && rest[i] == tail[k];
          assert rest[i] == articles[i + 1];
        }
        DistinctCons(articles[0], tail);
      }
    }
  }

  // ---------------------------------------------------------------------
  // The store
  // ---------------------------------------------------------------------

  /**
   * The two storage keys the module reads and writes. Bookmark operations
   * touch only `bookmarksItem` (the key "news_app_bookmarks") and offline
   * operations only `offlineItem` (the key "news_app_offline_articles").
   */
  class LocalStore {
    var bookmarksItem: Stored<Bookmark>
    var offlineItem: Stored<Article>

    /** A store whose keys have never been written. */
    constructor ()
      ensures bookmarksItem == Missing && offlineItem == Missing
      ensures GetBookmarks() == Ok([]) && GetOfflineArticles() == Ok([])
      ensures forall url :: IsArticleBookmarked(url) == Ok(false)
      ensures forall url :: IsArticleSavedOffline(url) == Ok(false)
    {
      bookmarksItem := Missing;
      offlineItem := Missing;
    }

    /** `getBookmarks()`. */
    function GetBookmarks(): (r: Result<seq<Bookmark>>)
      reads this
      ensures r.Err? <==> bookmarksItem.Malformed?
      ensures bookmarksItem.Missing? || bookmarksItem.EmptyText? ==> r == Ok([])
      ensures bookmarksItem.Json? ==> r == Ok(bookmarksItem.items)
    {
      Load(bookmarksItem)
    }

    /** `getOfflineArticles()`. */
    function GetOfflineArticles(): (r: Result<seq<Article>>)
      reads this
      ensures r.Err? <==> offlineItem.Malformed?
      ensures offlineItem.Missing? || offlineItem.EmptyText? ==> r == Ok([])
      ensures offlineItem.Json? ==> r == Ok(offlineItem.items)
    {
      Load(offlineItem)
    }

    /** `isArticleBookmarked(url)`: some stored bookmark wraps an article with exactly this url. */
    function IsArticleBookmarked(url: string): (r: Result<bool>)
      reads this
      ensures r.Err? <==> bookmarksItem.Malformed?
      ensures r.Ok? ==> (r.value <==> exists i :: 0 <= i < |GetBookmarks().value| && GetBookmarks().value[i].article.url == url)
    {
      match GetBookmarks()
      case Err(e) => Err(e)
      case Ok(bs) => Ok(HasBookmarkFor(bs, url))
    }

    /** `getBookmarkByArticleUrl(url)`: absent iff the url is not bookmarked, else the first match. */
    function GetBookmarkByArticleUrl(url: string): (r: Result<Option<Bookmark>>)
      reads this
      ensures r.Err? <==> bookmarksItem.Malformed?
      ensures r.Ok? ==> (r.value.None? <==> IsArticleBookmarked(url) == Ok(false))
      ensures r.Ok? && r.value.Some? ==> r.value.value.article.url == url && r.value.value in GetBookmarks().value
      ensures r.Ok? ==> r.value == FindBookmark(GetBookmarks().value, url)
    {
      match GetBookmarks()
      case Err(e) => Err(e)
      case Ok(bs) => Ok(FindBookmark(bs, url))
    }

    /** `isArticleSavedOffline(url)`. */
    function IsArticleSavedOffline(url: string): (r: Result<bool>)
      reads this
      ensures r.Err? <==> offlineItem.Malformed?
      ensures r.Ok? ==> (r.value <==> exists i :: 0 <= i < |GetOfflineArticles().value| && GetOfflineArticles().value[i].url == url)
    {
      match GetOfflineArticles()
      case Err(e) => Err(e)
      case Ok(articles) => Ok(HasArticleFor(articles, url))
    }

    /**
     * `saveBookmark(article)`: prepends a new bookmark with id
     * "bookmark-<now>" and returns it. There is no check for an existing
     * bookmark of the same article.
     */
    method SaveBookmark(article: Article, now: nat, savedAt: string) returns (r: Result<Bookmark>)
      modifies this
      ensures offlineItem == old(offlineItem)
      ensures old(bookmarksItem).Malformed? ==> r == Err(JsonSyntaxError) && bookmarksItem == old(bookmarksItem)
      ensures !old(bookmarksItem).Malformed? ==>
        && r == Ok(NewBookmark(article, now, savedAt))
        && bookmarksItem == Json([r.value] + old(GetBookmarks()).value)
      ensures r.Ok? ==> |GetBookmarks().value| == |old(GetBookmarks()).value| + 1
      ensures r.Ok? ==> GetBookmarkByArticleUrl(article.url) == Ok(Some(r.value))
    {
      match GetBookmarks()
      case Err(e) =>
        r := Err(e);
      case Ok(bookmarks) =>
        var created := NewBookmark(article, now, savedAt);
        bookmarksItem := Json([created] + bookmarks);
        FindAfterPrepend(bookmarks, created);
        r := Ok(created);
    }

    /**
     * `removeBookmark(id)`: keeps, in order, the bookmarks with another id,
     * and writes the list back even when nothing matched.
     */
    method RemoveBookmark(id: string) returns (r: Result<()>)
      modifies this
      ensures offlineItem == old(offlineItem)
      ensures old(bookmarksItem).Malformed? ==> r == Err(JsonSyntaxError) && bookmarksItem == old(bookmarksItem)
      ensures !old(bookmarksItem).Malformed? ==>
        r == Ok(()) && bookmarksItem == Json(WithoutId(old(GetBookmarks()).value, id))
      ensures r.Ok? ==> forall b :: b in GetBookmarks().value ==> b.id != id
    {
      match GetBookmarks()
      case Err(e) =>
        r := Err(e);
      case Ok(bookmarks) =>
        bookmarksItem := Json(WithoutId(bookmarks, id));
        r := Ok(());
    }

    /**
     * `saveArticleOffline(article)`: pushes the article and writes the list
     * back iff no stored article has its url; otherwise writes nothing.
     */
    method SaveArticleOffline(article: Article) returns (r: Result<()>)
      modifies this
      ensures bookmarksItem == old(bookmarksItem)
      ensures old(offlineItem).Malformed? ==> r == Err(JsonSyntaxError) && offlineItem == old(offlineItem)
      ensures !old(offlineItem).Malformed? ==> r == Ok(())
      ensures !old(offlineItem).Malformed? && HasArticleFor(old(GetOfflineArticles()).value, article.url) ==>
        offlineItem == old(offlineItem)
      ensures !old(offlineItem).Malformed? && !HasArticleFor(old(GetOfflineArticles()).value, article.url) ==>
        offlineItem == Json(old(GetOfflineArticles()).value + [article])
      ensures r.Ok? ==> GetOfflineArticles() == Ok(AddOffline(old(GetOfflineArticles()).value, article))
      ensures r.Ok? ==> IsArticleSavedOffline(article.url) == Ok(true)
    {
      match GetOfflineArticles()
      case Err(e) =>
        r := Err(e);
      case Ok(offlineArticles) =>
        if !HasArticleFor(offlineArticles, article.url) {
          offlineItem := Json(offlineArticles + [article]);
        }
        r := Ok(());
    }

    /** `removeOfflineArticle(url)`: keeps, in order, the articles with another url. */
    method RemoveOfflineArticle(url: string) returns (r: Result<()>)
      modifies this
      ensures bookmarksItem == old(bookmarksItem)
      ensures old(offlineItem).Malformed? ==> r == Err(JsonSyntaxError) && offlineItem == old(offlineItem)
      ensures !old(offlineItem).Malformed? ==>
        r == Ok(()) && offlineItem == Json(WithoutUrl(old(GetOfflineArticles()).value, url))
      ensures r.Ok? ==> IsArticleSavedOffline(url) == Ok(false)
    {
      match GetOfflineArticles()
      case Err(e) =>
        r := Err(e);
      case Ok(offlineArticles) =>
        offlineItem := Json(WithoutUrl(offlineArticles, url));
        r := Ok(());
    }
  }
}
