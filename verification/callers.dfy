/**
 * How the pages use the store: the bookmark toggle of the news list
 * (src/components/NewsList.tsx) and of the article page
 * (src/pages/ArticleDetail.tsx), and "clear all" on the bookmarks page
 * (src/pages/Bookmarks.tsx). Only the calls into the store are modelled.
 */
module Callers {
  import opened Wrappers
  import opened News
  import opened Storage

  /** The ids of a list of bookmarks. */
  function IdSet(bs: seq<Bookmark>): set<string>
  {
    set b | b in bs :: b.id
  }

  /** The bookmarks whose id is not in `ids`, in their order. */
  function WithoutIds(bs: seq<Bookmark>, ids: set<string>): (r: seq<Bookmark>)
    ensures forall b :: b in r <==> b in bs && b.id !in ids
  {
    if |bs| == 0 then []
    else
      var rest := WithoutIds(bs[1..], ids);
      assert bs == [bs[0]] + bs[1..];
      if bs[0].id in ids then rest else [bs[0]] + rest
  }

  /** Removing no id changes nothing. */
  lemma {:induction false} WithoutNoIds(bs: seq<Bookmark>)
    ensures WithoutIds(bs, {}) == bs
  {
    if |bs| > 0 {
      WithoutNoIds(bs[1..]);
      assert bs == [bs[0]] + bs[1..];
    }
  }

  /** One more `removeBookmark` removes one more id. */
  lemma {:induction false} WithoutIdsStep(bs: seq<Bookmark>, ids: set<string>, id: string)
    ensures WithoutId(WithoutIds(bs, ids), id) == WithoutIds(bs, ids + {id})
  {
    if |bs| > 0 {
      WithoutIdsStep(bs[1..], ids, id);
      var rest := WithoutIds(bs[1..], ids);
      if bs[0].id !in ids {
        assert ([bs[0]] + rest)[1..] == rest;
      }
    }
  }

  /** One iteration of the clear-all loop removes the id of the next bookmark of the page's list. */
  lemma ClearStep(bs: seq<Bookmark>, snapshot: seq<Bookmark>, i: nat)
    requires i < |snapshot|
    ensures WithoutId(WithoutIds(bs, IdSet(snapshot[..i])), snapshot[i].id) == WithoutIds(bs, IdSet(snapshot[..i + 1]))
  {
    assert snapshot[..i + 1] == snapshot[..i] + [snapshot[i]];
    assert IdSet(snapshot[..i + 1]) == IdSet(snapshot[..i]) + {snapshot[i].id};
    WithoutIdsStep(bs, IdSet(snapshot[..i]), snapshot[i].id);
  }

  /** Removing a set that covers every bookmark's id leaves nothing. */
  lemma {:induction false} WithoutCoveringIds(bs: seq<Bookmark>, ids: set<string>)
    requires forall b :: b in bs ==> b.id in ids
    ensures WithoutIds(bs, ids) == []
  {
    if |bs| > 0 {
      assert bs[0] in bs;
      forall b | b in bs[1..] ensures b.id in ids {
        assert b in bs;
      }
      WithoutCoveringIds(bs[1..], ids);
    }
  }

  /**
   * Removing the first match's id (the toggle of the news list) clears the
   * url iff every bookmark of that url shares the id; duplicates saved at
   * other clock readings survive.
   */
  lemma ToggleOffClearsUrlIff(bs: seq<Bookmark>, url: string)
    requires HasBookmarkFor(bs, url)
    ensures var first := FindBookmark(bs, url).value;
      !HasBookmarkFor(WithoutId(bs, first.id), url) <==>
        forall i :: 0 <= i < |bs| && bs[i].article.url == url ==> bs[i].id == first.id
  {
    HasBookmarkAfterRemoval(bs, FindBookmark(bs, url).value.id, url);
  }

  /**
   * `handleBookmark` of the news list: if a bookmark of the url exists,
   * remove the first match's id, otherwise save the article. Answers the
   * flag the list then shows (true: now bookmarked).
   */
  method ToggleBookmark(store: LocalStore, article: Article, now: nat, savedAt: string) returns (r: Result<bool>)
    modifies store
    ensures store.offlineItem == old(store.offlineItem)
    ensures old(store.bookmarksItem).Malformed? ==>
      r == Err(JsonSyntaxError) && store.bookmarksItem == old(store.bookmarksItem)
    ensures !old(store.bookmarksItem).Malformed? && HasBookmarkFor(old(store.GetBookmarks()).value, article.url) ==>
      && r == Ok(false)
      && store.bookmarksItem ==
         Json(WithoutId(old(store.GetBookmarks()).value, FindBookmark(old(store.GetBookmarks()).value, article.url).value.id))
    ensures !old(store.bookmarksItem).Malformed? && !HasBookmarkFor(old(store.GetBookmarks()).value, article.url) ==>
      && r == Ok(true)
      && store.bookmarksItem == Json([NewBookmark(article, now, savedAt)] + old(store.GetBookmarks()).value)
      && store.IsArticleBookmarked(article.url) == Ok(true)
  {
    var current := store.GetBookmarkByArticleUrl(article.url);
    match current
    case Err(e) =>
      r := Err(e);
    case Ok(Some(bookmark)) =>
      var removed := store.RemoveBookmark(bookmark.id);
      r := Ok(false);
    case Ok(None) =>
      var saved := store.SaveBookmark(article, now, savedAt);
      r := Ok(true);
  }

  /**
   * `handleBookmark` of the article page: branches on the flag the page
   * holds, not on the store. With the flag set it removes the first match's
   * id if there is one (and keeps the flag when there is none); with the
   * flag clear it saves, even if the article is already bookmarked.
   */
  method ToggleBookmarkInDetail(store: LocalStore, article: Article, isBookmarked: bool, now: nat, savedAt: string)
    returns (r: Result<bool>)
    modifies store
    ensures store.offlineItem == old(store.offlineItem)
    ensures old(store.bookmarksItem).Malformed? ==>
      r == Err(JsonSyntaxError) && store.bookmarksItem == old(store.bookmarksItem)
    ensures !old(store.bookmarksItem).Malformed? && !isBookmarked ==>
      && r == Ok(true)
      && store.bookmarksItem == Json([NewBookmark(article, now, savedAt)] + old(store.GetBookmarks()).value)
    ensures !old(store.bookmarksItem).Malformed? && isBookmarked && HasBookmarkFor(old(store.GetBookmarks()).value, article.url) ==>
      && r == Ok(false)
      && store.bookmarksItem ==
         Json(WithoutId(old(store.GetBookmarks()).value, FindBookmark(old(store.GetBookmarks()).value, article.url).value.id))
    ensures !old(store.bookmarksItem).Malformed? && isBookmarked && !HasBookmarkFor(old(store.GetBookmarks()).value, article.url) ==>
      r == Ok(true) && store.bookmarksItem == old(store.bookmarksItem)
  {
    if isBookmarked {
      var current := store.GetBookmarkByArticleUrl(article.url);
      match current
      case Err(e) =>
        r := Err(e);
      case Ok(Some(bookmark)) =>
        var removed := store.RemoveBookmark(bookmark.id);
        r := Ok(false);
      case Ok(None) =>
        r := Ok(true);
    } else {
      var saved := store.SaveBookmark(article, now, savedAt);
      match saved
      case Err(e) =>
        r := Err(e);
      case Ok(_) =>
        r := Ok(true);
    }
  }

  /**
   * `clearAllBookmarks` of the bookmarks page: calls `removeBookmark` for
   * the id of each bookmark of the list the page loaded, in order. The first
   * call that throws ends the loop. When the page's list is what the store
   * holds, the store ends with no bookmarks.
   */
  method ClearAllBookmarks(store: LocalStore, snapshot: seq<Bookmark>) returns (r: Result<()>)
    modifies store
    ensures store.offlineItem == old(store.offlineItem)
    ensures snapshot == [] ==> r == Ok(()) && store.bookmarksItem == old(store.bookmarksItem)
    ensures snapshot != [] && old(store.bookmarksItem).Malformed? ==>
      r == Err(JsonSyntaxError) && store.bookmarksItem == old(store.bookmarksItem)
    ensures snapshot != [] && !old(store.bookmarksItem).Malformed? ==>
      r == Ok(()) && store.bookmarksItem == Json(WithoutIds(old(store.GetBookmarks()).value, IdSet(snapshot)))
    ensures old(store.GetBookmarks()) == Ok(snapshot) ==> r == Ok(()) && store.GetBookmarks() == Ok([])
  {
    ghost var before := old(store.GetBookmarks());
    r := Ok(());
    var i := 0;
    assert IdSet(snapshot[..0]) == {};
    if before.Ok? {
      WithoutNoIds(before.value);
    }
    while i < |snapshot|
      invariant 0 <= i <= |snapshot|
      invariant store.offlineItem == old(store.offlineItem)
      invariant i == 0 ==> store.bookmarksItem == old(store.bookmarksItem)
      invariant i > 0 ==> !old(store.bookmarksItem).Malformed? && store.bookmarksItem.Json?
      invariant before.Ok? ==> store.GetBookmarks() == Ok(WithoutIds(before.value, IdSet(snapshot[..i])))
    {
      var removed := store.RemoveBookmark(snapshot[i].id);
      if removed.Err? {
        r := Err(removed.error);
        return;
      }
      if before.Ok? {
        ClearStep(before.value, snapshot, i);
      }
      i := i + 1;
    }
    assert snapshot[..i] == snapshot;
    if before == Ok(snapshot) {
      WithoutCoveringIds(snapshot, IdSet(snapshot));
    }
  }
}
