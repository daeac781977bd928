/**
  Reading and writing the two lists the page mirrors into the persistent
  store. Serialisation is not modelled: the store holds the lists themselves.
 */
module Persistence {
  import opened Types

  /** The bookmarks a reload starts with: the stored list when the key holds
      one, otherwise the four defaults. */
  function LoadBookmarks(st: Store): (bs: seq<Bookmark>)
    ensures BookmarksKey !in st ==> bs == DefaultBookmarks
    ensures BookmarksKey in st && st[BookmarksKey].BookmarkList? ==> bs == st[BookmarksKey].bookmarks
  {
    if BookmarksKey in st && st[BookmarksKey].BookmarkList? then st[BookmarksKey].bookmarks
    else DefaultBookmarks
  }

  /** The history a reload starts with: the stored list when the key holds
      one, otherwise empty. */
  function LoadHistory(st: Store): (vs: seq<Visit>)
    ensures HistoryKey !in st ==> vs == []
    ensures HistoryKey in st && st[HistoryKey].HistoryList? ==> vs == st[HistoryKey].visits
  {
    if HistoryKey in st && st[HistoryKey].HistoryList? then st[HistoryKey].visits
    else []
  }

  /** Writes the whole bookmark list under its key; nothing else changes. */
  function SaveBookmarks(st: Store, bs: seq<Bookmark>): (r: Store)
    ensures LoadBookmarks(r) == bs
    ensures LoadHistory(r) == LoadHistory(st)
    ensures BookmarksKey in r
    ensures r - {BookmarksKey} == st - {BookmarksKey}
  {
    st[BookmarksKey := BookmarkList(bs)]
  }

  /** Writes the whole history list under its key; nothing else changes. */
  function SaveHistory(st: Store, vs: seq<Visit>): (r: Store)
    ensures LoadHistory(r) == vs
    ensures LoadBookmarks(r) == LoadBookmarks(st)
    ensures HistoryKey in r
    ensures r - {HistoryKey} == st - {HistoryKey}
  {
    st[HistoryKey := HistoryList(vs)]
  }

  /** Deletes the history key (rather than storing an empty list). */
  function DeleteHistory(st: Store): (r: Store)
    ensures HistoryKey !in r
    ensures LoadHistory(r) == []
    ensures LoadBookmarks(r) == LoadBookmarks(st)
    ensures r - {HistoryKey} == st - {HistoryKey}
  {
    st - {HistoryKey}
  }

  /** Both in-memory lists are what a reload of the store would produce. */
  predicate Persisted(s: Session) {
    LoadBookmarks(s.store) == s.bookmarks && LoadHistory(s.store) == s.history
  }
}
