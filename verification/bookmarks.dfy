/**
  The bookmark list: append and remove-by-id, each written through to the
  store as the whole updated list.
 */
module Bookmarks {
  import opened Types
  import opened Seqs
  import opened Persistence

  predicate HasBookmark(bs: seq<Bookmark>, id: string) {
    exists i :: 0 <= i < |bs| && bs[i].id == id
  }

  function NotId(id: string): Bookmark -> bool {
    (b: Bookmark) => b.id != id
  }

  /** `addBookmark`: appends one starred bookmark and stores the list. */
  function AddBookmark(s: Session, id: string, title: string, url: string): (r: Session)
    ensures |r.bookmarks| == |s.bookmarks| + 1
    ensures r.bookmarks[..|s.bookmarks|] == s.bookmarks
    ensures r.bookmarks[|s.bookmarks|] == Bookmark(id, title, url, Some(BookmarkFavicon))
    ensures LoadBookmarks(r.store) == r.bookmarks && BookmarksKey in r.store
    ensures r.store - {BookmarksKey} == s.store - {BookmarksKey}
    ensures r.(bookmarks := s.bookmarks, store := s.store) == s
  {
    var updated := s.bookmarks + [Bookmark(id, title, url, Some(BookmarkFavicon))];
    s.(bookmarks := updated, store := SaveBookmarks(s.store, updated))
  }

  /** `removeBookmark`: drops every bookmark with the id, keeps the order of
      the rest, and stores the list (even when nothing was dropped). */
  function RemoveBookmark(s: Session, id: string): (r: Session)
    ensures forall i :: 0 <= i < |r.bookmarks| ==> r.bookmarks[i].id != id
    ensures Subsequence(r.bookmarks, s.bookmarks)
    ensures forall b: Bookmark :: b.id != id ==> multiset(r.bookmarks)[b] == multiset(s.bookmarks)[b]
    ensures !HasBookmark(s.bookmarks, id) ==> r.bookmarks == s.bookmarks
    ensures LoadBookmarks(r.store) == r.bookmarks && BookmarksKey in r.store
    ensures r.store - {BookmarksKey} == s.store - {BookmarksKey}
    ensures r.(bookmarks := s.bookmarks, store := s.store) == s
  {
    var updated := Filter(s.bookmarks, NotId(id));
    FilterCounts(s.bookmarks, NotId(id));
    FilterSubsequence(s.bookmarks, NotId(id));
    s.(bookmarks := updated, store := SaveBookmarks(s.store, updated))
  }

  /** Removing a bookmark just added under an unused id restores the list. */
  lemma RemoveUndoesAdd(s: Session, id: string, title: string, url: string)
    requires !HasBookmark(s.bookmarks, id)
    ensures RemoveBookmark(AddBookmark(s, id, title, url), id).bookmarks == s.bookmarks
  {
    var b := Bookmark(id, title, url, Some(BookmarkFavicon));
    FilterConcat(s.bookmarks, [b], NotId(id));
    assert Filter([b], NotId(id)) == [];
  }
}
