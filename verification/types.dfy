/**
  The records the browser start page keeps in its session: tabs, bookmarks,
  history entries, and the key-value store both lists are mirrored into.
 */
module Types {

  datatype Option<+T> = None | Some(value: T)

  /** A tab id. The page stores ids as the decimal text of a positive number
      ("1" at start-up, then the text of `tabs.length + 1`); the model keeps
      the number itself, which `Decimal.ToDecimalInjective` shows is as good
      as the text for every id comparison the page makes. */
  type TabId = nat

  datatype Tab = Tab(id: TabId, title: string, url: string, favicon: Option<string>)

  /** Bookmark ids are the text of a clock reading, supplied by the caller. */
  datatype Bookmark = Bookmark(id: string, title: string, url: string, favicon: Option<string>)

  /** One history entry; `id` and `time` are the clock reading and its
      localized hour:minute text, both supplied by the caller. */
  datatype Visit = Visit(id: string, url: string, title: string, time: string)

  /** What the persistent store can hold under a key (the decoded form of the
      JSON array written there). */
  datatype Stored = BookmarkList(bookmarks: seq<Bookmark>) | HistoryList(visits: seq<Visit>)

  /** The persistent key-value store; a key that is not in the map is absent. */
  type Store = map<string, Stored>

  /** Everything the start page holds between two user events. */
  datatype Session = Session(
    tabs: seq<Tab>,
    activeId: TabId,
    urlBar: string,
    history: seq<Visit>,
    bookmarks: seq<Bookmark>,
    store: Store)

  const NewTabTitle: string := "Новая вкладка"
  const BookmarkFavicon: string := "⭐"
  const BookmarksKey: string := "skz-bookmarks"
  const HistoryKey: string := "skz-history"
  const HistoryCap: nat := 50

  /** The bookmarks shown when the store holds none. */
  const DefaultBookmarks: seq<Bookmark> := [
    Bookmark("1", "Яндекс", "https://yandex.ru", Some("🔍")),
    Bookmark("2", "YouTube", "https://youtube.com", Some("📺")),
    Bookmark("3", "GitHub", "https://github.com", Some("💻")),
    Bookmark("4", "ВКонтакте", "https://vk.com", Some("💙"))
  ]

  /** A fresh, empty tab with the placeholder title. */
  function BlankTab(id: TabId): Tab {
    Tab(id, NewTabTitle, "", None)
  }

  function Min(a: int, b: int): int {
    if a <= b then a else b
  }
}
