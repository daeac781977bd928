# Start-page session model

A Dafny model of the session state machine behind the start page of the
"skz.ru" simulated browser (`src/pages/Index.tsx`). The page keeps:

- a **tab set**: the open tabs, the id of the active tab and the address-bar text;
- a **history log**: visits, newest first, capped at 50, clearable;
- a **bookmark list**: append and remove by id.

Both lists are written through to a key-value store (`skz-bookmarks` and
`skz-history`) after every change and read back when the page loads.

Every event handler is a pure function from one immutable `Session` to the
next:

| file | module | what it holds |
|---|---|---|
| `types.dfy` | `Types` | `Tab`, `Bookmark`, `Visit`, `Session`, the store, and the constants (placeholder title, star icon, store keys, cap 50, default bookmarks) |
| `seqs.dfy` | `Seqs` | order-preserving `Filter`, `Take` (the `slice(0, n)`), `Reverse`, `Subsequence` |
| `decimal.dfy` | `Decimal` | the decimal text of a tab id and its injectivity |
| `persistence.dfy` | `Persistence` | loading and saving the two lists; the `Persisted` predicate |
| `tabs.dfy` | `TabSet` | new tab (as written and corrected), close tab, activate, home |
| `history.dfy` | `HistoryLog` | address-bar submission (classification and recording), clearing |
| `bookmarks.dfy` | `Bookmarks` | add and remove bookmark |
| `browser.dfy` | `Browser` | initial session, user events, `Step`/`Run`, the invariant and the duplicate-id counterexample |

Modelling choices:

- **Tab ids.** The page stores tab ids as text: `'1'` at start-up, then
  `(tabs.length + 1).toString()`. The model stores the number instead.
  `Decimal.ToDecimalInjective` proves that two numbers have the same decimal
  text exactly when they are equal. So every id comparison the page makes
  gives the same answer on the numbers.
- **Store.** The store is a `map<string, Stored>`; a key that is not in the map
  is absent. `clearHistory` removes its key rather than writing an empty list.
- **Throwing.** `closeTab` can read `newTabs[0].id` on an empty array. The
  model returns `Threw` in that case. The session it carries has the empty
  tab list that line 105 already queued.
- **Two builds.** `Build.AsWritten` uses the page's new-tab id rule.
  `Build.Corrected` uses the corrected rule (see Findings). `Step` and `Run`
  take the build as a parameter. All other handlers are the same in both
  builds.

What the code does, which the model follows:

- Tab ids can repeat. The new id is `tabs.length + 1` (see Findings).
- Activating a tab does not check whether the id exists. A click can only
  name a rendered tab, so `TabSet.Activate` takes the index of a tab.
- There is no operation that removes a single history entry.
- Submitting the address bar does not change any tab's url or title.

## Model

| member | source | states |
|---|---|---|
| `Browser.Init` | src/pages/Index.tsx:24-38 | On load the page has one blank tab with id 1. That tab is active and the address bar is empty. The tab set is valid and both lists equal what the store gives back. With no stored keys, the bookmarks are the four defaults and the history is empty. |
| `Persistence.LoadBookmarks` | src/pages/Index.tsx:30-38 | On load, a stored bookmark list is used as it is. An absent key gives the four default bookmarks. |
| `Persistence.LoadHistory` | src/pages/Index.tsx:66-69 | On load, a stored history is used as it is. An absent key gives an empty history. |
| `Persistence.SaveBookmarks` | src/pages/Index.tsx:49 | Writing the bookmark list and then loading gives back the same list. The history and every other key are unchanged. |
| `Persistence.SaveHistory` | src/pages/Index.tsx:92 | Writing the history and then loading gives back the same history. The bookmarks and every other key are unchanged. |
| `Persistence.DeleteHistory` | src/pages/Index.tsx:73 | The history key is gone from the store, so a reload gives an empty history. Every other key is unchanged. |
| `Bookmarks.AddBookmark` | src/pages/Index.tsx:40-50 | Appends exactly one bookmark at the end, with the given id, title and url and the star icon. Earlier entries are unchanged. The store then holds the new list. Nothing else in the session changes. |
| `Bookmarks.RemoveBookmark` | src/pages/Index.tsx:52-56 | No remaining bookmark has the id. The rest keep their order and their number of copies. If the id is absent the list is unchanged. The store holds the result even then. |
| `Bookmarks.RemoveUndoesAdd` | src/pages/Index.tsx:40-56 | Removing a bookmark just added under an unused id gives back the original list. |
| `Seqs.Filter` | src/pages/Index.tsx:104 | The result keeps only accepted elements. It is empty exactly when no element is accepted. It equals the input when every element is accepted. |
| `Seqs.FilterCounts` | src/pages/Index.tsx:104 | Every accepted value appears in the result as many times as in the input. |
| `Seqs.FilterSubsequence` | src/pages/Index.tsx:53 | The filtered list is a subsequence of the input, so the order is kept. |
| `Seqs.FilterConcat` | src/pages/Index.tsx:53 | Filtering two lists joined together equals joining the two filtered lists. |
| `TabSet.Home` | src/pages/Index.tsx:58-64 | Only tabs whose id is the active id get an empty url and the placeholder title. Ids, icons, the other tabs and the tab count are unchanged. The address bar becomes empty. |
| `TabSet.ResetActive` | src/pages/Index.tsx:59-61 | Position by position, a tab with the active id is reset to the blank page and every other tab is kept. |
| `TabSet.HomeIdempotent` | src/pages/Index.tsx:58-64 | Going home twice gives the same session as going home once. |
| `TabSet.HomeValid` | src/pages/Index.tsx:58-64 | Going home keeps the tab-set invariant. |
| `HistoryLog.ClearHistory` | src/pages/Index.tsx:71-74 | The history becomes empty and its key is removed from the store. Every other key and the rest of the session are unchanged. |
| `HistoryLog.Classify` | src/pages/Index.tsx:79-83 | Input is opened as an external address exactly when it starts with `http://` or `https://`. Any other input becomes a search. Either way the input text is kept unchanged. |
| `HistoryLog.Record` | src/pages/Index.tsx:85-90 | The new visit is at the head. The length is the old length plus one, capped at 50. After the head come the newest old entries, in their original order; when the cap is reached, the oldest old entries are the ones dropped. |
| `HistoryLog.Navigate` | src/pages/Index.tsx:76-93 | Empty input changes nothing and has no effect. Otherwise the input is classified. A visit with the input as url and title is put at the head of the capped history. The store then holds that history. Tabs, bookmarks, the address bar and the other keys are unchanged. |
| `HistoryLog.RecordAllNewestFirst` | src/pages/Index.tsx:66-91 | After any series of visits, the history is those visits newest first, then the earlier history, cut to 50. This holds for a loaded history of any length once at least one visit is recorded. For the empty series, the history must already be within the cap. |
| `TabSet.NewTab` | src/pages/Index.tsx:95-100 | As written, appends exactly one blank tab with id equal to the tab count plus one. That tab becomes active and the address bar is cleared. Earlier tabs and everything else are unchanged. |
| `TabSet.OpenTabDistinct` | src/pages/Index.tsx:97 | Appending a tab keeps the ids distinct exactly when they were distinct and the new id was not in use. |
| `TabSet.NewTabDuplicates` | src/pages/Index.tsx:96-97 | With distinct ids, the as-written new tab creates a duplicate id exactly when the tab count plus one is already an open tab's id. |
| `TabSet.NewTabFresh` | src/pages/Index.tsx:95-100 | Corrected rule: appends exactly one blank tab whose id no open tab has, makes it active and clears the address bar. Earlier tabs are unchanged. |
| `TabSet.NewTabFreshValid` | src/pages/Index.tsx:95-100 | The corrected new tab keeps the tab-set invariant. |
| `TabSet.NewTabFreshAgrees` | src/pages/Index.tsx:96 | While the ids are 1, 2, …, n (no tab has been closed), the corrected rule picks the same id as the page. |
| `TabSet.CloseTab` | src/pages/Index.tsx:102-109 | With one tab, closing changes nothing. Otherwise the tabs are exactly the old ones without that id, in order. If the closed id was active, the first remaining tab becomes active; otherwise the active id is unchanged. The call throws exactly when the closed id is active and every tab has that id; it then leaves no tab and the active id unchanged. |
| `TabSet.CloseTabValid` | src/pages/Index.tsx:102-109 | If the tab set is valid (non-empty, active id present, ids distinct), closing never throws and the tab set stays valid. |
| `TabSet.SubsequenceDistinct` | src/pages/Index.tsx:104 | Removing tabs cannot create a duplicate id, and every remaining id was already present. |
| `TabSet.Activate` | src/pages/Index.tsx:124 | Clicking a tab makes its id the active id, which is present. Nothing else changes. |
| `Decimal.ToDecimal` | src/pages/Index.tsx:96 | The text of a number is a non-empty string of decimal digits. It has one digit exactly when the number is below 10, and its last digit is the number modulo 10. |
| `Decimal.ToDecimalInjective` | src/pages/Index.tsx:96 | Two numbers have the same text exactly when they are equal. |
| `Browser.InitInv` | src/pages/Index.tsx:24-38 | A freshly loaded page satisfies the full invariant when the stored history has at most 50 entries. |
| `Browser.StepKeepsInv` | src/pages/Index.tsx:40-109 | With the corrected id rule no handler throws. Every handler keeps the invariant: valid tab set, history within the cap, store agreeing with both lists. |
| `Browser.AsWrittenStepKeepsInv` | src/pages/Index.tsx:95-108 | With the page's own id rule every handler keeps the invariant, except a new tab whose id is already open. |
| `Browser.CorrectedNeverThrows` | src/pages/Index.tsx:102-108 | With the corrected rule, from any valid session, no handler throws along any run of events and the invariant holds at the end. |
| `Browser.Step` | src/pages/Index.tsx:124-131 | One user event. Only a close click can throw. Only a submission, a clear and the two bookmark events change the store, the history or the bookmarks, and every event keeps the store holding both lists. Only home, new tab, close and tab clicks change the tabs or the active id. Typing sets the address bar to the typed text. A tab click leaves the tabs alone and makes the clicked tab's id active. A close click on an inactive tab leaves the active id alone, so it does not also activate the tab. |
| `Browser.Run` | src/pages/Index.tsx:40-131 | A series of events handled in order. No events leave the session as it is. A run can throw only if it contains a close click. |
| `Browser.StepKeepsTabsValid` | src/pages/Index.tsx:95-131 | With the corrected id rule, no event throws on a valid tab set, and every event keeps it valid. This holds whatever the lists and the store hold. |
| `Browser.CorrectedRunOk` | src/pages/Index.tsx:95-131 | With the corrected id rule, no run from a valid tab set throws, and the tab set stays valid. This holds whatever the store held at load. |
| `Browser.RunPersisted` | src/pages/Index.tsx:49-92 | Under either id rule, along any run, including one that ends in a throw, the store holds exactly the in-memory bookmarks and history. |
| `Browser.ReloadRestoresLists` | src/pages/Index.tsx:30-92 | At any point of any run from a load, under either id rule and whatever the store held, reloading from the store gives back exactly the in-memory bookmarks and history. After a clear, that history is empty. With the corrected rule the run does not throw. |
| `Browser.DuplicateIdCrash` | src/pages/Index.tsx:96-107 | From a single tab 1, this sequence throws: new tab, close 1, new tab (id 2 again), close 2. The queued tab list is empty. |
| `Browser.DuplicateIdCrashFromLoad` | src/pages/Index.tsx:96-107 | On a freshly loaded page, the events new tab, close 1, new tab, close 2 make the run throw. No tab is left, and the active id is 2. |
| `Browser.DuplicateIdTraceCorrected` | src/pages/Index.tsx:96-107 | With the corrected rule the same events leave only tab 3, which is active. |
| `Browser.OpenSecondCloseFirst` | src/pages/Index.tsx:95-108 | From a single tab 1, opening a tab and closing tab 1 leaves tab 2 alone and active, under either id rule. |

## Findings

| source | as written | input that shows it | evidently intended | confidence | as-written member | corrected member |
|---|---|---|---|---|---|---|
| src/pages/Index.tsx:96 | The new tab's id is the tab count plus one. After a tab other than the last is closed, that id can still be open. `closeTab` then removes both tabs with that id, and line 107 reads the first element of an empty array. | Start with tab 1. Add a tab (tabs 1, 2). Close 1 (tab 2 remains). Add a tab (its id is 2 again). Close 2. | A new tab gets an id that no open tab has. Then the guard at line 103 keeps at least one tab, and the active id always names an open tab. | high; not executed | `Browser.DuplicateIdCrash` (on `TabSet.NewTab`), `Browser.DuplicateIdCrashFromLoad` | `TabSet.NewTabFresh`, with `Browser.CorrectedNeverThrows` |

## Left out

- Serialisation: the store holds the lists themselves. JSON encoding and decoding are not modelled. So a stored value that fails to parse (the page would throw) and an empty stored string (the page would use the defaults) cannot occur.
- Persistence.LoadBookmarks: a value of the wrong kind under a key counts as absent. No modelled handler writes one.
- Persistence.LoadHistory: likewise, a value of the wrong kind under the history key counts as absent.
- `Browser.Step`: `clearHistory`, `addBookmark` and `removeBookmark` (lines 40, 52, 71) are defined on the page, but no rendered control calls them. On the page, only a submission changes the store, the history or the bookmarks. `Step` still offers the three as events (`ClearLog`, `AddMark`, `RemoveMark`). So every statement about runs covers more runs than the page can produce.
- `Browser.Step`: a close click may name any id, including an absent one. It may also come on a single tab, where no close button is rendered (line 127). `TabSet.CloseTab` handles both cases as the page's handler would. Tab clicks, by contrast, are keyed by index to a rendered tab.
- Side effects: `window.open`, the route change with `encodeURIComponent`, and the back, forward, reload and settings buttons (lines 154-172, 209) are not modelled. A submission returns only its classification (`Effect`), which carries the raw input text.
- Clock and locale: `Date.now()` ids and the `toLocaleTimeString` text are parameters supplied by the caller.
- React: rendering, styling, the eight-bookmark grid (line 232) and when close buttons are shown (line 127) are not modelled. `Threw` assumes the tab list queued before the throw is committed.
- `Browser.Run` stops at the first handler that throws. In the page the throw at line 107 is reported by React and the page keeps running: the tab list is `[]`, the active id still names the closed tab, and a later new tab gets id 1. Runs past a throw are not modelled.
- `Browser.Step`: a search submission calls `navigate` (line 82), which leaves this page. Its tabs and address bar are discarded, and coming back starts from the initial session. The model carries the same session on to the next event.
- `Browser.Step`: the store writes (lines 49, 55, 73, 92) cannot fail in the model. In the page `localStorage` can throw, for example when the storage is full or disabled, after the new list has been queued. The store then no longer holds the in-memory list, so `Browser.RunPersisted` and `Browser.ReloadRestoresLists` hold only when every write succeeds.
- `Browser.Step`: a click on a tab index that does not exist is a no-op, because no such tab is rendered.
- `src/pages/Search.tsx` and `src/pages/Settings.tsx` are not modelled. They hold a fixed result template, fixed page buttons, random display timing and static arrays, with no state transitions.
