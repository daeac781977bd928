/**
  The start page as a state machine: the session it loads, the user events it
  reacts to, and what holds along any run of events.
 */
module Browser {
  import opened Types
  import opened Persistence
  import opened TabSet
  import opened HistoryLog
  import opened Bookmarks
  import opened Seqs

  /** The session right after the page loads from the store `st`: one blank
      tab, active, an empty address bar, and both lists read back. */
  function Init(st: Store): (s: Session)
    ensures s.tabs == [BlankTab(1)] && s.activeId == 1 && s.urlBar == ""
    ensures TabsValid(s)
    ensures Persisted(s) && s.store == st
    ensures BookmarksKey !in st ==> s.bookmarks == DefaultBookmarks
    ensures HistoryKey !in st ==> s.history == []
  {
    var s := Session([BlankTab(1)], 1, "", LoadHistory(st), LoadBookmarks(st), st);
    assert s.tabs[0].id == s.activeId;
    s
  }

  /** The events that drive the session. Typing, submitting, home, new tab,
      close and tab clicks are wired to controls on the page. The page defines
      the handlers behind `ClearLog`, `AddMark` and `RemoveMark` but renders
      no control that calls them; they are offered here as events too, so
      every statement about runs also covers them. A close click names any
      id, also one with no rendered close button. */
  datatype Action =
    | Type(text: string)                    // editing the address bar
    | Submit(visitId: string, time: string) // Enter or the search button
    | GoHome
    | ClearLog
    | AddMark(id: string, title: string, url: string)
    | RemoveMark(id: string)
    | NewTabClicked
    | CloseClicked(tabId: TabId)
    | TabClicked(index: nat)                // a click on the tab at `index`

  /** Which id rule `addNewTab` follows: the page's, or the corrected one. */
  datatype Build = AsWritten | Corrected

  /** One event, dispatched to its handler: typing in the address-bar input
      sets it, Enter in that input and the search button submit it, a click
      on a tab activates that tab, and a click on a tab's close button closes
      it without also activating it. */
  function Step(build: Build, s: Session, a: Action): (r: Outcome)
    ensures r.Threw? ==> a.CloseClicked?
    ensures Persisted(s) ==> Persisted(r.session)
    ensures !(a.Submit? || a.ClearLog? || a.AddMark? || a.RemoveMark?) ==>
              r.session.store == s.store && r.session.history == s.history && r.session.bookmarks == s.bookmarks
    ensures !(a.GoHome? || a.NewTabClicked? || a.CloseClicked? || a.TabClicked?) ==>
              r.session.tabs == s.tabs && r.session.activeId == s.activeId
    ensures a.Type? ==> r.session.urlBar == a.text
    ensures a.TabClicked? ==> r.session.tabs == s.tabs
    ensures a.TabClicked? && a.index < |s.tabs| ==> r.session.activeId == s.tabs[a.index].id
    ensures a.CloseClicked? && a.tabId != s.activeId ==> r.session.activeId == s.activeId
  {
    match a
    case Type(text) => Ok(s.(urlBar := text))
    case Submit(visitId, time) => Ok(Navigate(s, visitId, time).session)
    case GoHome => Ok(Home(s))
    case ClearLog => Ok(ClearHistory(s))
    case AddMark(id, title, url) => Ok(AddBookmark(s, id, title, url))
    case RemoveMark(id) => Ok(RemoveBookmark(s, id))
    case NewTabClicked => Ok(if build == AsWritten then NewTab(s) else NewTabFresh(s))
    case CloseClicked(id) => CloseTab(s, id)
    case TabClicked(index) => if index < |s.tabs| then Ok(Activate(s, index)) else Ok(s)
  }

  /** Runs the events in order, stopping at the first handler that throws. */
  function Run(build: Build, s: Session, actions: seq<Action>): (r: Outcome)
    ensures actions == [] ==> r == Ok(s)
    ensures r.Threw? ==> exists i :: 0 <= i < |actions| && actions[i].CloseClicked?
    decreases |actions|
  {
    if actions == [] then Ok(s)
    else
      match Step(build, s, actions[0])
      case Threw(t) => Threw(t)
      case Ok(t) =>
        var r := Run(build, t, actions[1..]);
        assert r.Threw? ==> exists i :: 1 <= i < |actions| && actions[i].CloseClicked? by {
          if r.Threw? {
            var j :| 0 <= j < |actions[1..]| && actions[1..][j].CloseClicked?;
            assert actions[j + 1] == actions[1..][j];
          }
        }
        r
  }

  /** Everything the page relies on between events. */
  predicate Inv(s: Session) {
    TabsValid(s) && Persisted(s) && |s.history| <= HistoryCap
  }

  /** A freshly loaded page satisfies the invariant when the stored history
      respects the cap. */
  lemma InitInv(st: Store)
    requires |LoadHistory(st)| <= HistoryCap
    ensures Inv(Init(st))
  {
  }

  /** With the corrected id rule no handler throws and every handler keeps
      the invariant. */
  lemma StepKeepsInv(s: Session, a: Action)
    requires Inv(s)
    ensures Step(Corrected, s, a).Ok?
    ensures Inv(Step(Corrected, s, a).session)
  {
    match a
    case GoHome => HomeValid(s);
    case NewTabClicked => NewTabFreshValid(s);
    case CloseClicked(id) => CloseTabValid(s, id);
    case TabClicked(index) =>
      if index < |s.tabs| {
        assert Activate(s, index).tabs == s.tabs;
      }
    case _ =>
  }

  /** The page's own id rule keeps the invariant for every event except a new
      tab whose id (the tab count plus one) is already open. */
  lemma AsWrittenStepKeepsInv(s: Session, a: Action)
    requires Inv(s)
    requires a == NewTabClicked ==> !HasId(s.tabs, |s.tabs| + 1)
    ensures Step(AsWritten, s, a).Ok?
    ensures Inv(Step(AsWritten, s, a).session)
  {
    if a == NewTabClicked {
      OpenTabDistinct(s, |s.tabs| + 1);
      assert NewTab(s).tabs[|s.tabs|].id == NewTab(s).activeId;
    } else {
      assert Step(AsWritten, s, a) == Step(Corrected, s, a);
      StepKeepsInv(s, a);
    }
  }

  /** Along any run of the corrected page no handler throws, the tab set stays
      valid, the history stays within the cap, and the store holds both lists. */
  lemma {:induction false} CorrectedNeverThrows(s: Session, actions: seq<Action>)
    requires Inv(s)
    ensures Run(Corrected, s, actions).Ok?
    ensures Inv(Run(Corrected, s, actions).session)
    decreases |actions|
  {
    if actions != [] {
      StepKeepsInv(s, actions[0]);
      CorrectedNeverThrows(Step(Corrected, s, actions[0]).session, actions[1..]);
    }
  }

  /** Whatever the id rule, every event leaves the store holding both lists,
      also when the handler throws. */
  lemma {:induction false} RunPersisted(build: Build, s: Session, actions: seq<Action>)
    requires Persisted(s)
    ensures Persisted(Run(build, s, actions).session)
    decreases |actions|
  {
    if actions != [] {
      var r := Step(build, s, actions[0]);
      if r.Ok? {
        RunPersisted(build, r.session, actions[1..]);
      }
    }
  }

  /** With the corrected id rule no handler throws, and the tab set stays
      valid, whatever the lists hold. */
  lemma StepKeepsTabsValid(s: Session, a: Action)
    requires TabsValid(s)
    ensures Step(Corrected, s, a).Ok?
    ensures TabsValid(Step(Corrected, s, a).session)
  {
    match a
    case GoHome => HomeValid(s);
    case NewTabClicked => NewTabFreshValid(s);
    case CloseClicked(id) => CloseTabValid(s, id);
    case _ =>
  }

  /** Along any run of the corrected page from a valid tab set no handler
      throws, whatever the store held at load. */
  lemma {:induction false} CorrectedRunOk(s: Session, actions: seq<Action>)
    requires TabsValid(s)
    ensures Run(Corrected, s, actions).Ok?
    ensures TabsValid(Run(Corrected, s, actions).session)
    decreases |actions|
  {
    if actions != [] {
      StepKeepsTabsValid(s, actions[0]);
      CorrectedRunOk(Step(Corrected, s, actions[0]).session, actions[1..]);
    }
  }

  /** Reloading the page at any point of a run, under either id rule and
      whatever the store held at load, restores the bookmarks and the history
      exactly as they were in memory; in particular after a clear the
      reloaded history is empty. The corrected page never throws on the way. */
  lemma ReloadRestoresLists(build: Build, st: Store, actions: seq<Action>)
    ensures build == Corrected ==> Run(build, Init(st), actions).Ok?
    ensures Init(Run(build, Init(st), actions).session.store).bookmarks == Run(build, Init(st), actions).session.bookmarks
    ensures Init(Run(build, Init(st), actions).session.store).history == Run(build, Init(st), actions).session.history
  {
    RunPersisted(build, Init(st), actions);
    if build == Corrected {
      CorrectedRunOk(Init(st), actions);
    }
  }

  /** The events that break the page: open a second tab, close the first,
      open another (whose id, the tab count plus one, is 2, the id of the tab
      still open), then close tab 2. Both tabs go, the active id was 2, and
      reading the first remaining tab throws with the tab list left empty. */
  lemma DuplicateIdCrash(s0: Session)
    requires s0.tabs == [BlankTab(1)] && s0.activeId == 1
    ensures CloseTab(NewTab(CloseTab(NewTab(s0), 1).session), 2) == Threw(s0.(tabs := [], activeId := 2, urlBar := ""))
  {
    var s2 := OpenSecondCloseFirst(s0);
    assert NewTab(s2).tabs == [BlankTab(2), BlankTab(2)];
    FilterTwo(BlankTab(2), BlankTab(2), 2);
  }

  /** The same four events, as clicks on a freshly loaded page: the run
      throws, with no tab left and the closed tab 2 still named active. */
  lemma DuplicateIdCrashFromLoad(st: Store)
    ensures Run(AsWritten, Init(st), [NewTabClicked, CloseClicked(1), NewTabClicked, CloseClicked(2)])
         == Threw(Init(st).(tabs := [], activeId := 2))
  {
    var s0 := Init(st);
    var s2 := OpenSecondCloseFirst(s0);
    DuplicateIdCrash(s0);
    var crash := Threw(s0.(tabs := [], activeId := 2));
    assert Step(AsWritten, NewTab(s2), CloseClicked(2)) == crash;
    assert Run(AsWritten, NewTab(s2), [CloseClicked(2)]) == crash;
    assert [NewTabClicked, CloseClicked(2)][1..] == [CloseClicked(2)];
    assert Run(AsWritten, s2, [NewTabClicked, CloseClicked(2)]) == crash;
    assert [CloseClicked(1), NewTabClicked, CloseClicked(2)][1..] == [NewTabClicked, CloseClicked(2)];
    assert Step(AsWritten, NewTab(s0), CloseClicked(1)) == Ok(s2);
    assert Run(AsWritten, NewTab(s0), [CloseClicked(1), NewTabClicked, CloseClicked(2)]) == crash;
    assert [NewTabClicked, CloseClicked(1), NewTabClicked, CloseClicked(2)][1..] == [CloseClicked(1), NewTabClicked, CloseClicked(2)];
  }

  /** The same events with the corrected id rule leave the tab opened last. */
  lemma DuplicateIdTraceCorrected(s0: Session)
    requires s0.tabs == [BlankTab(1)] && s0.activeId == 1
    ensures CloseTab(NewTabFresh(CloseTab(NewTabFresh(s0), 1).session), 2) == Ok(s0.(tabs := [BlankTab(3)], activeId := 3, urlBar := ""))
  {
    var s2 := OpenSecondCloseFirst(s0);
    assert MaxId(s2.tabs) == 2;
    var s3 := NewTabFresh(s2);
    assert s3 == s0.(tabs := [BlankTab(2), BlankTab(3)], activeId := 3, urlBar := "");
    FilterTwo(BlankTab(2), BlankTab(3), 2);
  }

  /** The first two events, on which both id rules agree: a second tab opens
      and the first closes, leaving tab 2 alone and active. */
  lemma OpenSecondCloseFirst(s0: Session) returns (s2: Session)
    requires s0.tabs == [BlankTab(1)] && s0.activeId == 1
    ensures NewTabFresh(s0) == NewTab(s0)
    ensures CloseTab(NewTab(s0), 1) == Ok(s2)
    ensures s2 == s0.(tabs := [BlankTab(2)], activeId := 2, urlBar := "")
  {
    NewTabFreshAgrees(s0);
    var s1 := NewTab(s0);
    assert s1 == s0.(tabs := [BlankTab(1), BlankTab(2)], activeId := 2, urlBar := "");
    CloseInactive(s1, 1);
    s2 := s1.(tabs := [BlankTab(2)]);
  }

  /** Closing the inactive first tab of two leaves the second. */
  lemma CloseInactive(s: Session, id: TabId)
    requires s.tabs == [BlankTab(id), BlankTab(id + 1)] && s.activeId == id + 1
    ensures CloseTab(s, id) == Ok(s.(tabs := [BlankTab(id + 1)]))
  {
    FilterTwo(BlankTab(id), BlankTab(id + 1), id);
  }

  /** Closing `id` among two tabs, spelled out. */
  lemma FilterTwo(a: Tab, b: Tab, id: TabId)
    ensures Filter([a, b], OtherThan(id)) == (if a.id != id then [a] else []) + (if b.id != id then [b] else [])
  {
    assert [a, b][1..] == [b];
    assert [b][1..] == [];
  }
}
