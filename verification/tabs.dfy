/**
  The tab strip: open tabs, the active tab id and the address-bar text, with
  the new-tab, close-tab, activate and home transitions.
 */
module TabSet {
  import opened Types
  import opened Seqs

  predicate HasId(tabs: seq<Tab>, id: TabId) {
    exists i :: 0 <= i < |tabs| && tabs[i].id == id
  }

  predicate DistinctIds(tabs: seq<Tab>) {
    forall i, j :: 0 <= i < j < |tabs| ==> tabs[i].id != tabs[j].id
  }

  /** The tab-set invariant the page relies on: at least one tab, and exactly
      one tab whose id is the active id. */
  predicate TabsValid(s: Session) {
    |s.tabs| >= 1 && HasId(s.tabs, s.activeId) && DistinctIds(s.tabs)
  }

  /** The result of an event handler: it returns normally, or it throws after
      having queued the state in `session`. */
  datatype Outcome = Ok(session: Session) | Threw(session: Session)

  /** Appends a blank tab with the given id, makes it active and clears the
      address bar. */
  function OpenTab(s: Session, id: TabId): Session {
    s.(tabs := s.tabs + [BlankTab(id)], activeId := id, urlBar := "")
  }

  /** `addNewTab` as the page writes it: the new id is the tab count plus one. */
  function NewTab(s: Session): (r: Session)
    ensures |r.tabs| == |s.tabs| + 1
    ensures r.tabs[..|s.tabs|] == s.tabs
    ensures r.tabs[|s.tabs|] == Tab(|s.tabs| + 1, NewTabTitle, "", None)
    ensures r.activeId == |s.tabs| + 1 && r.urlBar == ""
    ensures r.(tabs := s.tabs, activeId := s.activeId, urlBar := s.urlBar) == s
  {
    OpenTab(s, |s.tabs| + 1)
  }

  /** The largest tab id in use, 0 when there are no tabs. */
  function MaxId(tabs: seq<Tab>): (m: TabId)
    ensures forall i :: 0 <= i < |tabs| ==> tabs[i].id <= m
    ensures tabs != [] ==> HasId(tabs, m)
    ensures tabs == [] ==> m == 0
  {
    if tabs == [] then 0
    else
      var m := MaxId(tabs[1..]);
      if tabs[0].id >= m then tabs[0].id
      else
        assert forall i :: 1 <= i < |tabs| ==> tabs[i] == tabs[1..][i - 1];
        m
  }

  /** `addNewTab` with an id that no open tab has: one above the largest. */
  function NewTabFresh(s: Session): (r: Session)
    ensures |r.tabs| == |s.tabs| + 1
    ensures r.tabs[..|s.tabs|] == s.tabs
    ensures r.tabs[|s.tabs|] == BlankTab(r.activeId)
    ensures !HasId(s.tabs, r.activeId)
    ensures r.urlBar == ""
    ensures r.(tabs := s.tabs, activeId := s.activeId, urlBar := s.urlBar) == s
  {
    OpenTab(s, MaxId(s.tabs) + 1)
  }

  /** Adding a tab keeps the ids distinct exactly when they were distinct and
      the new id is not already in use. */
  lemma OpenTabDistinct(s: Session, id: TabId)
    ensures DistinctIds(OpenTab(s, id).tabs) <==> DistinctIds(s.tabs) && !HasId(s.tabs, id)
  {
    var t := OpenTab(s, id).tabs;
    assert forall i :: 0 <= i < |s.tabs| ==> t[i] == s.tabs[i];
    if HasId(s.tabs, id) {
      var k :| 0 <= k < |s.tabs| && s.tabs[k].id == id;
      assert t[k].id == t[|s.tabs|].id;
    }
  }

  /** `addNewTab` as written duplicates an id exactly when the tab count plus
      one is already in use, which closing any tab but the last can bring
      about. */
  lemma NewTabDuplicates(s: Session)
    requires DistinctIds(s.tabs)
    ensures !DistinctIds(NewTab(s).tabs) <==> HasId(s.tabs, |s.tabs| + 1)
  {
    OpenTabDistinct(s, |s.tabs| + 1);
  }

  /** The corrected `addNewTab` keeps the ids distinct and the invariant. */
  lemma NewTabFreshValid(s: Session)
    requires TabsValid(s)
    ensures TabsValid(NewTabFresh(s))
  {
    OpenTabDistinct(s, MaxId(s.tabs) + 1);
    var r := NewTabFresh(s);
    assert r.tabs[|s.tabs|].id == r.activeId;
  }

  /** While no tab has been closed the ids are 1, 2, ..., n, and the
      corrected `addNewTab` picks the same id as the page's. */
  lemma NewTabFreshAgrees(s: Session)
    requires forall i :: 0 <= i < |s.tabs| ==> s.tabs[i].id == i + 1
    ensures NewTabFresh(s) == NewTab(s)
  {
    if s.tabs != [] {
      var m := MaxId(s.tabs);
      var k :| 0 <= k < |s.tabs| && s.tabs[k].id == m;
      assert s.tabs[|s.tabs| - 1].id <= m;
    }
  }

  function OtherThan(id: TabId): Tab -> bool {
    (t: Tab) => t.id != id
  }

  /** `closeTab`: refuses to close the only tab; otherwise drops every tab
      with the id and, when the active tab went, activates the first
      remaining one, which throws if none remains. */
  function CloseTab(s: Session, id: TabId): (r: Outcome)
    ensures |s.tabs| == 1 ==> r == Ok(s)
    ensures |s.tabs| != 1 ==> Subsequence(r.session.tabs, s.tabs)
    ensures |s.tabs| != 1 ==> forall i :: 0 <= i < |r.session.tabs| ==> r.session.tabs[i].id != id
    ensures |s.tabs| != 1 ==> forall t: Tab :: t.id != id ==> multiset(r.session.tabs)[t] == multiset(s.tabs)[t]
    ensures r.Threw? <==> |s.tabs| != 1 && s.activeId == id && forall i :: 0 <= i < |s.tabs| ==> s.tabs[i].id == id
    ensures r.Ok? && |s.tabs| != 1 && s.activeId == id ==> r.session.activeId == r.session.tabs[0].id
    ensures s.activeId != id ==> r.session.activeId == s.activeId
    ensures r.Threw? ==> r.session.activeId == s.activeId && r.session.tabs == []
    ensures r.session.(tabs := s.tabs, activeId := s.activeId) == s
  {
    if |s.tabs| == 1 then Ok(s)
    else
      var remaining := Filter(s.tabs, OtherThan(id));
      FilterCounts(s.tabs, OtherThan(id));
      FilterSubsequence(s.tabs, OtherThan(id));
      if s.activeId != id then Ok(s.(tabs := remaining))
      else if remaining == [] then Threw(s.(tabs := remaining))
      else Ok(s.(tabs := remaining, activeId := remaining[0].id))
  }

  /** With distinct ids, closing any tab of two or more leaves a valid set. */
  lemma CloseTabValid(s: Session, id: TabId)
    requires TabsValid(s)
    ensures CloseTab(s, id).Ok?
    ensures TabsValid(CloseTab(s, id).session)
  {
    var r := CloseTab(s, id);
    if |s.tabs| != 1 {
      var k :| 0 <= k < |s.tabs| && s.tabs[k].id == s.activeId;
      var other := if k == 0 then 1 else 0;
      assert s.tabs[other].id != s.tabs[k].id;
      var kept := if s.tabs[k].id != id then k else other;
      assert s.tabs[kept].id != id;
      assert multiset(r.session.tabs)[s.tabs[kept]] == multiset(s.tabs)[s.tabs[kept]] > 0;
      SubsequenceDistinct(r.session.tabs, s.tabs);
      if s.activeId != id {
        assert s.tabs[k] in multiset(r.session.tabs);
      }
    }
  }

  /** Deleting tabs cannot create a duplicate id. */
  lemma {:induction false} SubsequenceDistinct(a: seq<Tab>, b: seq<Tab>)
    requires Subsequence(a, b) && DistinctIds(b)
    ensures DistinctIds(a)
    ensures forall i :: 0 <= i < |a| ==> HasId(b, a[i].id)
    decreases |b|
  {
    if a != [] {
      assert DistinctIds(b[1..]) by {
        forall i, j | 0 <= i < j < |b[1..]| ensures b[1..][i].id != b[1..][j].id {
          assert b[1..][i] == b[i + 1] && b[1..][j] == b[j + 1];
        }
      }
      if a[0] == b[0] && Subsequence(a[1..], b[1..]) {
        SubsequenceDistinct(a[1..], b[1..]);
        forall i | 0 <= i < |a| ensures HasId(b, a[i].id) {
          if i > 0 {
            var k :| 0 <= k < |b[1..]| && b[1..][k].id == a[1..][i - 1].id;
            assert b[k + 1].id == a[i].id;
          }
        }
        forall i, j | 0 <= i < j < |a| ensures a[i].id != a[j].id {
          if i == 0 {
            var k :| 0 <= k < |b[1..]| && b[1..][k].id == a[1..][j - 1].id;
            assert b[k + 1].id == a[j].id;
          } else {
            assert a[i] == a[1..][i - 1] && a[j] == a[1..][j - 1];
          }
        }
      } else {
        SubsequenceDistinct(a, b[1..]);
        forall i | 0 <= i < |a| ensures HasId(b, a[i].id) {
          var k :| 0 <= k < |b[1..]| && b[1..][k].id == a[i].id;
          assert b[k + 1].id == a[i].id;
        }
      }
    }
  }

  /** Activating a tab by clicking it: the tab at `index` becomes active. */
  function Activate(s: Session, index: nat): (r: Session)
    requires index < |s.tabs|
    ensures HasId(r.tabs, r.activeId)
    ensures r.activeId == s.tabs[index].id
    ensures r.(activeId := s.activeId) == s
  {
    s.(activeId := s.tabs[index].id)
  }

  /** Returns every tab whose id is `active` to the blank page. */
  function ResetActive(tabs: seq<Tab>, active: TabId): (r: seq<Tab>)
    ensures |r| == |tabs|
    ensures forall i :: 0 <= i < |tabs| && tabs[i].id == active ==> r[i] == tabs[i].(url := "", title := NewTabTitle)
    ensures forall i :: 0 <= i < |tabs| && tabs[i].id != active ==> r[i] == tabs[i]
  {
    if tabs == [] then []
    else
      var t := tabs[0];
      [if t.id == active then t.(url := "", title := NewTabTitle) else t] + ResetActive(tabs[1..], active)
  }

  /** `handleHome`: the active tab shows the blank page again, every other
      tab is untouched, and the address bar is cleared. */
  function Home(s: Session): (r: Session)
    ensures |r.tabs| == |s.tabs| && r.urlBar == ""
    ensures forall i :: 0 <= i < |s.tabs| ==> r.tabs[i].id == s.tabs[i].id && r.tabs[i].favicon == s.tabs[i].favicon
    ensures forall i :: 0 <= i < |s.tabs| && s.tabs[i].id == s.activeId ==> r.tabs[i].url == "" && r.tabs[i].title == NewTabTitle
    ensures forall i :: 0 <= i < |s.tabs| && s.tabs[i].id != s.activeId ==> r.tabs[i] == s.tabs[i]
    ensures r.(tabs := s.tabs, urlBar := s.urlBar) == s
  {
    s.(tabs := ResetActive(s.tabs, s.activeId), urlBar := "")
  }

  /** Going home twice is the same as going home once. */
  lemma HomeIdempotent(s: Session)
    ensures Home(Home(s)) == Home(s)
  {
    var once, twice := Home(s), Home(Home(s));
    assert twice.tabs == once.tabs by {
      forall i | 0 <= i < |s.tabs| ensures twice.tabs[i] == once.tabs[i] { }
    }
  }

  /** Going home keeps the ids, so it keeps the tab-set invariant. */
  lemma HomeValid(s: Session)
    requires TabsValid(s)
    ensures TabsValid(Home(s))
  {
    var k :| 0 <= k < |s.tabs| && s.tabs[k].id == s.activeId;
    assert Home(s).tabs[k].id == s.activeId;
  }
}
