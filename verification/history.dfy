/**
  Submitting the address bar: the input is classified as an external address
  or a search query and recorded at the head of the capped history log, which
  is written through to the store. Clearing the log deletes its key.
 */
module HistoryLog {
  import opened Types
  import opened Seqs
  import opened Persistence

  /** What submitting the address bar asks of the outside world. */
  datatype Effect =
    | Stay                    // empty input: nothing happens
    | OpenWindow(url: string) // a new top-level window on the address
    | SearchFor(query: string) // the search-results route with the raw text as query

  datatype Navigation = Navigation(session: Session, effect: Effect)

  /** Case-sensitive prefix test, as the string method `startsWith`. */
  predicate StartsWith(s: string, prefix: string) {
    |prefix| <= |s| && s[..|prefix|] == prefix
  }

  /** Input that begins with an explicit web scheme is opened as an address;
      anything else is searched for. */
  function Classify(input: string): (e: Effect)
    ensures e != Stay
    ensures e.OpenWindow? <==> "http://" <= input || "https://" <= input
    ensures e.OpenWindow? ==> e.url == input
    ensures e.SearchFor? ==> e.query == input
  {
    if StartsWith(input, "http://") || StartsWith(input, "https://") then OpenWindow(input)
    else SearchFor(input)
  }

  /** Puts `v` at the head of the log and keeps at most the cap. */
  function Record(history: seq<Visit>, v: Visit): (r: seq<Visit>)
    ensures |r| == Min(|history| + 1, HistoryCap)
    ensures r[0] == v
    ensures r[1..] == history[..|r| - 1]
  {
    Take([v] + history, HistoryCap)
  }

  /** `handleNavigate`: empty input does nothing; otherwise the input is
      classified and a visit titled with the input is recorded and stored. */
  function Navigate(s: Session, visitId: string, time: string): (r: Navigation)
    ensures s.urlBar == "" ==> r == Navigation(s, Stay)
    ensures s.urlBar != "" ==> r.effect == Classify(s.urlBar)
    ensures s.urlBar != "" ==> |r.session.history| == Min(|s.history| + 1, HistoryCap)
    ensures s.urlBar != "" ==> r.session.history[0] == Visit(visitId, s.urlBar, s.urlBar, time)
    ensures s.urlBar != "" ==> r.session.history[1..] == s.history[..|r.session.history| - 1]
    ensures LoadHistory(r.session.store) == if s.urlBar == "" then LoadHistory(s.store) else r.session.history
    ensures r.session.store - {HistoryKey} == s.store - {HistoryKey}
    ensures r.session.(history := s.history, store := s.store) == s
  {
    if s.urlBar == "" then Navigation(s, Stay)
    else
      var updated := Record(s.history, Visit(visitId, s.urlBar, s.urlBar, time));
      Navigation(s.(history := updated, store := SaveHistory(s.store, updated)), Classify(s.urlBar))
  }

  /** `clearHistory`: the log becomes empty and its key leaves the store. */
  function ClearHistory(s: Session): (r: Session)
    ensures r.history == [] && HistoryKey !in r.store
    ensures r.store - {HistoryKey} == s.store - {HistoryKey}
    ensures r.(history := s.history, store := s.store) == s
  {
    s.(history := [], store := DeleteHistory(s.store))
  }

  /** Recording a series of visits, oldest first. */
  function RecordAll(history: seq<Visit>, visits: seq<Visit>): seq<Visit>
    decreases |visits|
  {
    if visits == [] then history else RecordAll(Record(history, visits[0]), visits[1..])
  }

  /** The log is newest-first: after any series of visits it holds the
      visits in reverse order followed by the earlier log, cut at the cap.
      A loaded log may be longer than the cap; the first visit cuts it, so
      only the empty series needs the log within the cap. */
  lemma {:induction false} RecordAllNewestFirst(history: seq<Visit>, visits: seq<Visit>)
    requires |history| <= HistoryCap || visits != []
    ensures RecordAll(history, visits) == Take(Reverse(visits) + history, HistoryCap)
    decreases |visits|
  {
    if visits == [] {
      assert Reverse(visits) + history == history;
    } else {
      var v, rest := visits[0], visits[1..];
      RecordAllNewestFirst(Record(history, v), rest);
      TakeAppendTake(Reverse(rest), [v] + history, HistoryCap);
      assert Reverse(visits) == Reverse(rest) + [v];
      assert Reverse(rest) + ([v] + history) == Reverse(visits) + history;
    }
  }
}
