/** The history list the app keeps: pages appended as they are loaded, new completions put on top. */
module HistoryList {
  import opened History
  import opened Results

  /** `loaded` is every row received for the current filters, before the client-side ones. */
  datatype View = View(
    loaded: seq<Entry>, entries: seq<Entry>, loadedCount: nat, loadedIds: set<string>,
    cursor: Option<nat>, hasMore: bool)

  const EMPTY := View([], [], 0, {}, None, false)

  function Fetched(paging: Paging, f: Filters, v: View, append: bool, logs: seq<seq<Entry>>): View
    requires logs != []
  {
    var w := WalkPages(paging, f, logs, if append then v.cursor else None);
    var matched := ApplyClientFilters(w.rows, f);
    View(
      if append then v.loaded + w.rows else w.rows,
      if append then v.entries + matched else matched,
      if append then v.loadedCount + |w.rows| else |w.rows|,
      v.loadedIds + Ids(w.rows), w.cursor, w.more)
  }

  function Refreshed(paging: Paging, f: Filters, v: View, log: seq<Entry>): View {
    var r := Serve(paging, log, None);
    var newer := NotIn(r.entries, v.loadedIds);
    if |newer| == |r.entries| then
      View(r.entries, ApplyClientFilters(r.entries, f), |r.entries|, Ids(r.entries), r.next, r.hasMore)
    else
      View(
        newer + v.loaded, ApplyClientFilters(newer, f) + v.entries, v.loadedCount + |newer|, v.loadedIds + Ids(newer),
        v.cursor, v.hasMore)
  }

  class List {
    const paging: Paging
    var filters: Filters
    ghost var loaded: seq<Entry>
    var entries: seq<Entry>
    var loadedCount: nat
    var loadedIds: set<string>
    var cursor: Option<nat>
    var hasMore: bool

    ghost function State(): View
      reads this
    {
      View(loaded, entries, loadedCount, loadedIds, cursor, hasMore)
    }

    constructor (paging: Paging, filters: Filters)
      ensures State() == EMPTY && this.paging == paging && this.filters == filters
    {
      this.paging, this.filters := paging, filters;
      loaded, entries, loadedCount, loadedIds, cursor, hasMore := [], [], 0, {}, None, false;
    }

    /** What a change of filters does before the first page is fetched again. */
    method Reset(f: Filters)
      modifies this
      ensures State() == EMPTY && filters == f
    {
      filters := f;
      loaded, entries, loadedCount, loadedIds, cursor, hasMore := [], [], 0, {}, None, false;
    }

    /** Fetches pages, at most as many as `logs` has, until one shows an entry or the history ends. */
    method FetchPage(append: bool, logs: seq<seq<Entry>>)
      requires |logs| == 5
      modifies this
      ensures State() == Fetched(paging, filters, old(State()), append, logs) && filters == old(filters)
    {
      hide Serve, ApplyClientFilters, WalkPages, IsRest, Ids;
      var at := if append then cursor else None;
      ghost var start := at;
      ghost var rows: seq<Entry> := [];
      var matched: seq<Entry> := [];
      var fetched := 0;
      var more := false;
      var page := 0;
      NothingMatches(filters);
      NoPageYet(paging, filters, logs, start);
      while page < MAX_PAGES_PER_LOAD
        invariant page <= |logs| && matched == ApplyClientFilters(rows, filters) && fetched == |rows|
        invariant loadedIds == old(loadedIds) + Ids(rows)
        invariant loaded == old(loaded) && entries == old(entries) && loadedCount == old(loadedCount)
        invariant hasMore == old(hasMore) && cursor == old(cursor) && filters == old(filters)
        invariant page < |logs| ==> matched == [] && IsRest(paging, filters, logs, start, rows, page, at)
        invariant page == |logs| ==> EndsWith(WalkPages(paging, filters, logs, start), rows, at, more)
      {
        var resp := Serve(paging, logs[page], at);
        fetched := fetched + |resp.entries|;
        loadedIds := loadedIds + Ids(resp.entries);
        matched := matched + ApplyClientFilters(resp.entries, filters);
        FilterConcat(rows, resp.entries, filters);
        IdsConcat(rows, resp.entries);
        OnePageOn(paging, filters, logs, start, rows, page, at);
        rows := rows + resp.entries;
        more := resp.hasMore;
        at := resp.next;
        page := page + 1;
        if matched != [] || !more { break; }
      }
      entries := if append then entries + matched else matched;
      loadedCount := if append then loadedCount + fetched else fetched;
      loaded := if append then loaded + rows else rows;
      cursor := at;
      hasMore := more;
    }

    method LoadMore(logs: seq<seq<Entry>>)
      requires |logs| == 5
      modifies this
      ensures filters == old(filters)
      ensures State() ==
              if old(hasMore) then Fetched(paging, filters, old(State()), true, logs) else old(State())
    {
      if hasMore { FetchPage(true, logs); }
    }

    /** Reads the newest page; what is not loaded yet goes on top, and if that is all of it the list starts over. */
    method Refresh(log: seq<Entry>)
      modifies this
      ensures State() == Refreshed(paging, filters, old(State()), log) && filters == old(filters)
    {
      hide Serve, ApplyClientFilters, NotIn;
      var resp := Serve(paging, log, None);
      var newer := NotIn(resp.entries, loadedIds);
      if |newer| == |resp.entries| {
        loadedIds := Ids(resp.entries);
        entries := ApplyClientFilters(resp.entries, filters);
        loadedCount := |resp.entries|;
        loaded := resp.entries;
        cursor := resp.next;
        hasMore := resp.hasMore;
      } else {
        NothingMatches(filters);
        if |newer| > 0 {
          loadedIds := loadedIds + Ids(newer);
          var matched := ApplyClientFilters(newer, filters);
          if |matched| > 0 { entries := matched + entries; }
          loadedCount := loadedCount + |newer|;
          loaded := newer + loaded;
        } else {
          assert newer == [] && loaded == newer + loaded && entries == [] + entries;
        }
      }
    }
  }

  lemma NothingMatches(f: Filters)
    ensures ApplyClientFilters([], f) == [] && Ids([]) == {}
  {
  }

  /** The pages from `page` on complete the walk that has got `rows` so far. */
  ghost predicate IsRest(
    paging: Paging, f: Filters, logs: seq<seq<Entry>>, start: Option<nat>, rows: seq<Entry>, page: nat, at: Option<nat>)
    requires page < |logs|
  {
    var rest := WalkPages(paging, f, logs[page..], at);
    EndsWith(WalkPages(paging, f, logs, start), rows + rest.rows, rest.cursor, rest.more)
  }

  ghost predicate EndsWith(w: Walked, rows: seq<Entry>, cursor: Option<nat>, more: bool) {
    w.rows == rows && w.cursor == cursor && w.more == more
  }

  lemma NoPageYet(paging: Paging, f: Filters, logs: seq<seq<Entry>>, start: Option<nat>)
    requires logs != []
    ensures IsRest(paging, f, logs, start, [], 0, start)
  {
    hide Serve, ApplyClientFilters, WalkPages;
    assert logs[0..] == logs;
    var rest := WalkPages(paging, f, logs, start);
    assert [] + rest.rows == rest.rows;
  }

  lemma IdsConcat(a: seq<Entry>, b: seq<Entry>)
    ensures Ids(a + b) == Ids(a) + Ids(b)
  {
  }

  lemma OnePageOn(
    paging: Paging, f: Filters, logs: seq<seq<Entry>>, start: Option<nat>, rows: seq<Entry>, page: nat, at: Option<nat>)
    requires page < |logs| && IsRest(paging, f, logs, start, rows, page, at)
    ensures var r := Serve(paging, logs[page], at);
            if ApplyClientFilters(r.entries, f) != [] || !r.hasMore || page + 1 == |logs| then
              EndsWith(WalkPages(paging, f, logs, start), rows + r.entries, r.next, r.hasMore)
            else
              IsRest(paging, f, logs, start, rows + r.entries, page + 1, r.next)
  {
    hide Serve, ApplyClientFilters;
    var r := Serve(paging, logs[page], at);
    var here := logs[page..];
    assert here[0] == logs[page] && here[1..] == logs[page + 1..];
    if !(ApplyClientFilters(r.entries, f) != [] || !r.hasMore || page + 1 == |logs|) {
      var rest := WalkPages(paging, f, here[1..], r.next);
      assert rows + (r.entries + rest.rows) == rows + r.entries + rest.rows;
    }
  }
}
