/** What any run of completions, loads and refreshes keeps of the history list. */
module HistoryRuns {
  import opened History
  import opened HistoryList
  import opened Results

  /** What is shown is the filtered image of what is loaded, whatever the daemon serves. */
  ghost predicate Coherent(v: View, f: Filters) {
    && v.entries == ApplyClientFilters(v.loaded, f)
    && v.loadedCount == |v.loaded|
    && v.loadedIds == Ids(v.loaded)
  }

  lemma FetchCoherent(paging: Paging, f: Filters, v: View, append: bool, logs: seq<seq<Entry>>)
    requires logs != [] && Coherent(v, f) && (append || v == EMPTY)
    ensures Coherent(Fetched(paging, f, v, append, logs), f)
  {
    hide WalkPages, ApplyClientFilters, Ids;
    var w := WalkPages(paging, f, logs, if append then v.cursor else None);
    FilterConcat(v.loaded, w.rows, f);
    IdsConcat(v.loaded, w.rows);
    NothingMatches(f);
  }

  lemma RefreshCoherent(paging: Paging, f: Filters, v: View, log: seq<Entry>)
    requires Coherent(v, f)
    ensures Coherent(Refreshed(paging, f, v, log), f)
  {
    hide Serve, ApplyClientFilters, Ids, NotIn;
    var newer := NotIn(Serve(paging, log, None).entries, v.loadedIds);
    FilterConcat(newer, v.loaded, f);
    IdsConcat(newer, v.loaded);
  }

  /**
   * The loaded list is rows `lo` to `hi` of the log without gap or duplicate; `hasMore` says
   * exactly whether older rows remain, and the cursor, issued when the log had `issued` rows,
   * stands for the oldest row loaded.
   */
  ghost predicate Tracks(paging: Paging, v: View, log: seq<Entry>, lo: nat, hi: nat, issued: nat) {
    && lo <= hi <= |log| && v.loaded == Held(log, lo, hi)
    && v.hasMore == (lo > 0)
    && (lo > 0 ==> hi - lo >= HISTORY_PAGE_SIZE && lo <= issued <= |log| && v.cursor == CursorAt(paging, issued, lo))
  }

  // ---- each action --------------------------------------------------------------------

  lemma CompletionTracks(paging: Paging, v: View, log: seq<Entry>, more: seq<Entry>, lo: nat, hi: nat, issued: nat)
    requires Tracks(paging, v, log, lo, hi, issued) && log <= more
    ensures Tracks(paging, v, more, lo, hi, issued)
  {
    HeldGrows(log, more, lo, hi);
  }

  /** Whether no page of a load can be served from a place the cursor did not mean. */
  ghost predicate Steady(paging: Paging, logs: seq<seq<Entry>>, issued: nat) {
    paging.ByEntry? || NoneSince(logs, |logs|, issued)
  }

  lemma LoadTracks(
    paging: Paging, f: Filters, v: View, logs: seq<seq<Entry>>, last: seq<Entry>, lo: nat, hi: nat, issued: nat)
    returns (older: nat, now: nat)
    requires logs != [] && Growing(logs, last)
    requires Tracks(paging, v, logs[0], lo, hi, issued) && v.hasMore && Steady(paging, logs, issued)
    ensures older < lo && Tracks(paging, Fetched(paging, f, v, true, logs), last, older, hi, now)
  {
    hide WalkPages, ApplyClientFilters, Ids;
    older, now := WalkTracks(paging, f, logs, last, issued, lo);
    HeldJoin(last, older, lo, hi);
    HeldGrows(logs[0], last, lo, hi);
  }

  /** The first fetch starts the list at the newest entry. */
  lemma OpenTracks(paging: Paging, f: Filters, logs: seq<seq<Entry>>, last: seq<Entry>) returns (lo: nat, now: nat)
    requires logs != [] && Growing(logs, last) && Steady(paging, logs, |logs[0]|)
    ensures Tracks(paging, Fetched(paging, f, EMPTY, false, logs), last, lo, |logs[0]|, now)
  {
    hide Serve, ApplyClientFilters, Ids;
    var n := |logs[0]|;
    lo, now := PageEnd(n), n;
    ServesNewest(paging, logs[0]);
    var w, r := WalkPages(paging, f, logs, None), Serve(paging, logs[0], None);
    HeldGrows(logs[0], last, lo, n);
    if w.calls > 1 {
      GrowingTail(logs, last);
      assert forall i :: 0 <= i < |logs| - 1 ==> logs[1..][i] == logs[i + 1];
      var mid := lo;
      lo, now := WalkTracks(paging, f, logs[1..], last, n, mid);
      HeldJoin(last, lo, mid, n);
    }
  }

  lemma {:induction false} NotInConcat(a: seq<Entry>, b: seq<Entry>, ids: set<string>)
    ensures NotIn(a + b, ids) == NotIn(a, ids) + NotIn(b, ids)
  {
    if a == [] {
      assert a + b == b;
    } else {
      hide OneIf;
      NotInConcat(a[1..], b, ids);
      assert (a + b)[1..] == a[1..] + b && (a + b)[0] == a[0];
      Associative(OneIf(a[0].workUnit !in ids, a[0]), NotIn(a[1..], ids), NotIn(b, ids));
    }
  }

  lemma {:induction false} NotInWhole(a: seq<Entry>, ids: set<string>)
    ensures (forall i :: 0 <= i < |a| ==> a[i].workUnit !in ids) ==> NotIn(a, ids) == a
    ensures (forall i :: 0 <= i < |a| ==> a[i].workUnit in ids) ==> NotIn(a, ids) == []
  {
    if a != [] {
      NotInWhole(a[1..], ids);
      assert forall i :: 0 <= i < |a| - 1 ==> a[1..][i] == a[i + 1];
    }
  }

  lemma IdsOfHeld(log: seq<Entry>, lo: nat, hi: nat, at: nat)
    requires UniqueIds(log) && lo <= hi <= |log| && at < |log|
    ensures log[at].workUnit in Ids(Held(log, lo, hi)) <==> lo <= at < hi
  {
    var held := Held(log, lo, hi);
    if lo <= at < hi { assert held[hi - 1 - at] == log[at] && log[at] in held; }
    if log[at].workUnit in Ids(held) {
      var e :| e in held && e.workUnit == log[at].workUnit;
      var i :| 0 <= i < |held| && held[i] == e;
      assert log[hi - 1 - i].workUnit == log[at].workUnit;
    }
  }

  /** What the newest page holds that is not loaded: all of it, or the rows above the loaded ones. */
  lemma NewerRows(log: seq<Entry>, lo: nat, hi: nat)
    requires UniqueIds(log) && lo <= hi <= |log| && (lo > 0 ==> hi - lo >= HISTORY_PAGE_SIZE)
    ensures var end := PageEnd(|log|);
            NotIn(Held(log, end, |log|), Ids(Held(log, lo, hi))) ==
            if lo == hi || hi <= end then Held(log, end, |log|) else Held(log, hi, |log|)
  {
    hide UniqueIds, Ids, NotIn;
    var n, end, ids := |log|, PageEnd(|log|), Ids(Held(log, lo, hi));
    forall at: nat | at < n ensures log[at].workUnit in ids <==> lo <= at < hi { IdsOfHeld(log, lo, hi, at); }
    if lo == hi || hi <= end {
      NotInWhole(Held(log, end, n), ids);
    } else {
      HeldJoin(log, end, hi, n);
      NotInConcat(Held(log, hi, n), Held(log, end, hi), ids);
      NotInWhole(Held(log, hi, n), ids);
      NotInWhole(Held(log, end, hi), ids);
      assert lo <= end;
      assert Held(log, hi, n) + [] == Held(log, hi, n);
    }
  }

  /**
   * A refresh leaves a run that starts at the newest entry. It starts over from the newest page
   * exactly when nothing was loaded or a whole page or more completed since; otherwise it keeps
   * every loaded row and the cursor.
   */
  lemma RefreshTracks(paging: Paging, f: Filters, v: View, log: seq<Entry>, lo: nat, hi: nat, issued: nat)
    returns (oldest: nat, now: nat)
    requires UniqueIds(log) && Coherent(v, f) && Tracks(paging, v, log, lo, hi, issued)
    ensures Tracks(paging, Refreshed(paging, f, v, log), log, oldest, |log|, now)
    ensures if v.loaded == [] || |log| - hi >= HISTORY_PAGE_SIZE then oldest == PageEnd(|log|)
            else oldest == lo && Refreshed(paging, f, v, log).cursor == v.cursor
  {
    hide Serve, ApplyClientFilters, Ids, NotIn, UniqueIds;
    ServesNewest(paging, log);
    NewerRows(log, lo, hi);
    var n, end := |log|, PageEnd(|log|);
    if lo == hi || hi <= end {
      oldest, now := end, n;
    } else {
      oldest, now := lo, issued;
      HeldJoin(log, lo, hi, n);
    }
  }

  // ---- runs ---------------------------------------------------------------------------

  /** A completion, a load during which further entries arrive between pages, or a refresh. */
  datatype Action = Complete(e: Entry) | LoadMore(arrivals: seq<seq<Entry>>) | Refresh

  datatype App = App(view: View, log: seq<Entry>)

  /** The log at each call of a load. */
  function LogsDuring(log: seq<Entry>, arrivals: seq<seq<Entry>>): (logs: seq<seq<Entry>>)
    ensures |logs| == |arrivals| + 1 && logs[0] == log
    decreases |arrivals|
  {
    if arrivals == [] then [log] else [log] + LogsDuring(log + arrivals[0], arrivals[1..])
  }

  predicate Possible(a: Action) { a.LoadMore? ==> |a.arrivals| == 4 }

  function Step(paging: Paging, f: Filters, s: App, a: Action): App {
    match a
    case Complete(e) => s.(log := s.log + [e])
    case LoadMore(arrivals) =>
      var logs := LogsDuring(s.log, arrivals);
      App(if s.view.hasMore then Fetched(paging, f, s.view, true, logs) else s.view, logs[|arrivals|])
    case Refresh => s.(view := Refreshed(paging, f, s.view, s.log))
  }

  function Run(paging: Paging, f: Filters, s: App, actions: seq<Action>): App
    decreases |actions|
  {
    if actions == [] then s else Run(paging, f, Step(paging, f, s, actions[0]), actions[1..])
  }

  lemma {:induction false} DuringGrows(log: seq<Entry>, arrivals: seq<seq<Entry>>)
    ensures var logs := LogsDuring(log, arrivals); Growing(logs, logs[|arrivals|])
    decreases |arrivals|
  {
    if arrivals != [] {
      DuringGrows(log + arrivals[0], arrivals[1..]);
      var rest := LogsDuring(log + arrivals[0], arrivals[1..]);
      var logs := LogsDuring(log, arrivals);
      assert logs == [log] + rest && log <= rest[0];
      forall i, j | 0 <= i <= j < |logs| ensures logs[i] <= logs[j] {
        if i > 0 {
          assert logs[i] == rest[i - 1] && logs[j] == rest[j - 1];
        } else if j > 0 {
          assert logs[j] == rest[j - 1] && rest[0] <= rest[j - 1];
        }
      }
    }
  }

  lemma StepGrows(paging: Paging, f: Filters, s: App, a: Action)
    ensures s.log <= Step(paging, f, s, a).log
  {
    hide Fetched, Refreshed;
    if a.LoadMore? { DuringGrows(s.log, a.arrivals); }
  }

  lemma {:induction false} RunGrows(paging: Paging, f: Filters, s: App, actions: seq<Action>)
    ensures s.log <= Run(paging, f, s, actions).log
    decreases |actions|
  {
    hide Step;
    if actions != [] {
      StepGrows(paging, f, s, actions[0]);
      RunGrows(paging, f, Step(paging, f, s, actions[0]), actions[1..]);
    }
  }

  lemma UniquePrefix(log: seq<Entry>, more: seq<Entry>)
    requires UniqueIds(more) && log <= more
    ensures UniqueIds(log)
  {
  }

  ghost predicate Good(paging: Paging, f: Filters, s: App) {
    Coherent(s.view, f) && exists lo, hi, issued :: Tracks(paging, s.view, s.log, lo, hi, issued)
  }

  lemma GoodBy(paging: Paging, f: Filters, s: App, lo: nat, hi: nat, issued: nat)
    requires Coherent(s.view, f) && Tracks(paging, s.view, s.log, lo, hi, issued)
    ensures Good(paging, f, s)
  {
  }

  lemma StepKeeps(f: Filters, s: App, a: Action)
    requires Good(ByEntry, f, s) && Possible(a) && UniqueIds(s.log)
    ensures Good(ByEntry, f, Step(ByEntry, f, s, a))
  {
    hide Coherent, Tracks, UniqueIds, Fetched, Refreshed, Good;
    var lo, hi, issued := Position(f, s);
    match a
    case Complete(e) =>
      CompletionTracks(ByEntry, s.view, s.log, s.log + [e], lo, hi, issued);
      GoodBy(ByEntry, f, Step(ByEntry, f, s, a), lo, hi, issued);
    case LoadMore(arrivals) =>
      var logs := LogsDuring(s.log, arrivals);
      DuringGrows(s.log, arrivals);
      var last := logs[|arrivals|];
      if s.view.hasMore {
        FetchCoherent(ByEntry, f, s.view, true, logs);
        var older, now := LoadTracks(ByEntry, f, s.view, logs, last, lo, hi, issued);
        GoodBy(ByEntry, f, Step(ByEntry, f, s, a), older, hi, now);
      } else {
        CompletionTracks(ByEntry, s.view, s.log, last, lo, hi, issued);
        GoodBy(ByEntry, f, Step(ByEntry, f, s, a), lo, hi, issued);
      }
    case Refresh =>
      RefreshCoherent(ByEntry, f, s.view, s.log);
      var oldest, now := RefreshTracks(ByEntry, f, s.view, s.log, lo, hi, issued);
      GoodBy(ByEntry, f, Step(ByEntry, f, s, a), oldest, |s.log|, now);
  }

  lemma Position(f: Filters, s: App) returns (lo: nat, hi: nat, issued: nat)
    requires Good(ByEntry, f, s)
    ensures Coherent(s.view, f) && Tracks(ByEntry, s.view, s.log, lo, hi, issued)
  {
    hide Coherent, Tracks;
    lo, hi, issued :| Tracks(ByEntry, s.view, s.log, lo, hi, issued);
  }

  /**
   * Under paging by entry, any run of completions, loads and refreshes keeps the loaded list a
   * contiguous newest-first run of the history and what is shown its filtered image.
   */
  lemma {:induction false} RunKeeps(f: Filters, s: App, actions: seq<Action>)
    requires Good(ByEntry, f, s) && UniqueIds(Run(ByEntry, f, s, actions).log)
    requires forall i :: 0 <= i < |actions| ==> Possible(actions[i])
    ensures Good(ByEntry, f, Run(ByEntry, f, s, actions))
    decreases |actions|
  {
    hide Step, UniqueIds, Good, Possible;
    if actions != [] {
      RunGrows(ByEntry, f, s, actions);
      UniquePrefix(s.log, Run(ByEntry, f, s, actions).log);
      assert Possible(actions[0]);
      StepKeeps(f, s, actions[0]);
      RunKeeps(f, Step(ByEntry, f, s, actions[0]), actions[1..]);
    }
  }

  /** From the first fetch on, and after any run that ends in a refresh the list starts at the newest entry. */
  lemma RefreshedRun(f: Filters, logs: seq<seq<Entry>>, last: seq<Entry>, actions: seq<Action>)
    requires logs != [] && Growing(logs, last)
    requires forall i :: 0 <= i < |actions| ==> Possible(actions[i])
    requires UniqueIds(Run(ByEntry, f, App(Fetched(ByEntry, f, EMPTY, false, logs), last), actions).log)
    ensures var s := Run(ByEntry, f, App(Fetched(ByEntry, f, EMPTY, false, logs), last), actions);
            var t := Step(ByEntry, f, s, Refresh);
            && Good(ByEntry, f, s) && Good(ByEntry, f, t)
            && exists lo: nat :: lo <= |t.log| && t.view.loaded == Held(t.log, lo, |t.log|)
  {
    hide Tracks, UniqueIds, Fetched, Refreshed, Coherent;
    var first := App(Fetched(ByEntry, f, EMPTY, false, logs), last);
    EmptyIsCoherent(f);
    FetchCoherent(ByEntry, f, EMPTY, false, logs);
    var lo, now := OpenTracks(ByEntry, f, logs, last);
    GoodBy(ByEntry, f, first, lo, |logs[0]|, now);
    RunKeeps(f, first, actions);
    var s := Run(ByEntry, f, first, actions);
    StepKeeps(f, s, Refresh);
    var a, b, issued := Position(f, s);
    var oldest, at := RefreshTracks(ByEntry, f, s.view, s.log, a, b, issued);
    assert Tracks(ByEntry, Step(ByEntry, f, s, Refresh).view, s.log, oldest, |s.log|, at);
    TracksHolds(ByEntry, Step(ByEntry, f, s, Refresh).view, s.log, oldest, |s.log|, at);
  }

  lemma TracksHolds(paging: Paging, v: View, log: seq<Entry>, lo: nat, hi: nat, issued: nat)
    requires Tracks(paging, v, log, lo, hi, issued)
    ensures lo <= hi <= |log| && v.loaded == Held(log, lo, hi)
  {
  }

  lemma EmptyIsCoherent(f: Filters)
    ensures Coherent(EMPTY, f)
  {
    NothingMatches(f);
  }

  /**
   * What the app's load makes of the daemon's real paging: the list stays a contiguous run
   * exactly when nothing completed since the cursor was issued, up to the last page read.
   */
  lemma LoadContinuesExactlyWhen(
    paging: Paging, f: Filters, v: View, logs: seq<seq<Entry>>, last: seq<Entry>, lo: nat, hi: nat, issued: nat)
    requires logs != [] && Growing(logs, last) && UniqueIds(last)
    requires Tracks(paging, v, logs[0], lo, hi, issued) && v.hasMore
    ensures IsRun(Fetched(paging, f, v, true, logs).loaded, last) <==>
            paging.ByEntry? || NoneSince(logs, WalkPages(paging, f, logs, v.cursor).calls, issued)
  {
    hide WalkPages, ApplyClientFilters, Ids, IsRun, UniqueIds;
    HeldGrows(logs[0], last, lo, hi);
    WalkContinuesExactlyWhen(paging, f, logs, last, issued, lo, hi);
  }

  lemma {:induction false} NoFilterShowsAll(es: seq<Entry>)
    ensures ApplyClientFilters(es, Filters("", "all")) == es
  {
    if es != [] { NoFilterShowsAll(es[1..]); }
  }

  /** With more than a page of history and no filter, one completion before a load shows a row twice. */
  lemma IndexCursorRepeatsRow(log: seq<Entry>, e: Entry)
    requires |log| > HISTORY_PAGE_SIZE
    ensures var f := Filters("", "all");
            var v := Fetched(ByIndex, f, EMPTY, false, [log]);
            var w := Fetched(ByIndex, f, v, true, [log + [e]]);
            && v.hasMore && |w.entries| > HISTORY_PAGE_SIZE
            && w.entries[HISTORY_PAGE_SIZE - 1] == w.entries[HISTORY_PAGE_SIZE] == log[|log| - HISTORY_PAGE_SIZE]
  {
    hide Serve, Ids, ApplyClientFilters;
    var f := Filters("", "all");
    var n, more := |log|, log + [e];
    var v := Fetched(ByIndex, f, EMPTY, false, [log]);
    ServesNewest(ByIndex, log);
    NoFilterShowsAll(Held(log, PageEnd(n), n));
    ServesBelow(ByIndex, more, n, PageEnd(n));
    var start := PageEnd(n) + 1;
    NoFilterShowsAll(Held(more, PageEnd(start), start));
    var w := Fetched(ByIndex, f, v, true, [more]);
    assert w.entries == Held(log, PageEnd(n), n) + Held(more, PageEnd(start), start);
  }

  // ---- exactly one page of completions ------------------------------------------------

  /** A history of `n` units, told apart by the lengths of their identifiers. */
  function Numbered(n: nat): seq<Entry> { seq(n, i requires 0 <= i < n => Entry(seq(i, _ => 'x'), "", "accepted")) }

  lemma NumberedIsUnique(n: nat)
    ensures UniqueIds(Numbered(n))
  {
    forall i, j | 0 <= i < j < n ensures Numbered(n)[i].workUnit != Numbered(n)[j].workUnit {
      assert |Numbered(n)[i].workUnit| == i && |Numbered(n)[j].workUnit| == j;
    }
  }

  /**
   * One unit is loaded and exactly fifty more complete, not more than a page of them: the refresh
   * already drops the loaded unit and starts over.
   */
  lemma PageOfCompletionsStartsOver(paging: Paging, f: Filters)
    ensures var v := Fetched(paging, f, EMPTY, false, [Numbered(1)]);
            && v.loaded == Numbered(1)
            && Refreshed(paging, f, v, Numbered(51)).loaded == Held(Numbered(51), 1, 51)
  {
    hide Serve, ApplyClientFilters, Ids, Numbered, UniqueIds, Coherent;
    var logs := [Numbered(1)];
    NumberedSizes();
    var v := Fetched(paging, f, EMPTY, false, logs);
    EmptyIsCoherent(f);
    FetchCoherent(paging, f, EMPTY, false, logs);
    var lo, now := OpenTracks(paging, f, logs, Numbered(1));
    CompletionTracks(paging, v, Numbered(1), Numbered(51), lo, 1, now);
    NumberedIsUnique(51);
    var oldest, at := RefreshTracks(paging, f, v, Numbered(51), lo, 1, now);
  }

  lemma NumberedSizes()
    ensures |Numbered(1)| == 1 && |Numbered(51)| == 51 && Numbered(1) <= Numbered(51)
  {
  }
}
