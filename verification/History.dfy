/** The daemon's history pages, as its management API serves them, and what the app's list makes of a run of them. */
module History {
  import opened Results

  datatype Entry = Entry(workUnit: string, leaf: string, status: string)

  datatype Filters = Filters(leafName: string, headAccepted: string)

  const HISTORY_PAGE_SIZE := 50
  const MAX_PAGES_PER_LOAD := 5

  // ---- entries ------------------------------------------------------------------------

  /** The history file is append-only; it is shown from its end. */
  function NewestFirst(log: seq<Entry>): (r: seq<Entry>)
    ensures |r| == |log|
  {
    seq(|log|, i requires 0 <= i < |log| => log[|log| - 1 - i])
  }

  ghost predicate UniqueIds(log: seq<Entry>) {
    forall i, j :: 0 <= i < j < |log| ==> log[i].workUnit != log[j].workUnit
  }

  predicate Shows(e: Entry, f: Filters) {
    && (f.leafName == "" || e.leaf == f.leafName)
    && (f.headAccepted == "all" || e.status == f.headAccepted)
  }

  function OneIf(keep: bool, e: Entry): seq<Entry> { if keep then [e] else [] }

  function ApplyClientFilters(es: seq<Entry>, f: Filters): seq<Entry> {
    if es == [] then [] else OneIf(Shows(es[0], f), es[0]) + ApplyClientFilters(es[1..], f)
  }

  function Ids(es: seq<Entry>): set<string> { set e | e in es :: e.workUnit }

  function NotIn(es: seq<Entry>, ids: set<string>): seq<Entry> {
    if es == [] then [] else OneIf(es[0].workUnit !in ids, es[0]) + NotIn(es[1..], ids)
  }

  lemma {:induction false} FilterConcat(a: seq<Entry>, b: seq<Entry>, f: Filters)
    ensures ApplyClientFilters(a + b, f) == ApplyClientFilters(a, f) + ApplyClientFilters(b, f)
  {
    if a == [] {
      assert a + b == b;
    } else {
      hide OneIf, Shows;
      FilterConcat(a[1..], b, f);
      assert (a + b)[1..] == a[1..] + b && (a + b)[0] == a[0];
      Associative(OneIf(Shows(a[0], f), a[0]), ApplyClientFilters(a[1..], f), ApplyClientFilters(b, f));
    }
  }

  /** What is shown: every entry of the leaf and of the status asked for, when one is, and no other. */
  lemma {:induction false} ShownExactly(es: seq<Entry>, f: Filters, e: Entry)
    ensures e in ApplyClientFilters(es, f) <==>
      e in es && (f.leafName == "" || e.leaf == f.leafName) && (f.headAccepted == "all" || e.status == f.headAccepted)
  {
    if es != [] {
      ShownExactly(es[1..], f, e);
      assert es == [es[0]] + es[1..];
    }
  }

  /** Where the `k`-th shown entry came. */
  ghost function Place(es: seq<Entry>, f: Filters, k: nat): (p: nat)
    requires k < |ApplyClientFilters(es, f)|
    ensures p < |es| && es[p] == ApplyClientFilters(es, f)[k]
  {
    hide Shows;
    if !Shows(es[0], f) then 1 + Place(es[1..], f, k) else if k == 0 then 0 else 1 + Place(es[1..], f, k - 1)
  }

  /** The entries shown keep the order they came in. */
  lemma {:induction false} ShownInOrder(es: seq<Entry>, f: Filters, i: nat, j: nat)
    requires i < j < |ApplyClientFilters(es, f)|
    ensures Place(es, f, i) < Place(es, f, j)
  {
    hide Shows;
    if !Shows(es[0], f) {
      ShownInOrder(es[1..], f, i, j);
    } else if i > 0 {
      ShownInOrder(es[1..], f, i - 1, j - 1);
    }
  }

  lemma Associative(a: seq<Entry>, b: seq<Entry>, c: seq<Entry>)
    ensures (a + b) + c == a + (b + c)
  {
  }

  /** Rows `lo` to `hi` of the log, newest first. */
  function Held(log: seq<Entry>, lo: nat, hi: nat): (rows: seq<Entry>)
    requires lo <= hi <= |log|
    ensures |rows| == hi - lo && forall i :: 0 <= i < hi - lo ==> rows[i] == log[hi - 1 - i]
  {
    NewestFirst(log[lo..hi])
  }

  ghost predicate IsRun(rows: seq<Entry>, log: seq<Entry>) {
    exists lo: nat, hi: nat :: lo <= hi <= |log| && rows == Held(log, lo, hi)
  }

  lemma HeldJoin(log: seq<Entry>, lo: nat, mid: nat, hi: nat)
    requires lo <= mid <= hi <= |log|
    ensures Held(log, mid, hi) + Held(log, lo, mid) == Held(log, lo, hi)
  {
  }

  lemma HeldGrows(log: seq<Entry>, more: seq<Entry>, lo: nat, hi: nat)
    requires lo <= hi <= |log| && log <= more
    ensures Held(log, lo, hi) == Held(more, lo, hi)
  {
  }

  // ---- the daemon's pages -------------------------------------------------------------

  datatype Response = Response(entries: seq<Entry>, next: Option<nat>, hasMore: bool)

  /** The daemon's paging: the cursor is an index into the newest-first history. */
  function GetHistory(log: seq<Entry>, cursor: Option<nat>): Response {
    var filtered := NewestFirst(log);
    var startIdx := if cursor.Some? then cursor.value else 0;
    if startIdx >= |filtered| then Response([], None, false)
    else
      var end := startIdx + HISTORY_PAGE_SIZE;
      if end < |filtered| then Response(filtered[startIdx..end], Some(end), true)
      else Response(filtered[startIdx..], None, false)
  }

  /** The daemon serves up to fifty entries, newest first, past as many as its cursor says. */
  lemma DaemonPage(log: seq<Entry>, cursor: Option<nat>)
    ensures var r := GetHistory(log, cursor);
      var skip := if cursor.Some? then cursor.value else 0;
      && |r.entries| == (if skip >= |log| then 0 else if |log| - skip < 50 then |log| - skip else 50)
      && (forall k :: 0 <= k < |r.entries| ==> r.entries[k] == log[|log| - 1 - skip - k])
      && r.hasMore == (skip + 50 < |log|)
      && r.next == if skip + 50 < |log| then Some(skip + 50) else None
  {
  }

  /** Paging by entry instead: the cursor is the file position of the last row served. */
  function GetHistoryBelow(log: seq<Entry>, cursor: Option<nat>): Response {
    var start := if cursor.Some? && cursor.value <= |log| then cursor.value else |log|;
    var end := PageEnd(start);
    Response(Held(log, end, start), if end > 0 then Some(end) else None, end > 0)
  }

  datatype Paging = ByIndex | ByEntry

  function Serve(paging: Paging, log: seq<Entry>, cursor: Option<nat>): Response {
    match paging
    case ByIndex => GetHistory(log, cursor)
    case ByEntry => GetHistoryBelow(log, cursor)
  }

  function PageEnd(start: nat): (end: nat)
    ensures end <= start
  {
    if start <= HISTORY_PAGE_SIZE then 0 else start - HISTORY_PAGE_SIZE
  }

  /** The cursor that stands for file position `at` when the log has `n` entries. */
  function CursorAt(paging: Paging, n: nat, at: nat): Option<nat>
    requires at <= n
  {
    Some(match paging case ByIndex => n - at case ByEntry => at)
  }

  /** The file position a cursor stands for once the log has `n` entries, `at` when it had `issued`. */
  function Resolved(paging: Paging, issued: nat, n: nat, at: nat): (start: nat)
    requires at <= issued <= n
    ensures start <= n && start >= at
    ensures start == at <==> paging.ByEntry? || issued == n
  {
    match paging case ByIndex => at + (n - issued) case ByEntry => at
  }

  /** Under either paging a cursor yields the page below the position it now stands for. */
  lemma ServesBelow(paging: Paging, log: seq<Entry>, issued: nat, at: nat)
    requires 0 < at <= issued <= |log|
    ensures var start := Resolved(paging, issued, |log|, at);
            var end := PageEnd(start);
            var r := Serve(paging, log, CursorAt(paging, issued, at));
            && start > 0 && r.entries == Held(log, end, start) && r.hasMore == (end > 0)
            && (r.hasMore ==> r.next == CursorAt(paging, |log|, end))
  {
    var start := Resolved(paging, issued, |log|, at);
    if paging.ByIndex? {
      assert GetHistory(log, Some(issued - at)).entries == Held(log, PageEnd(start), start);
    }
  }

  lemma ServesNewest(paging: Paging, log: seq<Entry>)
    ensures var end := PageEnd(|log|);
            var r := Serve(paging, log, None);
            && r.entries == Held(log, end, |log|) && r.hasMore == (end > 0)
            && (r.hasMore ==> r.next == CursorAt(paging, |log|, end))
  {
    assert GetHistory(log, None).entries == Held(log, PageEnd(|log|), |log|);
  }

  // ---- one load: pages until one shows something ---------------------------------------

  datatype Walked = Walked(rows: seq<Entry>, calls: nat, cursor: Option<nat>, more: bool)

  /** Up to one page for each of `logs`, the log as it is at that call. */
  function WalkPages(paging: Paging, f: Filters, logs: seq<seq<Entry>>, cursor: Option<nat>): (w: Walked)
    requires logs != []
    ensures 1 <= w.calls <= |logs|
    decreases |logs|
  {
    var r := Serve(paging, logs[0], cursor);
    if ApplyClientFilters(r.entries, f) != [] || !r.hasMore || |logs| == 1 then
      Walked(r.entries, 1, r.next, r.hasMore)
    else
      var rest := WalkPages(paging, f, logs[1..], r.next);
      Walked(r.entries + rest.rows, rest.calls + 1, rest.cursor, rest.more)
  }

  /**
   * A load stops at the first page that shows something or ends the history: with its last call it has one
   * of these or has used up its calls, and before that call it had neither.
   */
  lemma {:induction false} StopsAtFirstShown(paging: Paging, f: Filters, logs: seq<seq<Entry>>, cursor: Option<nat>)
    requires logs != []
    ensures var w := WalkPages(paging, f, logs, cursor);
      && (ApplyClientFilters(w.rows, f) != [] || !w.more || w.calls == |logs|)
      && (w.calls > 1 ==>
            var before := WalkPages(paging, f, logs[..w.calls - 1], cursor);
            before.calls == w.calls - 1 && ApplyClientFilters(before.rows, f) == [] && before.more)
    decreases |logs|
  {
    hide Serve, ApplyClientFilters;
    var w, r := WalkPages(paging, f, logs, cursor), Serve(paging, logs[0], cursor);
    if w.calls > 1 {
      var rest := WalkPages(paging, f, logs[1..], r.next);
      StopsAtFirstShown(paging, f, logs[1..], r.next);
      FilterConcat(r.entries, rest.rows, f);
      var fewer := logs[..w.calls - 1];
      assert fewer[0] == logs[0] && fewer[1..] == logs[1..][..rest.calls - 1];
      assert fewer == [logs[0]] + logs[1..][..rest.calls - 1];
      if rest.calls > 1 {
        var before := WalkPages(paging, f, logs[1..][..rest.calls - 1], r.next);
        FilterConcat(r.entries, before.rows, f);
        assert WalkPages(paging, f, fewer, cursor) ==
          Walked(r.entries + before.rows, before.calls + 1, before.cursor, before.more);
      }
    }
  }

  /** Logs read one after another while entries are appended. */
  ghost predicate Growing(logs: seq<seq<Entry>>, last: seq<Entry>) {
    && (forall i, j :: 0 <= i <= j < |logs| ==> logs[i] <= logs[j])
    && (forall i :: 0 <= i < |logs| ==> logs[i] <= last)
  }

  ghost predicate NoneSince(logs: seq<seq<Entry>>, calls: nat, issued: nat) {
    forall i :: 0 <= i < calls && i < |logs| ==> |logs[i]| == issued
  }

  /** A run that begins with rows `lo` to `hi` goes on with the row before `lo`. */
  lemma NextInRun(log: seq<Entry>, lo: nat, hi: nat, l: nat, h: nat, rows: seq<Entry>)
    requires UniqueIds(log) && lo < hi <= |log| && l <= h <= |log| && rows != []
    requires Held(log, lo, hi) + rows == Held(log, l, h)
    ensures lo > 0 && rows[0] == log[lo - 1]
  {
    var all := Held(log, lo, hi) + rows;
    assert all[0] == log[hi - 1] && all[0] == log[h - 1];
    assert all[hi - lo] == rows[0] && all[hi - lo] == log[h - 1 - (hi - lo)];
  }

  lemma WrongRow(log: seq<Entry>, lo: nat, hi: nat, rows: seq<Entry>, at: nat)
    requires UniqueIds(log) && lo < hi <= |log| && at < |log| && rows != [] && rows[0] == log[at]
    requires at + 1 != lo
    ensures !IsRun(Held(log, lo, hi) + rows, log)
  {
    if IsRun(Held(log, lo, hi) + rows, log) {
      var l: nat, h: nat :| l <= h <= |log| && Held(log, lo, hi) + rows == Held(log, l, h);
      NextInRun(log, lo, hi, l, h, rows);
    }
  }

  /**
   * A load continues a held run exactly when the daemon pages by entry, or nothing completed
   * between the cursor's issue and the last page read. Under the daemon's own index cursor any
   * completion in between breaks the list.
   */
  lemma {:induction false} WalkContinuesExactlyWhen(
    paging: Paging, f: Filters, logs: seq<seq<Entry>>, last: seq<Entry>, issued: nat, lo: nat, hi: nat)
    requires logs != [] && Growing(logs, last) && UniqueIds(last)
    requires 0 < lo < hi <= |last| && lo <= issued <= |logs[0]|
    ensures var w := WalkPages(paging, f, logs, CursorAt(paging, issued, lo));
            IsRun(Held(last, lo, hi) + w.rows, last) <==> paging.ByEntry? || NoneSince(logs, w.calls, issued)
    decreases |logs|
  {
    hide Serve, ApplyClientFilters, IsRun, UniqueIds, CursorAt, Resolved;
    var cursor := CursorAt(paging, issued, lo);
    var w, r := WalkPages(paging, f, logs, cursor), Serve(paging, logs[0], cursor);
    var n := |logs[0]|;
    var start := Resolved(paging, issued, n, lo);
    var end := PageEnd(start);
    ServesBelow(paging, logs[0], issued, lo);
    HeldGrows(logs[0], last, end, start);
    assert w.rows[..start - end] == r.entries;
    if start != lo {
      WrongRow(last, lo, hi, w.rows, start - 1);
      assert |logs[0]| != issued;
    } else {
      HeldJoin(last, end, lo, hi);
      if w.calls == 1 {
        assert w.rows == r.entries;
        RunOf(last, end, hi);
      } else {
        var rest := WalkPages(paging, f, logs[1..], r.next);
        GrowingTail(logs, last);
        WalkContinuesExactlyWhen(paging, f, logs[1..], last, n, end, hi);
        assert Held(last, lo, hi) + w.rows == Held(last, end, hi) + rest.rows;
        assert NoneSince(logs, w.calls, n) <==> NoneSince(logs[1..], rest.calls, n) by {
          assert forall i :: 0 <= i < |logs| - 1 ==> logs[1..][i] == logs[i + 1];
          assert forall i :: 0 < i < |logs| ==> logs[i] == logs[1..][i - 1];
        }
      }
    }
  }

  lemma RunOf(log: seq<Entry>, lo: nat, hi: nat)
    requires lo <= hi <= |log|
    ensures IsRun(Held(log, lo, hi), log)
  {
  }

  lemma GrowingTail(logs: seq<seq<Entry>>, last: seq<Entry>)
    requires Growing(logs, last) && logs != []
    ensures Growing(logs[1..], last)
    ensures |logs| > 1 ==> logs[0] <= logs[1..][0]
  {
  }

  /** The same load, followed to the cursor it leaves behind. */
  lemma {:induction false} WalkTracks(
    paging: Paging, f: Filters, logs: seq<seq<Entry>>, last: seq<Entry>, issued: nat, at: nat)
    returns (lo: nat, now: nat)
    requires logs != [] && Growing(logs, last)
    requires 0 < at <= issued <= |logs[0]|
    requires paging.ByEntry? || NoneSince(logs, WalkPages(paging, f, logs, CursorAt(paging, issued, at)).calls, issued)
    ensures var w := WalkPages(paging, f, logs, CursorAt(paging, issued, at));
            && lo < at && w.rows == Held(last, lo, at) && w.more == (lo > 0)
            && lo <= now <= |last|
            && (lo > 0 ==> w.cursor == CursorAt(paging, now, lo))
    decreases |logs|
  {
    hide Serve, ApplyClientFilters;
    var cursor := CursorAt(paging, issued, at);
    var w, r := WalkPages(paging, f, logs, cursor), Serve(paging, logs[0], cursor);
    now := |logs[0]|;
    lo := PageEnd(at);
    ServesBelow(paging, logs[0], issued, at);
    HeldGrows(logs[0], last, lo, at);
    if w.calls > 1 {
      var rest := WalkPages(paging, f, logs[1..], r.next);
      GrowingTail(logs, last);
      assert forall i :: 0 <= i < |logs| - 1 ==> logs[1..][i] == logs[i + 1];
      var mid := lo;
      lo, now := WalkTracks(paging, f, logs[1..], last, now, mid);
      HeldJoin(last, lo, mid, at);
    }
  }
}
