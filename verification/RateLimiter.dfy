/**
 * The fixed-window limiter of the public visualization route: per key a window start and a count,
 * a bounded number of keys, and a reference for what one key sees when it is never evicted.
 */
module RateLimiter {
  import opened OrderedMap
  import opened Results

  datatype Window = Window(start: int, count: nat)

  datatype Config = Config(limit: nat, windowMs: nat, maxKeys: nat)

  type Windows = OMap<Window>

  predicate InWindow(c: Config, m: Windows, now: int, key: string) {
    key in m.table && now - m.table[key].start < c.windowMs
  }

  function Evicted(c: Config, m: Windows, key: string): Windows {
    if key !in m.table && |m.order| >= c.maxKeys && m.order != [] then Delete(m, m.order[0]) else m
  }

  function AfterAllow(c: Config, m: Windows, now: int, key: string): Windows {
    if InWindow(c, m, now, key) then Put(m, key, m.table[key].(count := m.table[key].count + 1))
    else Put(Delete(Evicted(c, m, key), key), key, Window(now, 1))
  }

  function Allowed(c: Config, m: Windows, now: int, key: string): bool {
    InWindow(c, m, now, key) ==> m.table[key].count + 1 <= c.limit
  }

  class Limiter {
    const config: Config
    var windows: Windows

    constructor (config: Config)
      ensures this.config == config && windows == Empty()
    {
      this.config := config;
      windows := Empty();
    }

    method Allow(now: int, key: string) returns (ok: bool)
      modifies this`windows
      ensures ok == Allowed(config, old(windows), now, key)
      ensures windows == AfterAllow(config, old(windows), now, key)
    {
      if key !in windows.table || now - windows.table[key].start >= config.windowMs {
        if key !in windows.table && |windows.order| >= config.maxKeys {
          if windows.order != [] {
            windows := Delete(windows, windows.order[0]);
          }
        }
        windows := Delete(windows, key);
        windows := Put(windows, key, Window(now, 1));
        return true;
      }
      var window := windows.table[key];
      windows := Put(windows, key, window.(count := window.count + 1));
      ok := window.count + 1 <= config.limit;
    }

    method Clear()
      modifies this`windows
      ensures windows == Empty()
    {
      windows := Empty();
    }
  }

  // ---- the tracked keys ---------------------------------------------------------------

  datatype Request = Request(now: int, key: string)

  function Replay(c: Config, reqs: seq<Request>): Windows {
    if reqs == [] then Empty()
    else
      var last := reqs[|reqs| - 1];
      AfterAllow(c, Replay(c, reqs[..|reqs| - 1]), last.now, last.key)
  }

  ghost predicate ClockMonotone(reqs: seq<Request>) {
    forall i, j :: 0 <= i < j < |reqs| ==> reqs[i].now <= reqs[j].now
  }

  function ByStart(): Window -> int { (w: Window) => w.start }

  ghost predicate Orderly(c: Config, m: Windows, now: int) {
    && Valid(m) && Sorted(m, ByStart()) && |m.order| <= c.maxKeys
    && forall k :: k in m.table ==> m.table[k].start <= now
  }

  lemma CountedOrderly(c: Config, m: Windows, now: int, key: string)
    requires Orderly(c, m, now) && key in m.table
    ensures Orderly(c, Put(m, key, m.table[key].(count := m.table[key].count + 1)), now)
  {
    var r := Put(m, key, m.table[key].(count := m.table[key].count + 1));
    forall i, j | 0 <= i < j < |r.order| ensures Stamp(r, ByStart(), i) <= Stamp(r, ByStart(), j) {
      assert Stamp(m, ByStart(), i) <= Stamp(m, ByStart(), j);
      assert m.order[i] in m.order && m.order[j] in m.order;
    }
  }

  lemma DeleteOrderly(c: Config, m: Windows, now: int, key: string)
    requires Orderly(c, m, now)
    ensures Orderly(c, Delete(m, key), now)
    ensures |Delete(m, key).order| == |m.order| - (if key in m.table then 1 else 0)
  {
    DeleteValid(m, key);
    DeleteSorted(m, ByStart(), key);
  }

  lemma AllowOrderly(c: Config, m: Windows, now: int, key: string)
    requires Orderly(c, m, now) && c.maxKeys >= 1
    ensures Orderly(c, AfterAllow(c, m, now, key), now)
  {
    if InWindow(c, m, now, key) {
      CountedOrderly(c, m, now, key);
    } else {
      var e := Evicted(c, m, key);
      if m.order != [] {
        assert m.order[0] in m.order;
        DeleteOrderly(c, m, now, m.order[0]);
      }
      DeleteOrderly(c, e, now, key);
      hide Sorted;
      AppendSorted(Delete(e, key), ByStart(), key, Window(now, 1));
    }
  }

  function Least(m: nat, n: nat): nat { if m < n then m else n }

  lemma AllowSize(c: Config, m: Windows, now: int, key: string)
    requires Orderly(c, m, now) && c.maxKeys >= 1
    ensures |AfterAllow(c, m, now, key).order|
         == (if key in m.table then |m.order| else Least(|m.order| + 1, c.maxKeys))
  {
    hide Sorted, Remove;
    if !InWindow(c, m, now, key) {
      if m.order != [] {
        assert m.order[0] in m.order;
        DeleteOrderly(c, m, now, m.order[0]);
      }
      DeleteOrderly(c, Evicted(c, m, key), now, key);
    }
  }

  lemma {:induction false} ReplayOrderly(c: Config, reqs: seq<Request>, now: int)
    requires ClockMonotone(reqs) && c.maxKeys >= 1
    requires forall i :: 0 <= i < |reqs| ==> reqs[i].now <= now
    ensures Orderly(c, Replay(c, reqs), now)
  {
    if reqs != [] {
      var last := reqs[|reqs| - 1];
      ReplayOrderly(c, reqs[..|reqs| - 1], last.now);
      AllowOrderly(c, Replay(c, reqs[..|reqs| - 1]), last.now, last.key);
    }
  }

  /** The key given up for a new one. */
  ghost predicate Evicts(c: Config, m: Windows, now: int, key: string, victim: string) {
    victim in m.table && victim != key && victim !in AfterAllow(c, m, now, key).table
  }

  lemma VictimIsFront(c: Config, m: Windows, now: int, key: string, victim: string)
    requires Orderly(c, m, now) && Evicts(c, m, now, key, victim)
    ensures m.order != [] && victim == m.order[0] && key !in m.table && |m.order| == c.maxKeys
  {
    hide Sorted, Remove;
  }

  /** Tracked keys stay within the bound, and the key evicted has the oldest window start of all. */
  lemma EvictionIsOldest(c: Config, reqs: seq<Request>, now: int, key: string, victim: string)
    requires ClockMonotone(reqs) && c.maxKeys >= 1
    requires forall i :: 0 <= i < |reqs| ==> reqs[i].now <= now
    ensures var m := Replay(c, reqs);
      && |m.order| <= c.maxKeys && |AfterAllow(c, m, now, key).order| <= c.maxKeys
      && (Evicts(c, m, now, key, victim) ==>
            && key !in m.table && |m.order| == c.maxKeys
            && forall k :: k in m.table ==> m.table[victim].start <= m.table[k].start)
      && |AfterAllow(c, m, now, key).order| == (if key in m.table then |m.order| else Least(|m.order| + 1, c.maxKeys))
  {
    hide Evicts, AfterAllow, Replay;
    var m := Replay(c, reqs);
    ReplayOrderly(c, reqs, now);
    AllowOrderly(c, m, now, key);
    AllowSize(c, m, now, key);
    if Evicts(c, m, now, key, victim) {
      VictimIsFront(c, m, now, key, victim);
      forall k | k in m.table ensures m.table[victim].start <= m.table[k].start {
        var i :| 0 <= i < |m.order| && m.order[i] == k;
        assert i > 0 ==> Stamp(m, ByStart(), 0) <= Stamp(m, ByStart(), i);
      }
    }
  }

  // ---- one key on its own -------------------------------------------------------------

  /** The times one key asked at. */
  function TimesOf(reqs: seq<Request>, key: string): seq<int> {
    if reqs == [] then []
    else TimesOf(reqs[..|reqs| - 1], key) + (if reqs[|reqs| - 1].key == key then [reqs[|reqs| - 1].now] else [])
  }

  /** The window after one more request: a new one when there is none or it has run out. */
  function NextWindow(c: Config, w: Option<Window>, t: int): Window {
    if w.None? || t - w.value.start >= c.windowMs then Window(t, 1) else Window(w.value.start, w.value.count + 1)
  }

  /** The window of a key that shares the limiter with nobody. */
  function Solo(c: Config, ts: seq<int>): Option<Window> {
    if ts == [] then None else Some(NextWindow(c, Solo(c, ts[..|ts| - 1]), ts[|ts| - 1]))
  }

  lemma SoloAppend(c: Config, ts: seq<int>, t: int)
    ensures Solo(c, ts + [t]) == Some(NextWindow(c, Solo(c, ts), t))
  {
    assert (ts + [t])[..|ts|] == ts;
  }

  /** Whether the `i`-th request of such a key is let through. */
  predicate Admitted(c: Config, ts: seq<int>, i: nat)
    requires i < |ts|
  {
    Solo(c, ts[..i + 1]).Some? && (Solo(c, ts[..i + 1]).value.count == 1 || Solo(c, ts[..i + 1]).value.count <= c.limit)
  }

  ghost predicate NeverEvicted(c: Config, reqs: seq<Request>, key: string) {
    forall i :: 0 <= i < |reqs| ==> !Evicts(c, Replay(c, reqs[..i]), reqs[i].now, reqs[i].key, key)
  }

  function WindowOf(m: Windows, key: string): Option<Window> {
    if key in m.table then Some(m.table[key]) else None
  }

  lemma AllowOther(c: Config, m: Windows, now: int, other: string, key: string)
    requires other != key && !Evicts(c, m, now, other, key)
    ensures WindowOf(AfterAllow(c, m, now, other), key) == WindowOf(m, key)
  {
  }

  lemma AllowSelf(c: Config, m: Windows, now: int, key: string)
    ensures WindowOf(AfterAllow(c, m, now, key), key) == Some(NextWindow(c, WindowOf(m, key), now))
  {
  }

  lemma NeverEvictedBefore(c: Config, reqs: seq<Request>, last: Request, key: string)
    requires NeverEvicted(c, reqs + [last], key)
    ensures NeverEvicted(c, reqs, key) && !Evicts(c, Replay(c, reqs), last.now, last.key, key)
  {
    hide Evicts, Replay;
    var all := reqs + [last];
    forall i | 0 <= i <= |reqs| ensures all[..i] == reqs[..i] {
    }
    assert !Evicts(c, Replay(c, all[..|reqs|]), all[|reqs|].now, all[|reqs|].key, key) && reqs[..|reqs|] == reqs;
    forall i | 0 <= i < |reqs| ensures !Evicts(c, Replay(c, reqs[..i]), reqs[i].now, reqs[i].key, key) {
      assert !Evicts(c, Replay(c, all[..i]), all[i].now, all[i].key, key);
    }
  }

  lemma HistoryAppend(c: Config, reqs: seq<Request>, last: Request, key: string)
    ensures Replay(c, reqs + [last]) == AfterAllow(c, Replay(c, reqs), last.now, last.key)
    ensures TimesOf(reqs + [last], key) == TimesOf(reqs, key) + (if last.key == key then [last.now] else [])
  {
    assert (reqs + [last])[..|reqs|] == reqs;
  }

  /** A key that is never evicted has the window it would have alone, whatever the other keys do. */
  lemma {:induction false} OthersDoNotMatter(c: Config, reqs: seq<Request>, key: string)
    requires NeverEvicted(c, reqs, key)
    ensures WindowOf(Replay(c, reqs), key) == Solo(c, TimesOf(reqs, key))
  {
    if reqs != [] {
      hide NeverEvicted, Replay, AfterAllow, TimesOf, Evicts, NextWindow;
      var init, last := reqs[..|reqs| - 1], reqs[|reqs| - 1];
      assert reqs == init + [last];
      NeverEvictedBefore(c, init, last, key);
      OthersDoNotMatter(c, init, key);
      HistoryAppend(c, init, last, key);
      if last.key == key {
        AllowSelf(c, Replay(c, init), last.now, key);
        SoloAppend(c, TimesOf(init, key), last.now);
      } else {
        AllowOther(c, Replay(c, init), last.now, last.key, key);
        assert TimesOf(init, key) + [] == TimesOf(init, key);
      }
    }
  }

  /** And is let through exactly when it would be alone. */
  lemma AllowedIsAdmitted(c: Config, reqs: seq<Request>, now: int, key: string)
    requires c.limit >= 1 && NeverEvicted(c, reqs, key)
    ensures var ts := TimesOf(reqs + [Request(now, key)], key);
      |ts| > 0 && (Allowed(c, Replay(c, reqs), now, key) <==> Admitted(c, ts, |ts| - 1))
  {
    hide NeverEvicted, Replay, TimesOf;
    var last := Request(now, key);
    OthersDoNotMatter(c, reqs, key);
    HistoryAppend(c, reqs, last, key);
    SoloAppend(c, TimesOf(reqs, key), now);
    var ts := TimesOf(reqs + [last], key);
    assert ts[..|ts|] == ts;
    hide Solo;
  }

  /**
   * A request opens a window of its own exactly when the one before has stood for its full length; any other is
   * counted in that window. So no window holds a request its full length after its start.
   */
  lemma WindowsAreFixed(c: Config, ts: seq<int>, t: int)
    requires c.windowMs >= 1 && Ascending(ts + [t])
    ensures Solo(c, [t]) == Some(Window(t, 1))
    ensures ts != [] ==>
      var w, next := Solo(c, ts), Solo(c, ts + [t]);
      && w.Some? && next.Some? && next.value.start <= t < next.value.start + c.windowMs
      && (t < w.value.start + c.windowMs ==> next.value == Window(w.value.start, w.value.count + 1))
      && (t >= w.value.start + c.windowMs ==> next.value == Window(t, 1))
  {
    SoloAppend(c, [], t);
    SoloAppend(c, ts, t);
    assert [] + [t] == [t];
    SoloStart(c, ts + [t]);
  }

  ghost predicate Ascending(ts: seq<int>) { forall i, j :: 0 <= i < j < |ts| ==> ts[i] <= ts[j] }

  /** How many requests at or after `a` and before `a + windowMs` are let through. */
  function AdmittedWithin(c: Config, ts: seq<int>, a: int): nat {
    if ts == [] then 0
    else
      AdmittedWithin(c, ts[..|ts| - 1], a)
      + (if a <= ts[|ts| - 1] < a + c.windowMs && Admitted(c, ts, |ts| - 1) then 1 else 0)
  }

  /** The bound while the current window starts before, inside or after the interval. */
  function Bound(c: Config, ts: seq<int>, a: int): nat {
    match Solo(c, ts)
    case None => 0
    case Some(w) =>
      if ts == [] || ts[|ts| - 1] < a then 0
      else if w.start < a then Least(w.count, c.limit)
      else if w.start < a + c.windowMs then c.limit + Least(w.count, c.limit)
      else 2 * c.limit
  }

  lemma {:induction false} SoloStart(c: Config, ts: seq<int>)
    requires Ascending(ts) && ts != []
    ensures Solo(c, ts).Some? && Solo(c, ts).value.start <= ts[|ts| - 1] && Solo(c, ts).value.count >= 1
  {
    var init := ts[..|ts| - 1];
    if init != [] {
      SoloStart(c, init);
      assert ts[|ts| - 2] <= ts[|ts| - 1];
    }
  }

  lemma {:induction false} WithinBound(c: Config, ts: seq<int>, a: int)
    requires Ascending(ts) && c.limit >= 1
    ensures AdmittedWithin(c, ts, a) <= Bound(c, ts, a)
  {
    if ts != [] {
      var init, t := ts[..|ts| - 1], ts[|ts| - 1];
      assert ts[..|ts|] == ts;
      WithinBound(c, init, a);
      SoloStart(c, ts);
      if init != [] {
        SoloStart(c, init);
        assert init[|init| - 1] <= t;
      }
    }
  }

  /** Any half-open interval one window long lets through at most twice the limit. */
  lemma AtMostTwiceTheLimit(c: Config, ts: seq<int>, a: int)
    requires Ascending(ts) && c.limit >= 1
    ensures AdmittedWithin(c, ts, a) <= 2 * c.limit
  {
    WithinBound(c, ts, a);
  }

  /** How many requests fell in the window that starts at `start`, and how many of them got through. */
  function Asked(c: Config, ts: seq<int>, start: int): nat {
    if ts == [] then 0
    else Asked(c, ts[..|ts| - 1], start) + (if Solo(c, ts).Some? && Solo(c, ts).value.start == start then 1 else 0)
  }

  function Granted(c: Config, ts: seq<int>, start: int): nat {
    if ts == [] then 0
    else
      Granted(c, ts[..|ts| - 1], start)
      + (if Solo(c, ts).Some? && Solo(c, ts).value.start == start && Admitted(c, ts, |ts| - 1) then 1 else 0)
  }

  lemma {:induction false} CountIsAsked(c: Config, ts: seq<int>, start: int)
    requires Ascending(ts) && c.windowMs >= 1
    ensures Solo(c, ts).Some? && start == Solo(c, ts).value.start ==> Asked(c, ts, start) == Solo(c, ts).value.count
    ensures Solo(c, ts).Some? && start > Solo(c, ts).value.start ==> Asked(c, ts, start) == 0
    ensures ts == [] ==> Asked(c, ts, start) == 0
  {
    if ts != [] {
      CountIsAsked(c, ts[..|ts| - 1], start);
      if |ts| > 1 {
        SoloStart(c, ts[..|ts| - 1]);
      }
    }
  }

  /** Each window lets through exactly the lesser of what was asked in it and the limit. */
  lemma {:induction false} GrantedExactly(c: Config, ts: seq<int>, start: int)
    requires Ascending(ts) && c.windowMs >= 1 && c.limit >= 1
    ensures Granted(c, ts, start) == Least(Asked(c, ts, start), c.limit)
  {
    if ts != [] {
      GrantedExactly(c, ts[..|ts| - 1], start);
      CountIsAsked(c, ts, start);
      assert ts[..|ts|] == ts;
    }
  }

  // ---- the limiter's own answers ------------------------------------------------------

  /** How many of a key's requests at or after `a` and before `a + windowMs` the limiter let through. */
  function AllowedWithin(c: Config, reqs: seq<Request>, key: string, a: int): nat {
    if reqs == [] then 0
    else
      var init, last := reqs[..|reqs| - 1], reqs[|reqs| - 1];
      var counts := last.key == key && a <= last.now < a + c.windowMs && Allowed(c, Replay(c, init), last.now, key);
      AllowedWithin(c, init, key, a) + if counts then 1 else 0
  }

  /** How many of a key's requests in its window that starts at `start` the limiter let through. */
  function AllowedInWindow(c: Config, reqs: seq<Request>, key: string, start: int): nat {
    if reqs == [] then 0
    else
      var init, last := reqs[..|reqs| - 1], reqs[|reqs| - 1];
      var counts := last.key == key && StartsAt(c, reqs, key, start) && Allowed(c, Replay(c, init), last.now, key);
      AllowedInWindow(c, init, key, start) + if counts then 1 else 0
  }

  /** How many requests a key made in that window. */
  function AskedInWindow(c: Config, reqs: seq<Request>, key: string, start: int): nat {
    if reqs == [] then 0
    else
      AskedInWindow(c, reqs[..|reqs| - 1], key, start)
      + (if reqs[|reqs| - 1].key == key && StartsAt(c, reqs, key, start) then 1 else 0)
  }

  predicate StartsAt(c: Config, reqs: seq<Request>, key: string, start: int) {
    var w := WindowOf(Replay(c, reqs), key);
    w.Some? && w.value.start == start
  }

  /** Adding a request to a history, seen from one key that is not evicted. */
  lemma OneMore(c: Config, init: seq<Request>, last: Request, key: string)
    requires c.limit >= 1 && NeverEvicted(c, init + [last], key)
    ensures NeverEvicted(c, init, key) && TimesOf(init + [last], key) == TimesOf(init, key) + Times(last, key)
    ensures var ts := TimesOf(init + [last], key);
      && WindowOf(Replay(c, init + [last]), key) == Solo(c, ts)
      && (last.key == key ==> |ts| > 0 && (Allowed(c, Replay(c, init), last.now, key) <==> Admitted(c, ts, |ts| - 1)))
  {
    hide NeverEvicted, Replay, TimesOf, Allowed, Admitted, Solo;
    NeverEvictedBefore(c, init, last, key);
    HistoryAppend(c, init, last, key);
    OthersDoNotMatter(c, init + [last], key);
    if last.key == key {
      assert last == Request(last.now, key);
      AllowedIsAdmitted(c, init, last.now, key);
    }
  }

  function Times(r: Request, key: string): seq<int> { if r.key == key then [r.now] else [] }

  lemma {:induction false} CountsAgree(c: Config, reqs: seq<Request>, key: string, a: int)
    requires c.limit >= 1 && NeverEvicted(c, reqs, key)
    ensures var ts := TimesOf(reqs, key);
      && AllowedWithin(c, reqs, key, a) == AdmittedWithin(c, ts, a)
      && AllowedInWindow(c, reqs, key, a) == Granted(c, ts, a) && AskedInWindow(c, reqs, key, a) == Asked(c, ts, a)
    decreases |reqs|
  {
    if reqs != [] {
      hide NeverEvicted, Replay, TimesOf, Allowed, Admitted, Solo;
      var init, last := reqs[..|reqs| - 1], reqs[|reqs| - 1];
      assert reqs == init + [last];
      OneMore(c, init, last, key);
      CountsAgree(c, init, key, a);
      var before, ts := TimesOf(init, key), TimesOf(reqs, key);
      if last.key == key {
        assert ts[..|ts| - 1] == before && ts[|ts| - 1] == last.now;
      } else {
        assert ts == before;
      }
    } else {
      assert TimesOf(reqs, key) == [];
    }
  }

  lemma {:induction false} TimesAscend(reqs: seq<Request>, key: string)
    requires ClockMonotone(reqs)
    ensures Ascending(TimesOf(reqs, key))
    ensures forall i :: 0 <= i < |TimesOf(reqs, key)| ==> TimesOf(reqs, key)[i] <= reqs[|reqs| - 1].now
    decreases |reqs|
  {
    if reqs != [] {
      TimesAscend(reqs[..|reqs| - 1], key);
    }
  }

  /**
   * Under a monotone clock, of the requests a key that is never evicted makes in any half-open
   * interval one window long, the limiter answers yes to at most twice the limit, whatever the
   * other keys do; and in each of its windows it answers yes to exactly as many as it allows.
   */
  lemma LimiterKeepsItsPromise(c: Config, reqs: seq<Request>, key: string, a: int)
    requires c.limit >= 1 && ClockMonotone(reqs) && NeverEvicted(c, reqs, key)
    ensures AllowedWithin(c, reqs, key, a) <= 2 * c.limit
    ensures c.windowMs >= 1 ==> AllowedInWindow(c, reqs, key, a) == Least(AskedInWindow(c, reqs, key, a), c.limit)
  {
    hide NeverEvicted, AllowedWithin, AllowedInWindow, AskedInWindow, AdmittedWithin, Granted, Asked;
    CountsAgree(c, reqs, key, a);
    TimesAscend(reqs, key);
    AtMostTwiceTheLimit(c, TimesOf(reqs, key), a);
    if c.windowMs >= 1 { GrantedExactly(c, TimesOf(reqs, key), a); }
  }
}
