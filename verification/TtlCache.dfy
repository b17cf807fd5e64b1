/**
 * The short-lived cache of the public visualization route: bounded, evicting the key set longest
 * ago, answering only until an entry's time runs out. The clock is an argument of every call.
 */
module TtlCache {
  import opened OrderedMap
  import opened Results
  import opened Sets

  datatype Entry<T> = Entry(value: T, expires: int)

  datatype Config = Config(ttlMs: nat, maxEntries: nat)

  function Answer<T>(m: OMap<Entry<T>>, now: int, key: string): Option<T> {
    if key in m.table && now < m.table[key].expires then Some(m.table[key].value) else None
  }

  function AfterGet<T>(m: OMap<Entry<T>>, now: int, key: string): OMap<Entry<T>> {
    if key in m.table && now >= m.table[key].expires then Delete(m, key) else m
  }

  /** Make room for a new key in a full map by dropping the one at the front. */
  function Evicted<T>(c: Config, m: OMap<Entry<T>>, key: string): OMap<Entry<T>> {
    if key !in m.table && |m.order| >= c.maxEntries && m.order != [] then Delete(m, m.order[0]) else m
  }

  function AfterSet<T>(c: Config, m: OMap<Entry<T>>, now: int, key: string, value: T): OMap<Entry<T>> {
    Put(Delete(Evicted(c, m, key), key), key, Entry(value, now + c.ttlMs))
  }

  class Cache<T> {
    const config: Config
    var entries: OMap<Entry<T>>

    constructor (config: Config)
      ensures this.config == config && entries == Empty()
    {
      this.config := config;
      entries := Empty();
    }

    method Get(now: int, key: string) returns (r: Option<T>)
      modifies this`entries
      ensures r == Answer(old(entries), now, key)
      ensures entries == AfterGet(old(entries), now, key)
    {
      if key !in entries.table {
        return None;
      }
      var entry := entries.table[key];
      if now >= entry.expires {
        entries := Delete(entries, key);
        return None;
      }
      r := Some(entry.value);
    }

    method Set(now: int, key: string, value: T)
      modifies this`entries
      ensures entries == AfterSet(config, old(entries), now, key, value)
    {
      if key !in entries.table && |entries.order| >= config.maxEntries {
        if entries.order != [] {
          entries := Delete(entries, entries.order[0]);
        }
      }
      entries := Delete(entries, key);
      entries := Put(entries, key, Entry(value, now + config.ttlMs));
    }

    method Clear()
      modifies this`entries
      ensures entries == Empty()
    {
      entries := Empty();
    }
  }

  // ---- histories ----------------------------------------------------------------------

  datatype Op<T> = Get(now: int, key: string) | Set(now: int, key: string, value: T) | Clear(now: int)

  /** The cache after a history of calls. */
  function Replay<T>(c: Config, ops: seq<Op<T>>): OMap<Entry<T>> {
    if ops == [] then Empty()
    else
      var before := Replay(c, ops[..|ops| - 1]);
      match ops[|ops| - 1]
      case Get(now, key) => AfterGet(before, now, key)
      case Set(now, key, value) => AfterSet(c, before, now, key, value)
      case Clear(_) => Empty()
  }

  ghost predicate ClockMonotone<T>(ops: seq<Op<T>>) {
    forall i, j :: 0 <= i < j < |ops| ==> ops[i].now <= ops[j].now
  }

  ghost predicate NotBefore<T>(ops: seq<Op<T>>, now: int) { forall i :: 0 <= i < |ops| ==> ops[i].now <= now }

  /** The value a key was last given since the last clear, and when. */
  function LastSet<T>(ops: seq<Op<T>>, key: string): Option<(T, int)> {
    if ops == [] then None
    else
      match ops[|ops| - 1]
      case Clear(_) => None
      case Set(now, k, value) => if k == key then Some((value, now)) else LastSet(ops[..|ops| - 1], key)
      case Get(_, _) => LastSet(ops[..|ops| - 1], key)
  }

  /** The other keys set since this one last was. */
  function OthersSince<T>(ops: seq<Op<T>>, key: string): set<string> {
    if ops == [] then {}
    else
      match ops[|ops| - 1]
      case Clear(_) => {}
      case Set(_, k, _) => if k == key then {} else OthersSince(ops[..|ops| - 1], key) + {k}
      case Get(_, _) => OthersSince(ops[..|ops| - 1], key)
  }

  function ByExpiry<T>(): Entry<T> -> int { (e: Entry<T>) => e.expires }

  /** An entry is the last one set for its key, and the keys behind it were set after it. */
  ghost predicate Held<T>(c: Config, ops: seq<Op<T>>, m: OMap<Entry<T>>, k: string)
    requires Valid(m) && k in m.table
  {
    && LastSet(ops, k).Some?
    && m.table[k] == Entry(LastSet(ops, k).value.0, LastSet(ops, k).value.1 + c.ttlMs)
    && Later(m.order, k) <= OthersSince(ops, k)
  }

  /** A map in expiry order whose entries are all held. */
  ghost predicate Orderly<T>(c: Config, ops: seq<Op<T>>, m: OMap<Entry<T>>) {
    Valid(m) && Sorted(m, ByExpiry()) && forall k :: k in m.table ==> Held(c, ops, m, k)
  }

  /** Everything a history leaves true of the map. */
  ghost predicate Tracks<T>(c: Config, ops: seq<Op<T>>, m: OMap<Entry<T>>) {
    && Orderly(c, ops, m) && |m.order| <= c.maxEntries
    && (forall k :: LastSet(ops, k).Some? && k !in m.table ==> Lapsed(c, ops, k))
  }

  /** Why a key that was set is not there: its time had passed, or enough others were set after it. */
  ghost predicate Lapsed<T>(c: Config, ops: seq<Op<T>>, k: string)
    requires LastSet(ops, k).Some?
  {
    || (exists i :: 0 <= i < |ops| && ops[i].now >= LastSet(ops, k).value.1 + c.ttlMs)
    || |OthersSince(ops, k)| >= c.maxEntries
  }

  lemma LaterShrinks<V>(m: OMap<V>, gone: string, k: string)
    requires Valid(m) && k in m.table && k != gone
    ensures k in Remove(m.order, gone) && Later(Remove(m.order, gone), k) <= Later(m.order, k)
  {
    DeleteValid(m, gone);
    assert k in Delete(m, gone).table;
    hide Remove, Later;
    forall x | x in Later(Remove(m.order, gone), k) ensures x in Later(m.order, k) {
      StillLater(m.order, gone, k, x);
    }
  }

  lemma StillLater(s: seq<string>, gone: string, k: string, x: string)
    requires forall i, j :: 0 <= i < j < |s| ==> s[i] != s[j]
    requires k in s && k in Remove(s, gone) && x in Later(Remove(s, gone), k)
    ensures x in Later(s, k)
  {
    hide Remove, Position;
    var p := Position(Remove(s, gone), k);
    var q := IndexLater(Remove(s, gone), k, x);
    var j := RemoveKeepsOrder(s, gone, p);
    var i := RemoveKeepsOrder(s, gone, q);
    PositionUnique(s, k, j);
    assert s[i] == Following(s, k)[i - j - 1];
  }

  lemma IndexLater(s: seq<string>, k: string, x: string) returns (q: nat)
    requires k in s && x in Later(s, k)
    ensures Position(s, k) < q < |s| && s[q] == x
  {
    var f := Following(s, k);
    var i :| 0 <= i < |f| && f[i] == x;
    q := Position(s, k) + 1 + i;
  }

  lemma DeleteOrderly<T>(c: Config, ops: seq<Op<T>>, m: OMap<Entry<T>>, gone: string)
    requires Orderly(c, ops, m)
    ensures Orderly(c, ops, Delete(m, gone))
    ensures Delete(m, gone).table == m.table - {gone}
    ensures |Delete(m, gone).order| == |m.order| - (if gone in m.table then 1 else 0)
  {
    DeleteValid(m, gone);
    DeleteSorted(m, ByExpiry(), gone);
    hide Sorted, Remove, Later, LastSet, OthersSince;
    var r := Delete(m, gone);
    forall k | k in r.table ensures Held(c, ops, r, k) {
      assert Held(c, ops, m, k);
      LaterShrinks(m, gone, k);
    }
  }

  lemma HistoryGet<T>(ops: seq<Op<T>>, now: int, key: string, k: string)
    ensures LastSet(ops + [Get(now, key)], k) == LastSet(ops, k)
    ensures OthersSince(ops + [Get(now, key)], k) == OthersSince(ops, k)
  {
    var all := ops + [Op<T>.Get(now, key)];
    assert all[..|all| - 1] == ops;
  }

  lemma HistorySet<T>(ops: seq<Op<T>>, now: int, key: string, value: T, k: string)
    ensures LastSet(ops + [Set(now, key, value)], k) == (if k == key then Some((value, now)) else LastSet(ops, k))
    ensures OthersSince(ops + [Set(now, key, value)], k) == (if k == key then {} else OthersSince(ops, k) + {key})
  {
    var all := ops + [Op<T>.Set(now, key, value)];
    assert all[..|all| - 1] == ops;
  }

  lemma AppendHeld<T>(c: Config, ops: seq<Op<T>>, m: OMap<Entry<T>>, now: int, key: string, value: T, k: string)
    requires Orderly(c, ops, m) && key !in m.table && (k in m.table || k == key)
    requires Valid(Put(m, key, Entry(value, now + c.ttlMs)))
    ensures Held(c, ops + [Set(now, key, value)], Put(m, key, Entry(value, now + c.ttlMs)), k)
  {
    assert k in m.table ==> Held(c, ops, m, k);
    hide LastSet, OthersSince, Later, Sorted;
    HistorySet(ops, now, key, value, k);
    LaterAfterAppend(m.order, key, k);
  }

  lemma AppendOrderly<T>(c: Config, ops: seq<Op<T>>, m: OMap<Entry<T>>, now: int, key: string, value: T)
    requires Orderly(c, ops, m) && key !in m.table && NotBefore(ops, now)
    ensures Orderly(c, ops + [Set(now, key, value)], Put(m, key, Entry(value, now + c.ttlMs)))
  {
    hide LastSet, OthersSince, Later, Sorted, NotBefore;
    var entry := Entry(value, now + c.ttlMs);
    forall k | k in m.table ensures m.table[k].expires <= now + c.ttlMs {
      assert Held(c, ops, m, k);
      LastSetTime(ops, k, now);
    }
    AppendSorted(m, ByExpiry(), key, entry);
    var r := Put(m, key, entry);
    hide Valid;
    forall k | k in r.table ensures Held(c, ops + [Op<T>.Set(now, key, value)], r, k) {
      AppendHeld(c, ops, m, now, key, value, k);
    }
  }

  lemma GetTracks<T>(c: Config, ops: seq<Op<T>>, m: OMap<Entry<T>>, now: int, key: string)
    requires Tracks(c, ops, m)
    ensures Tracks(c, ops + [Get(now, key)], AfterGet(m, now, key))
  {
    var all, r := ops + [Op<T>.Get(now, key)], AfterGet(m, now, key);
    DeleteOrderly(c, ops, m, key);
    hide Delete, Sorted, Later, Valid, LastSet, OthersSince, Lapsed;
    forall k | k in r.table ensures Held(c, all, r, k) {
      assert Held(c, ops, r, k);
      HistoryGet(ops, now, key, k);
    }
    forall k | LastSet(all, k).Some? && k !in r.table ensures Lapsed(c, all, k) {
      HistoryGet(ops, now, key, k);
      if k !in m.table {
        StillLapsed(c, ops, Op<T>.Get(now, key), k);
      } else {
        assert Held(c, ops, m, k);
        JustLapsed(c, ops, Op<T>.Get(now, key), k);
      }
    }
  }

  lemma JustLapsed<T>(c: Config, ops: seq<Op<T>>, op: Op<T>, k: string)
    requires LastSet(ops + [op], k).Some? && op.now >= LastSet(ops + [op], k).value.1 + c.ttlMs
    ensures Lapsed(c, ops + [op], k)
  {
    assert (ops + [op])[|ops|] == op;
  }

  lemma StillLapsed<T>(c: Config, ops: seq<Op<T>>, op: Op<T>, k: string)
    requires LastSet(ops, k).Some? && Lapsed(c, ops, k) && LastSet(ops + [op], k) == LastSet(ops, k)
    requires |OthersSince(ops + [op], k)| >= |OthersSince(ops, k)|
    ensures Lapsed(c, ops + [op], k)
  {
    hide LastSet, OthersSince;
    if i :| 0 <= i < |ops| && ops[i].now >= LastSet(ops, k).value.1 + c.ttlMs {
      assert (ops + [op])[i] == ops[i];
    }
  }

  /** Evicting the front key of a full map: enough other keys have been set since it was. */
  lemma FrontIsCovered<T>(c: Config, ops: seq<Op<T>>, m: OMap<Entry<T>>, key: string)
    requires Tracks(c, ops, m) && m.order != [] && |m.order| >= c.maxEntries && key !in m.table
    ensures |OthersSince(ops, m.order[0]) + {key}| >= c.maxEntries
  {
    var front := m.order[0];
    assert front in m.order && Held(c, ops, m, front);
    PositionUnique(m.order, front, 0);
    var rest := m.order[1..];
    DistinctSize(rest);
    var later := set x | x in rest;
    assert later == Later(m.order, front);
    assert key !in later;
    SubsetSize(later + {key}, OthersSince(ops, front) + {key});
  }

  lemma SetLapsed<T>(c: Config, ops: seq<Op<T>>, m: OMap<Entry<T>>, now: int, key: string, value: T, k: string)
    requires Tracks(c, ops, m) && k != key && LastSet(ops, k).Some?
    requires k !in Evicted(c, m, key).table
    ensures LastSet(ops + [Set(now, key, value)], k).Some? && Lapsed(c, ops + [Set(now, key, value)], k)
  {
    HistorySet(ops, now, key, value, k);
    SubsetSize(OthersSince(ops, k), OthersSince(ops, k) + {key});
    hide LastSet, OthersSince;
    if k !in m.table {
      StillLapsed(c, ops, Op<T>.Set(now, key, value), k);
    } else {
      FrontIsCovered(c, ops, m, key);
    }
  }

  lemma EvictedOrderly<T>(c: Config, ops: seq<Op<T>>, m: OMap<Entry<T>>, key: string)
    requires Orderly(c, ops, m) && |m.order| <= c.maxEntries && c.maxEntries >= 1
    ensures Orderly(c, ops, Evicted(c, m, key))
    ensures key in m.table || |Evicted(c, m, key).order| < c.maxEntries
    ensures key in m.table ==> Evicted(c, m, key) == m
    ensures key in Evicted(c, m, key).table <==> key in m.table
  {
    if m.order != [] {
      assert m.order[0] in m.order;
      DeleteOrderly(c, ops, m, m.order[0]);
    }
  }

  lemma SetOrderly<T>(c: Config, ops: seq<Op<T>>, m: OMap<Entry<T>>, now: int, key: string, value: T)
    requires Orderly(c, ops, m) && |m.order| <= c.maxEntries && c.maxEntries >= 1 && NotBefore(ops, now)
    ensures Orderly(c, ops + [Set(now, key, value)], AfterSet(c, m, now, key, value))
    ensures |AfterSet(c, m, now, key, value).order| <= c.maxEntries
    ensures AfterSet(c, m, now, key, value).table.Keys == Evicted(c, m, key).table.Keys + {key}
  {
    hide Orderly, NotBefore;
    var e := Evicted(c, m, key);
    EvictedOrderly(c, ops, m, key);
    DeleteOrderly(c, ops, e, key);
    AppendOrderly(c, ops, Delete(e, key), now, key, value);
  }

  lemma SetTracks<T>(c: Config, ops: seq<Op<T>>, m: OMap<Entry<T>>, now: int, key: string, value: T)
    requires Tracks(c, ops, m) && c.maxEntries >= 1 && NotBefore(ops, now)
    ensures Tracks(c, ops + [Set(now, key, value)], AfterSet(c, m, now, key, value))
  {
    hide Orderly, LastSet, Lapsed, NotBefore, AfterSet, Evicted;
    SetOrderly(c, ops, m, now, key, value);
    var all, r := ops + [Op<T>.Set(now, key, value)], AfterSet(c, m, now, key, value);
    forall k | LastSet(all, k).Some? && k !in r.table ensures Lapsed(c, all, k) {
      HistorySet(ops, now, key, value, k);
      SetLapsed(c, ops, m, now, key, value, k);
    }
  }

  lemma LaterAfterAppend(s: seq<string>, key: string, k: string)
    requires key !in s && k in s + [key]
    requires forall i, j :: 0 <= i < j < |s| ==> s[i] != s[j]
    ensures Later(s + [key], k) == (if k == key then {} else Later(s, k) + {key})
  {
    var r := s + [key];
    if k == key {
      PositionUnique(r, k, |s|);
    } else {
      var p := Position(s, k);
      PositionUnique(r, k, p);
      assert r[p + 1..] == s[p + 1..] + [key];
    }
  }

  lemma {:induction false} LastSetTime<T>(ops: seq<Op<T>>, k: string, now: int)
    requires NotBefore(ops, now) && LastSet(ops, k).Some?
    ensures LastSet(ops, k).value.1 <= now
  {
    if ops != [] {
      var last := ops[|ops| - 1];
      if !(last.Set? && last.key == k) {
        LastSetTime(ops[..|ops| - 1], k, now);
      }
    }
  }

  lemma {:induction false} ReplayTracks<T>(c: Config, ops: seq<Op<T>>)
    requires ClockMonotone(ops) && c.maxEntries >= 1
    ensures Tracks(c, ops, Replay(c, ops))
  {
    if ops != [] {
      var init, last := ops[..|ops| - 1], ops[|ops| - 1];
      assert ops == init + [last];
      ReplayTracks(c, init);
      match last
      case Get(now, key) => GetTracks(c, init, Replay(c, init), now, key);
      case Set(now, key, value) => SetTracks(c, init, Replay(c, init), now, key, value);
      case Clear(_) =>
    }
  }

  /**
   * After any history under a monotone clock: an answer is the value the key was last set to, given
   * before that value's time ran out; the cache holds at most its bound, in expiry order; and a
   * value whose time has not run out is still answered until that many other keys have been set.
   */
  lemma CacheIsFresh<T>(c: Config, ops: seq<Op<T>>, now: int, key: string)
    requires ClockMonotone(ops) && c.maxEntries >= 1 && NotBefore(ops, now)
    ensures var m := Replay(c, ops);
      && Valid(m) && |m.order| <= c.maxEntries && Sorted(m, ByExpiry())
      && (Answer(m, now, key).Some? ==>
            && LastSet(ops, key).Some? && Answer(m, now, key) == Some(LastSet(ops, key).value.0)
            && now < LastSet(ops, key).value.1 + c.ttlMs)
      && (LastSet(ops, key).Some? && now < LastSet(ops, key).value.1 + c.ttlMs
          && |OthersSince(ops, key)| < c.maxEntries ==>
            Answer(m, now, key) == Some(LastSet(ops, key).value.0))
  {
    ReplayTracks(c, ops);
    var m := Replay(c, ops);
    assert key in m.table ==> Held(c, ops, m, key);
  }
}
