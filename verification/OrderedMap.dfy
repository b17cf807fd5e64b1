/** A map that remembers insertion order, as a JavaScript `Map` does. */
module OrderedMap {

  datatype OMap<V> = OMap(order: seq<string>, table: map<string, V>)

  ghost predicate Valid<V>(m: OMap<V>) {
    && (forall i, j :: 0 <= i < j < |m.order| ==> m.order[i] != m.order[j])
    && (forall k :: k in m.order <==> k in m.table)
  }

  function Empty<V>(): OMap<V> { OMap([], map[]) }

  function Position(s: seq<string>, k: string): (p: nat)
    requires k in s
    ensures p < |s| && s[p] == k
  {
    if s[0] == k then 0 else 1 + Position(s[1..], k)
  }

  function Remove(s: seq<string>, k: string): seq<string> {
    if k in s then (var p := Position(s, k); s[..p] + s[p + 1..]) else s
  }

  function Delete<V>(m: OMap<V>, k: string): OMap<V> { OMap(Remove(m.order, k), m.table - {k}) }

  /** Setting a key already there leaves it where it is; a new key goes last. */
  function Put<V>(m: OMap<V>, k: string, v: V): OMap<V> {
    OMap(if k in m.table then m.order else m.order + [k], m.table[k := v])
  }

  lemma DeleteValid<V>(m: OMap<V>, k: string)
    requires Valid(m)
    ensures Valid(Delete(m, k))
    ensures |Delete(m, k).order| == |m.order| - (if k in m.table then 1 else 0)
    ensures k !in Remove(m.order, k)
  {
    var r := Remove(m.order, k);
    if k in m.order {
      var p := Position(m.order, k);
      forall x | x in m.order && x != k ensures x in r {
        var i :| 0 <= i < |m.order| && m.order[i] == x;
        assert x == if i < p then r[i] else r[i - 1];
      }
    }
  }

  /** Removing a key keeps the others in order: each position comes from one at or one after it. */
  lemma RemoveKeepsOrder(s: seq<string>, k: string, i: nat) returns (j: nat)
    requires i < |Remove(s, k)|
    ensures i <= j <= i + 1 && j < |s| && Remove(s, k)[i] == s[j]
    ensures k in s ==> j == (if i < Position(s, k) then i else i + 1)
    ensures k !in s ==> j == i
  {
    j := if k in s && i >= Position(s, k) then i + 1 else i;
  }

  /** Keys in ascending order of some stamp on their values, oldest first. */
  ghost predicate Sorted<V>(m: OMap<V>, stamp: V -> int)
    requires Valid(m)
  {
    forall i, j :: 0 <= i < j < |m.order| ==> Stamp(m, stamp, i) <= Stamp(m, stamp, j)
  }

  ghost function Stamp<V>(m: OMap<V>, stamp: V -> int, i: nat): int
    requires Valid(m) && i < |m.order|
  {
    assert m.order[i] in m.order;
    stamp(m.table[m.order[i]])
  }

  lemma DeleteStamp<V>(m: OMap<V>, stamp: V -> int, k: string, i: nat) returns (j: nat)
    requires Valid(m) && Valid(Delete(m, k)) && i < |Remove(m.order, k)|
    ensures j < |m.order| && Stamp(Delete(m, k), stamp, i) == Stamp(m, stamp, j)
    ensures j == (if k in m.order && i >= Position(m.order, k) then i + 1 else i)
  {
    j := RemoveKeepsOrder(m.order, k, i);
    assert Delete(m, k).order[i] in Delete(m, k).table;
  }

  lemma DeleteSorted<V>(m: OMap<V>, stamp: V -> int, k: string)
    requires Valid(m) && Sorted(m, stamp)
    ensures Valid(Delete(m, k)) && Sorted(Delete(m, k), stamp)
  {
    DeleteValid(m, k);
    hide Remove, Stamp, Position;
    var r := Delete(m, k);
    forall i, j | 0 <= i < j < |r.order| ensures Stamp(r, stamp, i) <= Stamp(r, stamp, j) {
      var x := DeleteStamp(m, stamp, k, i);
      var y := DeleteStamp(m, stamp, k, j);
    }
  }

  /** A key put last with the greatest stamp keeps the order sorted. */
  lemma AppendSorted<V>(m: OMap<V>, stamp: V -> int, k: string, v: V)
    requires Valid(m) && Sorted(m, stamp) && k !in m.table
    requires forall x :: x in m.table ==> stamp(m.table[x]) <= stamp(v)
    ensures Valid(Put(m, k, v)) && Sorted(Put(m, k, v), stamp)
  {
    var r := Put(m, k, v);
    forall i, j | 0 <= i < j < |r.order| ensures Stamp(r, stamp, i) <= Stamp(r, stamp, j) {
      assert m.order[i] in m.order && Stamp(r, stamp, i) == Stamp(m, stamp, i);
      if j < |m.order| {
        assert m.order[j] in m.order && Stamp(r, stamp, j) == Stamp(m, stamp, j);
      }
    }
  }

  function Following(s: seq<string>, k: string): seq<string>
    requires k in s
  {
    s[Position(s, k) + 1..]
  }

  /** The keys after `k`. */
  ghost function Later(s: seq<string>, k: string): set<string>
    requires k in s
  {
    set x | x in Following(s, k)
  }

  lemma DistinctSize(s: seq<string>)
    requires forall i, j :: 0 <= i < j < |s| ==> s[i] != s[j]
    ensures |set x | x in s| == |s|
  {
    if s != [] {
      DistinctSize(s[1..]);
      assert (set x | x in s) == {s[0]} + (set x | x in s[1..]);
      assert s[0] !in s[1..];
    }
  }

  lemma PositionUnique(s: seq<string>, k: string, p: nat)
    requires forall i, j :: 0 <= i < j < |s| ==> s[i] != s[j]
    requires p < |s| && s[p] == k
    ensures k in s && Position(s, k) == p
  {
  }
}
