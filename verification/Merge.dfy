/**
 * The deep merge behind the map-reduce "merge" reducer, on JSON values: objects are merged key
 * by key, arrays are concatenated, and anything else is overwritten by the newer value.
 */
module Merge {

  /** `Scalar` covers null, booleans, numbers and strings, which a merge never looks into. */
  datatype Json = Scalar(text: string) | Array(items: seq<Json>) | Object(fields: map<string, Json>)

  type Fields = map<string, Json>

  predicate SameKind(a: Json, b: Json) {
    a.Scalar? == b.Scalar? && a.Array? == b.Array? && a.Object? == b.Object?
  }

  /** The value a key holds after `newer` is merged over `older`. */
  function Over(older: Json, newer: Json): Json
    decreases newer
  {
    match (older, newer)
    case (Object(a), Object(b)) =>
      Object(map k | k in a.Keys + b.Keys ::
               if k !in b then a[k] else if k !in a then b[k] else Over(a[k], b[k]))
    case (Array(a), Array(b)) => Array(a + b)
    case _ => newer
  }

  function MergeFields(dst: Fields, src: Fields): Fields { Over(Object(dst), Object(src)).fields }

  /** Merging documents in order into an initially empty object. */
  function Fold(docs: seq<Fields>): Fields {
    if docs == [] then map[] else MergeFields(Fold(docs[..|docs| - 1]), docs[|docs| - 1])
  }

  lemma OverObjects(a: Fields, b: Fields)
    ensures Over(Object(a), Object(b)).Object?
    ensures MergeFields(a, b).Keys == a.Keys + b.Keys
    ensures forall k :: k in a.Keys + b.Keys ==>
      MergeFields(a, b)[k] == (if k !in b then a[k] else if k !in a then b[k] else Over(a[k], b[k]))
  {
  }

  lemma OverKind(a: Json, b: Json)
    ensures SameKind(Over(a, b), b)
  {
  }

  // ---- what a merge leaves under a key ------------------------------------------------

  /**
   * Under one key: what only one side holds is kept; of two arrays the older items come first, then the
   * newer; two objects are merged in the same way; anything else is the newer value.
   */
  lemma MergedUnderKey(dst: Fields, src: Fields, k: string)
    ensures k in MergeFields(dst, src) <==> k in dst || k in src
    ensures k in dst && k !in src ==> MergeFields(dst, src)[k] == dst[k]
    ensures k !in dst && k in src ==> MergeFields(dst, src)[k] == src[k]
    ensures k in dst && k in src && dst[k].Array? && src[k].Array? ==>
              var r := MergeFields(dst, src)[k];
              && r.Array? && |r.items| == |dst[k].items| + |src[k].items|
              && (forall i :: 0 <= i < |dst[k].items| ==> r.items[i] == dst[k].items[i])
              && (forall i :: 0 <= i < |src[k].items| ==> r.items[|dst[k].items| + i] == src[k].items[i])
    ensures k in dst && k in src && dst[k].Object? && src[k].Object? ==>
              MergeFields(dst, src)[k] == Object(MergeFields(dst[k].fields, src[k].fields))
    ensures k in dst && k in src && !(dst[k].Array? && src[k].Array?) && !(dst[k].Object? && src[k].Object?) ==>
              MergeFields(dst, src)[k] == src[k]
  {
    OverObjects(dst, src);
    if k in dst && k in src && dst[k].Object? && src[k].Object? {
      OverObjects(dst[k].fields, src[k].fields);
    }
  }

  /** The values the documents hold under a key, in document order. */
  function ValuesUnder(docs: seq<Fields>, k: string): seq<Json> {
    if docs == [] then [] else (if k in docs[0] then [docs[0][k]] else []) + ValuesUnder(docs[1..], k)
  }

  /** All items of some arrays, in order. */
  function Joined(values: seq<Json>): seq<Json> {
    if values == [] then [] else ItemsOf(values[0]) + Joined(values[1..])
  }

  function ItemsOf(value: Json): seq<Json> { if value.Array? then value.items else [] }

  /** The fields of some objects, in order. */
  function FieldsOf(values: seq<Json>): seq<Fields> {
    if values == [] then [] else (if values[0].Object? then [values[0].fields] else []) + FieldsOf(values[1..])
  }

  ghost predicate AllArrays(values: seq<Json>) { forall i :: 0 <= i < |values| ==> values[i].Array? }

  ghost predicate AllObjects(values: seq<Json>) { forall i :: 0 <= i < |values| ==> values[i].Object? }

  lemma {:induction false} ValuesSplit(docs: seq<Fields>, last: Fields, k: string)
    ensures ValuesUnder(docs + [last], k) == ValuesUnder(docs, k) + if k in last then [last[k]] else []
  {
    if docs == [] {
      assert [] + [last] == [last] && [last][1..] == [];
    } else {
      ValuesSplit(docs[1..], last, k);
      assert (docs + [last])[1..] == docs[1..] + [last];
    }
  }

  lemma Associative(a: seq<Json>, b: seq<Json>, c: seq<Json>)
    ensures (a + b) + c == a + (b + c)
  {
  }

  lemma {:induction false} JoinedSplit(values: seq<Json>, last: Json)
    ensures Joined(values + [last]) == Joined(values) + ItemsOf(last)
  {
    hide ItemsOf;
    if values == [] {
      assert [] + [last] == [last] && [last][1..] == [];
    } else {
      JoinedSplit(values[1..], last);
      assert (values + [last])[1..] == values[1..] + [last] && (values + [last])[0] == values[0];
      Associative(ItemsOf(values[0]), Joined(values[1..]), ItemsOf(last));
    }
  }

  lemma {:induction false} FieldsSplit(values: seq<Json>, last: Json)
    ensures FieldsOf(values + [last]) == FieldsOf(values) + if last.Object? then [last.fields] else []
  {
    if values == [] {
      assert [] + [last] == [last] && [last][1..] == [];
    } else {
      FieldsSplit(values[1..], last);
      assert (values + [last])[1..] == values[1..] + [last] && (values + [last])[0] == values[0];
    }
  }

  /**
   * Under a key the fold holds something exactly when some document does: the last value when it is
   * neither array nor object; when all are arrays, their items in document order; when all are objects,
   * the fold of those objects.
   */
  lemma {:induction false} FoldedUnderKey(docs: seq<Fields>, k: string)
    ensures k in Fold(docs) <==> ValuesUnder(docs, k) != []
    ensures var values := ValuesUnder(docs, k); values != [] ==>
              && (values[|values| - 1].Scalar? ==> Fold(docs)[k] == values[|values| - 1])
              && (AllArrays(values) ==> Fold(docs)[k] == Array(Joined(values)))
              && (AllObjects(values) ==> Fold(docs)[k] == Object(Fold(FieldsOf(values))))
    decreases |docs|
  {
    if docs != [] {
      var init, last := docs[..|docs| - 1], docs[|docs| - 1];
      assert docs == init + [last];
      FoldedUnderKey(init, k);
      ValuesSplit(init, last, k);
      FoldStep(init, last);
      OverObjects(Fold(init), last);
      if k in last {
        LastValue(init, last, k);
      } else {
        assert ValuesUnder(docs, k) == ValuesUnder(init, k);
      }
    }
  }

  lemma FoldStep(init: seq<Fields>, last: Fields)
    ensures Fold(init + [last]) == MergeFields(Fold(init), last)
  {
    assert (init + [last])[..|init + [last]| - 1] == init;
  }

  lemma LastValue(init: seq<Fields>, last: Fields, k: string)
    requires k in last && (k in Fold(init) <==> ValuesUnder(init, k) != [])
    requires var values := ValuesUnder(init, k); values != [] ==>
               && (AllArrays(values) ==> Fold(init)[k] == Array(Joined(values)))
               && (AllObjects(values) ==> Fold(init)[k] == Object(Fold(FieldsOf(values))))
    ensures var values, r := ValuesUnder(init, k) + [last[k]], MergeFields(Fold(init), last);
      && k in r && (last[k].Scalar? ==> r[k] == last[k])
      && (AllArrays(values) ==> r[k] == Array(Joined(values)))
      && (AllObjects(values) ==> r[k] == Object(Fold(FieldsOf(values))))
  {
    var before := ValuesUnder(init, k);
    var values := before + [last[k]];
    OverObjects(Fold(init), last);
    MergedUnderKey(Fold(init), last, k);
    JoinedSplit(before, last[k]);
    FieldsSplit(before, last[k]);
    assert values[|before|] == last[k] && forall i :: 0 <= i < |before| ==> values[i] == before[i];
    if last[k].Object? {
      FoldStep(FieldsOf(before), last[k].fields);
      if before == [] {
        OverIdentity(last[k].fields);
        assert FieldsOf([]) == [] && [] + [last[k].fields] == [last[k].fields] && Fold([]) == map[];
      }
    } else if last[k].Array? && before != [] && AllArrays(before) {
      assert MergeFields(Fold(init), last)[k].items == Joined(before) + last[k].items;
    }
  }

  // ---- exactly when merging is associative ------------------------------------------------

  /** Merging `newer` over `older` leaves no trace of `older`. */
  predicate Absorbed(older: Json, newer: Json)
    decreases newer
  {
    match (older, newer)
    case (Object(a), Object(b)) => forall k :: k in a ==> k in b && Absorbed(a[k], b[k])
    case (Array(a), Array(_)) => a == []
    case _ => true
  }

  /**
   * No key holds a value of one kind, then of another, then of the first kind again, with
   * something of the first left to resurface.
   */
  predicate Regroupable(a: Json, b: Json, c: Json)
    decreases c
  {
    if SameKind(a, c) && !SameKind(b, c) then Absorbed(a, c)
    else if a.Object? && b.Object? && c.Object? then
      forall k :: k in a.fields && k in b.fields && k in c.fields ==>
        Regroupable(a.fields[k], b.fields[k], c.fields[k])
    else true
  }

  lemma {:induction false} AbsorbedMeans(older: Json, newer: Json)
    ensures Absorbed(older, newer) <==> Over(older, newer) == newer
    decreases newer
  {
    match (older, newer)
    case (Object(a), Object(b)) =>
      OverObjects(a, b);
      forall k | k in a && k in b ensures Absorbed(a[k], b[k]) <==> Over(a[k], b[k]) == b[k] {
        AbsorbedMeans(a[k], b[k]);
      }
      if Over(older, newer) == newer {
        forall k | k in a ensures k in b && Absorbed(a[k], b[k]) {
          assert k in MergeFields(a, b);
        }
      } else {
        var k :| k in MergeFields(a, b) && (k !in b || MergeFields(a, b)[k] != b[k]);
      }
    case (Array(a), Array(b)) =>
      assert |a + b| == |a| + |b|;
      if a == [] { assert a + b == b; }
    case _ =>
  }

  /** Merging is associative on three values exactly when they are regroupable. */
  lemma {:induction false} AssociativeExactlyWhen(a: Json, b: Json, c: Json)
    ensures Over(Over(a, b), c) == Over(a, Over(b, c)) <==> Regroupable(a, b, c)
    decreases c
  {
    OverKind(a, b);
    OverKind(b, c);
    if SameKind(a, c) && !SameKind(b, c) {
      AbsorbedMeans(a, c);
    } else if a.Object? && b.Object? && c.Object? {
      AssociativeObjects(a.fields, b.fields, c.fields);
    } else if a.Array? && b.Array? && c.Array? {
      assert (a.items + b.items) + c.items == a.items + (b.items + c.items);
    }
  }

  lemma {:induction false} AssociativeObjects(a: Fields, b: Fields, c: Fields)
    ensures Over(Over(Object(a), Object(b)), Object(c)) == Over(Object(a), Over(Object(b), Object(c)))
       <==> Regroupable(Object(a), Object(b), Object(c))
    decreases Object(c), 0
  {
    var left, right := MergeFields(MergeFields(a, b), c), MergeFields(a, MergeFields(b, c));
    OverObjects(a, b);
    OverObjects(b, c);
    OverObjects(MergeFields(a, b), c);
    OverObjects(a, MergeFields(b, c));
    assert left.Keys == right.Keys;
    forall k | k in left
      ensures left[k] == right[k] <==>
        (k in a && k in b && k in c ==> Regroupable(a[k], b[k], c[k]))
    {
      if k in a && k in b && k in c {
        AssociativeExactlyWhen(a[k], b[k], c[k]);
      }
    }
    if left == right {
      forall k | k in a && k in b && k in c ensures Regroupable(a[k], b[k], c[k]) {
        assert left[k] == right[k];
      }
    } else {
      var k :| k in left && left[k] != right[k];
    }
  }

  lemma OverIdentity(a: Fields)
    ensures MergeFields(map[], a) == a && MergeFields(a, map[]) == a
  {
    OverObjects(map[], a);
    OverObjects(a, map[]);
  }

  // ---- documents of one shape ---------------------------------------------------------

  /** A key both hold is an object in both, an array in both, or neither in both, all the way down. */
  predicate Compatible(a: Json, b: Json)
    decreases b
  {
    SameKind(a, b) && (a.Object? && b.Object? ==>
      forall k :: k in a.fields && k in b.fields ==> Compatible(a.fields[k], b.fields[k]))
  }

  predicate CompatibleFields(a: Fields, b: Fields) { Compatible(Object(a), Object(b)) }

  lemma {:induction false} CompatibleRegroup(a: Json, b: Json, c: Json)
    requires Compatible(a, b) && Compatible(b, c)
    ensures Regroupable(a, b, c)
    decreases c
  {
    if c.Object? {
      forall k | k in a.fields && k in b.fields && k in c.fields
        ensures Regroupable(a.fields[k], b.fields[k], c.fields[k])
      {
        CompatibleRegroup(a.fields[k], b.fields[k], c.fields[k]);
      }
    }
  }

  lemma {:induction false} MergeStaysCompatible(a: Json, b: Json, c: Json)
    requires Compatible(a, c) && Compatible(b, c)
    ensures Compatible(Over(a, b), c)
    decreases c
  {
    OverKind(a, b);
    if c.Object? {
      OverObjects(a.fields, b.fields);
      var m := MergeFields(a.fields, b.fields);
      forall k | k in m && k in c.fields ensures Compatible(m[k], c.fields[k]) {
        if k in a.fields && k in b.fields {
          MergeStaysCompatible(a.fields[k], b.fields[k], c.fields[k]);
        }
      }
    }
  }

  ghost predicate PairwiseCompatible(docs: seq<Fields>) {
    forall i, j :: 0 <= i < j < |docs| ==> CompatibleFields(docs[i], docs[j])
  }

  lemma {:induction false} FoldCompatible(docs: seq<Fields>, next: Fields)
    requires forall i :: 0 <= i < |docs| ==> CompatibleFields(docs[i], next)
    ensures CompatibleFields(Fold(docs), next)
  {
    if docs != [] {
      var n := |docs| - 1;
      FoldCompatible(docs[..n], next);
      MergeStaysCompatible(Object(Fold(docs[..n])), Object(docs[n]), Object(next));
      OverObjects(Fold(docs[..n]), docs[n]);
    }
  }

  /** Documents of one shape may be merged in any batches: the batches merge to the same object. */
  lemma {:induction false} FoldRegroups(a: seq<Fields>, b: seq<Fields>)
    requires PairwiseCompatible(a + b)
    ensures Fold(a + b) == MergeFields(Fold(a), Fold(b))
    decreases |b|
  {
    if b == [] {
      assert a + b == a;
      OverIdentity(Fold(a));
    } else {
      var init, last := b[..|b| - 1], b[|b| - 1];
      assert (a + b)[..|a + b| - 1] == a + init;
      assert PairwiseCompatible(a + init) by {
        forall i, j | 0 <= i < j < |a + init| ensures CompatibleFields((a + init)[i], (a + init)[j]) {
          assert (a + init)[i] == (a + b)[i] && (a + init)[j] == (a + b)[j];
        }
      }
      FoldRegroups(a, init);
      assert a + (init + [last]) == a + b;
      FoldGroupsRegroupable(a, init, last);
      AssociativeExactlyWhen(Object(Fold(a)), Object(Fold(init)), Object(last));
      OverObjects(Fold(a), Fold(init));
      OverObjects(Fold(init), last);
    }
  }

  lemma FoldGroupsRegroupable(a: seq<Fields>, init: seq<Fields>, last: Fields)
    requires PairwiseCompatible(a + (init + [last]))
    ensures Regroupable(Object(Fold(a)), Object(Fold(init)), Object(last))
  {
    var all := a + (init + [last]);
    FoldCompatibleFolds(a, init, all);
    forall i | 0 <= i < |init| ensures CompatibleFields(init[i], last) {
      assert init[i] == all[|a| + i] && last == all[|all| - 1];
    }
    FoldCompatible(init, last);
    CompatibleRegroup(Object(Fold(a)), Object(Fold(init)), Object(last));
  }

  /** The merge of one batch is compatible with the merge of a later one. */
  lemma {:induction false} FoldCompatibleFolds(a: seq<Fields>, b: seq<Fields>, all: seq<Fields>)
    requires PairwiseCompatible(all) && a + b <= all
    ensures CompatibleFields(Fold(a), Fold(b))
    decreases |b|
  {
    if b != [] {
      var init, last := b[..|b| - 1], b[|b| - 1];
      assert a + init <= all by { assert a + init == (a + b)[..|a + init|]; }
      FoldCompatibleFolds(a, init, all);
      forall i | 0 <= i < |a| ensures CompatibleFields(a[i], last) {
        assert a[i] == all[i] && last == all[|a| + |b| - 1];
      }
      FoldCompatible(a, last);
      CompatibleWithMerge(Object(Fold(a)), Object(Fold(init)), Object(last));
      OverObjects(Fold(init), last);
    }
  }

  lemma {:induction false} CompatibleWithMerge(a: Json, b: Json, c: Json)
    requires Compatible(a, b) && Compatible(a, c)
    ensures Compatible(a, Over(b, c))
    decreases c
  {
    OverKind(b, c);
    if c.Object? {
      OverObjects(b.fields, c.fields);
      var m := MergeFields(b.fields, c.fields);
      forall k | k in a.fields && k in m ensures Compatible(a.fields[k], m[k]) {
        if k in b.fields && k in c.fields {
          CompatibleWithMerge(a.fields[k], b.fields[k], c.fields[k]);
        }
      }
    }
  }

  /** Mixed shapes do not regroup: an array hidden by a scalar resurfaces. */
  lemma MixedShapesDoNotRegroup()
    ensures var a, b, c := Array([Scalar("1")]), Scalar("2"), Array([]);
            Over(Over(a, b), c) == Array([]) && Over(a, Over(b, c)) == Array([Scalar("1")])
  {
  }
}
