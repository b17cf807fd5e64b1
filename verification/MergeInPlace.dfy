/**
 * The deep merge as the code runs it: objects are maps held by reference, the destination is
 * updated in place, and a key it lacked is given the source's own sub-object, not a copy.
 */
module MergeInPlace {
  import opened Merge
  import opened Results

  /** What a key holds: a sub-object by reference, or a value a merge never looks into. */
  datatype Slot = Plain(value: Json) | Child(node: Node)

  class Node {
    var fields: map<string, Slot>
    ghost var view: Fields
    ghost var Repr: set<Node>

    ghost predicate Valid()
      reads this, Repr
      ensures Valid() ==> this in Repr
      decreases Repr + {this}
    {
      && this in Repr
      && fields.Keys == view.Keys
      && (forall k :: k in fields && fields[k].Plain? ==> !fields[k].value.Object? && view[k] == fields[k].value)
      && (forall k :: k in fields && fields[k].Child? ==>
            && fields[k].node in Repr && fields[k].node.Repr <= Repr && this !in fields[k].node.Repr
            && fields[k].node.Valid() && view[k] == Object(fields[k].node.view))
      && (forall j, k :: j in fields && k in fields && j != k && fields[j].Child? && fields[k].Child? ==>
            fields[j].node.Repr !! fields[k].node.Repr)
    }

    /** `Valid`, but for the slot under one key. */
    ghost predicate ValidBut(but: string)
      reads this, Repr
    {
      && this in Repr
      && fields.Keys == view.Keys
      && (forall k :: k in fields && k != but && fields[k].Plain? ==>
            !fields[k].value.Object? && view[k] == fields[k].value)
      && (forall k :: k in fields && k != but && fields[k].Child? ==>
            && fields[k].node in Repr && fields[k].node.Repr <= Repr && this !in fields[k].node.Repr
            && fields[k].node.Valid() && view[k] == Object(fields[k].node.view))
      && (forall j, k :: j in fields && k in fields && j != k && j != but && k != but
                         && fields[j].Child? && fields[k].Child? ==>
            fields[j].node.Repr !! fields[k].node.Repr)
    }

    /** No slot but the one under `but` reaches into `nodes`. */
    ghost predicate OthersOutside(but: string, nodes: set<Node>)
      reads this, set k | k in fields && fields[k].Child? :: fields[k].node
    {
      forall k :: k in fields && k != but && fields[k].Child? ==> fields[k].node.Repr !! nodes
    }

    /** Fill one slot with a value. */
    method PutPlain(k: string, value: Json)
      requires ValidBut(k) && !value.Object?
      modifies this`fields, this`view
      ensures Valid() && fields == old(fields)[k := Plain(value)] && view == old(view)[k := value]
    {
      fields := fields[k := Plain(value)];
      view := view[k := value];
    }

    /** Fill one slot with a sub-object no other slot reaches. */
    method PutChild(k: string, node: Node)
      requires ValidBut(k) && node.Valid() && this !in node.Repr && OthersOutside(k, node.Repr)
      modifies this
      ensures Valid() && fields == old(fields)[k := Child(node)] && view == old(view)[k := Object(node.view)]
      ensures Repr == old(Repr) + node.Repr
    {
      Widen(k, node.Repr);
      SetSlot(k, Child(node), Object(node.view));
      Complete(k);
    }

    /** A slot keeps its sub-object, whose contents have changed. */
    ghost method Acknowledge(k: string)
      requires k in fields && fields[k].Child? && ValidBut(k)
      requires fields[k].node.Valid() && this !in fields[k].node.Repr && OthersOutside(k, fields[k].node.Repr)
      modifies this`view, this`Repr
      ensures Valid() && view == old(view)[k := Object(fields[k].node.view)]
      ensures Repr == old(Repr) + fields[k].node.Repr
    {
      Widen(k, fields[k].node.Repr);
      view := view[k := Object(fields[k].node.view)];
      Complete(k);
    }

    method SetSlot(k: string, slot: Slot, ghost value: Json)
      requires ValidBut(k)
      modifies this`fields, this`view
      ensures ValidBut(k) && fields == old(fields)[k := slot] && view == old(view)[k := value]
    {
      fields := fields[k := slot];
      view := view[k := value];
    }

    ghost method Widen(k: string, nodes: set<Node>)
      requires ValidBut(k)
      modifies this`Repr
      ensures ValidBut(k) && Repr == old(Repr) + nodes
    {
      Repr := Repr + nodes;
    }

    lemma Complete(k: string)
      requires ValidBut(k) && k in fields && fields[k].Child?
      requires var node := fields[k].node;
        && node.Valid() && node.Repr <= Repr && this !in node.Repr && view[k] == Object(node.view)
        && OthersOutside(k, node.Repr)
      ensures Valid()
    {
      var node := fields[k].node;
      assert node in Repr;
      forall i, j | i in fields && j in fields && i != j && fields[i].Child? && fields[j].Child?
        ensures fields[i].node.Repr !! fields[j].node.Repr
      {
        if i == k {
          assert fields[j].node.Repr !! node.Repr;
        } else if j == k {
          assert fields[i].node.Repr !! node.Repr;
        }
      }
    }

    constructor ()
      ensures Valid() && fresh(Repr) && view == map[]
    {
      fields := map[];
      view := map[];
      Repr := {this};
    }
  }

  /** Keys no longer to do hold their merged values, the others still what the destination held. */
  ghost predicate Merged(dst: Fields, src: Fields, todo: set<string>, now: Fields) {
    && now.Keys == dst.Keys + (src.Keys - todo)
    && forall k :: k in now ==>
         now[k] == (if k !in src || k in todo then dst[k] else if k !in dst then src[k] else Over(dst[k], src[k]))
  }

  lemma MergedAll(dst: Fields, src: Fields, now: Fields)
    requires Merged(dst, src, {}, now)
    ensures now == MergeFields(dst, src)
  {
    OverObjects(dst, src);
  }

  lemma MergedStart(dst: Fields, src: Fields)
    ensures Merged(dst, src, src.Keys, dst)
  {
  }

  lemma MergedNext(dst: Fields, src: Fields, todo: set<string>, now: Fields, k: string)
    requires Merged(dst, src, todo, now) && k in todo && k in src
    ensures Merged(dst, src, todo - {k}, now[k := if k in now then Over(now[k], src[k]) else src[k]])
  {
  }

  /**
   * The slot a merged key ends up with: the destination's own sub-object, updated in place, when both
   * hold one; the source's very slot when only the source does; otherwise a plain value.
   */
  ghost predicate Takes(before: map<string, Slot>, incoming: Slot, k: string, now: Slot) {
    if incoming.Plain? then now.Plain?
    else now == if k in before && before[k].Child? then before[k] else incoming
  }

  /** The slots once every source key but those to do has been merged. */
  ghost predicate Taken(
    before: map<string, Slot>, incoming: map<string, Slot>, todo: set<string>, now: map<string, Slot>)
  {
    && (forall k :: k in before && (k !in incoming || k in todo) ==> k in now && now[k] == before[k])
    && (forall k :: k in incoming && k !in todo ==> k in now && Takes(before, incoming[k], k, now[k]))
  }

  lemma TakenNext(
    before: map<string, Slot>, incoming: map<string, Slot>, todo: set<string>, was: map<string, Slot>,
    k: string, slot: Slot)
    requires Taken(before, incoming, todo, was) && k in todo && k in incoming
    requires (k in was) == (k in before) && Takes(was, incoming[k], k, slot)
    ensures Taken(before, incoming, todo - {k}, was[k := slot])
  {
  }

  /** The slot a key has, as its value. */
  lemma SlotView(n: Node, k: string)
    requires n.Valid()
    ensures k in n.fields <==> k in n.view
    ensures k in n.fields && n.fields[k].Plain? ==> !n.view[k].Object? && n.view[k] == n.fields[k].value
    ensures k in n.fields && n.fields[k].Child? ==> n.view[k].Object?
  {
  }

  ghost predicate ChildOutside(n: Node, k: string, nodes: set<Node>)
    reads n
    reads if k in n.fields && n.fields[k].Child? then {n.fields[k].node} else {}
  {
    k in n.fields && n.fields[k].Child? ==> n.fields[k].node.Repr !! nodes
  }

  ghost predicate ChildInside(n: Node, k: string, nodes: set<Node>)
    reads n
    reads if k in n.fields && n.fields[k].Child? then {n.fields[k].node} else {}
  {
    k in n.fields && n.fields[k].Child? ==> n.fields[k].node.Repr <= nodes
  }

  /**
   * Between keys: source and destination are well formed and share only sub-objects already
   * handed over, and what the destination still holds of its own under a key to do lies in `frame`.
   */
  ghost predicate Between(dst: Node, src: Node, todo: set<string>, frame: set<Node>)
    reads dst, src, dst.Repr, src.Repr
  {
    && dst.Valid() && src.Valid() && dst in frame && frame !! src.Repr && src !in frame && src !in dst.Repr
    && todo <= src.fields.Keys
    && dst.Repr <= frame + src.Repr
    && (forall k :: k in todo ==> ChildOutside(src, k, dst.Repr))
    && (forall k :: k in todo ==> ChildInside(dst, k, frame))
  }

  method DeepMerge(dst: Node, src: Node)
    requires dst.Valid() && src.Valid() && dst.Repr !! src.Repr
    modifies dst.Repr
    ensures dst.Valid() && dst.view == MergeFields(old(dst.view), src.view)
    ensures dst.Repr <= old(dst.Repr) + src.Repr
    ensures Taken(old(dst.fields), src.fields, {}, dst.fields)
    decreases src.Repr
  {
    hide Merged, Taken, Takes;
    var todo := src.fields.Keys;
    ghost var before, frame := dst.view, dst.Repr;
    ghost var slots, incoming := dst.fields, src.fields;
    MergedStart(before, src.view);
    TakenStart(slots, incoming);
    while todo != {}
      invariant Between(dst, src, todo, frame) && src.fields == incoming
      invariant Merged(before, src.view, todo, dst.view)
      invariant Taken(slots, incoming, todo, dst.fields)
      invariant forall k :: k in todo ==> (k in dst.fields <==> k in slots)
      decreases |todo|
    {
      hide Between, Node.Valid;
      var k :| k in todo;
      MergedNext(before, src.view, todo, dst.view, k);
      ghost var was := dst.fields;
      var slot := MergeKey(dst, src, k, todo, frame);
      TakenNext(slots, incoming, todo, was, k, slot);
      todo := todo - {k};
    }
    MergedAll(before, src.view, dst.view);
  }

  lemma TakenStart(before: map<string, Slot>, incoming: map<string, Slot>)
    ensures Taken(before, incoming, incoming.Keys, before)
  {
  }

  /** What the two objects hold under a key to do, as slots and as values. */
  lemma KeyViews(dst: Node, src: Node, k: string, todo: set<string>, frame: set<Node>)
    requires Between(dst, src, todo, frame) && k in todo
    ensures dst in frame && src !in frame && k in src.fields && k in src.view && (k in dst.fields <==> k in dst.view)
    ensures src.fields[k].Plain? ==> !src.view[k].Object? && src.view[k] == src.fields[k].value
    ensures src.fields[k].Child? ==> src.view[k].Object?
    ensures k in dst.fields && dst.fields[k].Plain? ==> !dst.view[k].Object? && dst.view[k] == dst.fields[k].value
    ensures k in dst.fields && dst.fields[k].Child? ==> dst.view[k].Object?
  {
    hide Node.Valid;
    SlotView(src, k);
    SlotView(dst, k);
  }

  lemma TakesOne(before: map<string, Slot>, incoming: Slot, k: string)
    ensures k in before && before[k].Child? && incoming.Child? ==> Takes(before, incoming, k, before[k])
    ensures !(k in before && before[k].Child? && incoming.Child?) ==> Takes(before, incoming, k, incoming)
    ensures forall v: Json :: incoming.Plain? ==> Takes(before, incoming, k, Plain(v))
  {
  }

  method MergeKey(dst: Node, src: Node, k: string, ghost todo: set<string>, ghost frame: set<Node>)
    returns (ghost slot: Slot)
    requires Between(dst, src, todo, frame) && k in todo
    modifies frame
    ensures Between(dst, src, todo - {k}, frame)
    ensures k in src.view && k in src.fields
    ensures dst.view ==
      old(dst.view)[k := if k in old(dst.view) then Over(old(dst.view)[k], src.view[k]) else src.view[k]]
    ensures dst.fields == old(dst.fields)[k := slot] && Takes(old(dst.fields), src.fields[k], k, slot)
    decreases src.Repr, 2
  {
    hide Between, Node.Valid, Takes;
    KeyViews(dst, src, k, todo, frame);
    TakesOne(dst.fields, src.fields[k], k);
    if k !in dst.fields {
      Adopt(dst, src, k, todo, frame);
    } else {
      var sv, dv := src.fields[k], dst.fields[k];
      if sv.Child? && dv.Child? {
        MergeChild(dst, src, k, todo, frame);
      } else if sv.Plain? && dv.Plain? && sv.value.Array? && dv.value.Array? {
        Append(dst, src, k, Array(dv.value.items + sv.value.items), todo, frame);
      } else {
        Adopt(dst, src, k, todo, frame);
      }
    }
    slot := dst.fields[k];
  }

  /** `dst[k] = sv`: the source's slot, sub-object and all. */
  method Adopt(dst: Node, src: Node, k: string, ghost todo: set<string>, ghost frame: set<Node>)
    requires Between(dst, src, todo, frame) && k in todo
    modifies dst
    ensures Between(dst, src, todo - {k}, frame)
    ensures k in src.view && dst.view == old(dst.view)[k := src.view[k]]
    ensures k in src.fields && dst.fields == old(dst.fields)[k := src.fields[k]]
  {
    CanAdopt(dst, src, k, todo, frame);
    match src.fields[k] {
      case Plain(value) => dst.PutPlain(k, value);
      case Child(node) => dst.PutChild(k, node);
    }
  }

  /** No slot but this one reaches the source's sub-object, and neither object is a child of the destination. */
  lemma CanAdopt(dst: Node, src: Node, k: string, todo: set<string>, frame: set<Node>)
    requires Between(dst, src, todo, frame) && k in todo
    ensures dst.ValidBut(k) && k in src.view
    ensures src.fields[k].Plain? ==> !src.fields[k].value.Object? && src.view[k] == src.fields[k].value
    ensures src.fields[k].Child? ==> var node := src.fields[k].node;
      && node.Valid() && dst !in node.Repr && src !in node.Repr && node.Repr <= src.Repr
      && dst.OthersOutside(k, node.Repr) && src.view[k] == Object(node.view)
      && forall j :: j in todo && j != k ==> ChildOutside(src, j, dst.Repr + node.Repr)
    ensures forall j :: j in todo && src.fields[j].Child? ==> src.fields[j].node in src.Repr
    ensures forall j :: j in dst.fields && dst.fields[j].Child? ==> dst.fields[j].node != dst
  {
    assert ChildOutside(src, k, dst.Repr);
  }

  /** `dst[k] = append(...)`. */
  method Append(dst: Node, src: Node, k: string, value: Json, ghost todo: set<string>, ghost frame: set<Node>)
    requires Between(dst, src, todo, frame) && k in todo && !value.Object?
    modifies dst
    ensures Between(dst, src, todo - {k}, frame)
    ensures dst.view == old(dst.view)[k := value] && dst.fields == old(dst.fields)[k := Plain(value)]
  {
    dst.PutPlain(k, value);
  }

  method MergeChild(dst: Node, src: Node, k: string, ghost todo: set<string>, ghost frame: set<Node>)
    requires Between(dst, src, todo, frame) && k in todo
    requires k in dst.fields && src.fields[k].Child? && dst.fields[k].Child?
    modifies frame
    ensures Between(dst, src, todo - {k}, frame)
    ensures k in src.view && k in old(dst.view)
    ensures dst.view == old(dst.view)[k := Over(old(dst.view)[k], src.view[k])] && dst.fields == old(dst.fields)
    decreases src.Repr, 1
  {
    hide Node.Valid, Node.ValidBut, Node.OthersOutside;
    MergeBelow(dst, src, k, todo, frame);
    Readmit(dst, src, k, todo, frame);
  }

  /** The updated sub-object is the destination's again. */
  ghost method Readmit(dst: Node, src: Node, k: string, todo: set<string>, frame: set<Node>)
    requires k in dst.fields && dst.fields[k].Child? && dst.ValidBut(k) && src.Valid()
    requires dst in frame && frame !! src.Repr && src !in frame && src !in dst.Repr && todo <= src.fields.Keys
    requires dst.Repr <= frame + src.Repr
    requires var child := dst.fields[k].node;
      && child.Valid() && dst !in child.Repr && child.Repr <= frame + src.Repr && src !in child.Repr
      && dst.OthersOutside(k, child.Repr)
      && forall j :: j in todo && j != k ==> ChildOutside(src, j, dst.Repr + child.Repr) && ChildInside(dst, j, frame)
    modifies dst`view, dst`Repr
    ensures Between(dst, src, todo - {k}, frame)
    ensures dst.view == old(dst.view)[k := Object(old(dst.fields[k].node.view))]
  {
    dst.Acknowledge(k);
  }


  /** The recursive call alone: only the sub-object under `k` changes. */
  method MergeBelow(dst: Node, src: Node, k: string, ghost todo: set<string>, ghost frame: set<Node>)
    requires Between(dst, src, todo, frame) && k in todo
    requires k in dst.fields && src.fields[k].Child? && dst.fields[k].Child?
    modifies dst.fields[k].node.Repr
    ensures dst.fields == old(dst.fields) && dst.view == old(dst.view) && dst.Repr == old(dst.Repr)
    ensures dst.ValidBut(k) && src.Valid()
    ensures dst in frame && frame !! src.Repr && src !in frame && src !in dst.Repr && todo <= src.fields.Keys
    ensures dst.Repr <= frame + src.Repr
    ensures var child := dst.fields[k].node;
      && child.Valid() && dst !in child.Repr && child.Repr <= old(child.Repr) + src.fields[k].node.Repr
      && dst.OthersOutside(k, child.Repr)
      && k in dst.view && k in src.view && Object(child.view) == Over(dst.view[k], src.view[k])
    ensures var child := dst.fields[k].node;
      && child.Repr <= frame + src.Repr && src !in child.Repr && dst !in src.Repr
      && forall j :: j in todo && j != k ==> ChildOutside(src, j, dst.Repr + child.Repr) && ChildInside(dst, j, frame)
    decreases src.Repr, 0
  {
    assert ChildOutside(src, k, dst.Repr) && ChildInside(dst, k, frame);
    DeepMerge(dst.fields[k].node, src.fields[k].node);
  }

  ghost predicate Separate(docs: seq<Option<Node>>, from: nat)
    reads set i | 0 <= i < |docs| && docs[i].Some? :: docs[i].value
    reads set i, n | 0 <= i < |docs| && docs[i].Some? && n in docs[i].value.Repr :: n
  {
    && (forall i :: from <= i < |docs| && docs[i].Some? ==> docs[i].value.Valid())
    && (forall i, j :: from <= i < j < |docs| && docs[i].Some? && docs[j].Some? ==>
          docs[i].value.Repr !! docs[j].value.Repr)
  }

  ghost predicate OutsideAll(n: Node, docs: seq<Option<Node>>, from: nat)
    reads n, set i | 0 <= i < |docs| && docs[i].Some? :: docs[i].value
  {
    forall i :: from <= i < |docs| && docs[i].Some? ==> docs[i].value.Repr !! n.Repr
  }

  /**
   * The reducer with the "deep" strategy over the parsed documents, `None` being one that does
   * not parse: the first such document is the error, otherwise the result is their fold.
   */
  method ReducerMerge(docs: seq<Option<Node>>, ghost contents: seq<Fields>) returns (r: Result<Node, nat>)
    requires |contents| == |docs| && Separate(docs, 0)
    requires forall i :: 0 <= i < |docs| && docs[i].Some? ==> docs[i].value.view == contents[i]
    modifies set i, n | 0 <= i < |docs| && docs[i].Some? && n in docs[i].value.Repr :: n
    ensures r.Ok? ==> (forall i :: 0 <= i < |docs| ==> docs[i].Some?)
    ensures r.Ok? ==> r.value.Valid() && r.value.view == Fold(contents)
    ensures r.Err? ==> r.error < |docs| && docs[r.error].None? && forall i :: 0 <= i < r.error ==> docs[i].Some?
  {
    hide Fold, MergeFields, Node.Valid, Separate, OutsideAll;
    ghost var given := set i, n | 0 <= i < |docs| && docs[i].Some? && n in docs[i].value.Repr :: n;
    var merged := new Node();
    ghost var own := merged.Repr;
    FoldStart(contents);
    FreshIsOutside(merged, docs);
    for i := 0 to |docs|
      invariant forall j :: 0 <= j < i ==> docs[j].Some?
      invariant merged.Valid() && merged.view == Fold(contents[..i]) && merged.Repr <= own + given
      invariant Separate(docs, i) && OutsideAll(merged, docs, i)
      invariant forall j :: i <= j < |docs| && docs[j].Some? ==>
        docs[j].value.view == contents[j] && docs[j].value.Repr == old(docs[j].value.Repr)
    {
      if docs[i].None? {
        return Err(i);
      }
      FoldNext(contents, i);
      MergeNext(merged, docs, i);
    }
    assert contents[..|docs|] == contents;
    r := Ok(merged);
  }

  lemma FreshIsOutside(merged: Node, docs: seq<Option<Node>>)
    requires forall i :: 0 <= i < |docs| && docs[i].Some? ==> docs[i].value.Repr !! merged.Repr
    ensures OutsideAll(merged, docs, 0)
  {
  }

  /** One document more: the later ones are untouched and still apart. */
  method MergeNext(merged: Node, docs: seq<Option<Node>>, i: nat)
    requires i < |docs| && docs[i].Some? && merged.Valid() && Separate(docs, i) && OutsideAll(merged, docs, i)
    modifies merged.Repr
    ensures merged.Valid() && merged.view == MergeFields(old(merged.view), old(docs[i].value.view))
    ensures merged.Repr <= old(merged.Repr) + old(docs[i].value.Repr)
    ensures Separate(docs, i + 1) && OutsideAll(merged, docs, i + 1)
    ensures forall j :: i < j < |docs| && docs[j].Some? ==>
      docs[j].value.view == old(docs[j].value.view) && docs[j].value.Repr == old(docs[j].value.Repr)
  {
    hide MergeFields, Taken;
    DeepMerge(merged, docs[i].value);
  }

  lemma FoldStart(docs: seq<Fields>)
    ensures Fold(docs[..0]) == map[]
  {
  }

  lemma FoldNext(docs: seq<Fields>, i: nat)
    requires i < |docs|
    ensures Fold(docs[..i + 1]) == MergeFields(Fold(docs[..i]), docs[i])
  {
    assert docs[..i + 1][..i] == docs[..i];
  }
}
