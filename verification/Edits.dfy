/** What an edit through a pointer makes of a document's depth, its numbers and its text. */
module Edits {
  import opened ByteStrings
  import opened Json
  import opened PointerText
  import opened PointerTree
  import opened Reading
  import opened Sanitizer
  import opened Utf8
  import opened Wrappers
  import DepthProbe

  lemma AnObject(members: seq<Entry<Value>>, d: nat)
    ensures Depth(Obj(members)) <= d + 1 <==> forall k :: 0 <= k < |members| ==> Depth(members[k].value) <= d
  {
    DepthProbe.MembersWithin(members, |members|, d + 1);
    assert DepthMembers(Obj(members).members, |members|) == DepthMembers(members, |members|);
  }

  lemma AnArray(items: seq<Value>, d: nat)
    ensures Depth(Arr(items)) <= d + 1 <==> forall k :: 0 <= k < |items| ==> Depth(items[k]) <= d
  {
    DepthProbe.ItemsWithin(items, |items|, d + 1);
    assert DepthItems(Arr(items).items, |items|) == DepthItems(items, |items|);
  }

  lemma {:induction false} NestDepth(segs: seq<Bytes>, i: nat, nv: Value)
    requires i <= |segs|
    ensures Depth(Nest(segs, i, nv)) == |segs| - i + Depth(nv)
    ensures Grammatical(nv) <==> Grammatical(Nest(segs, i, nv))
    ensures Encodable(Nest(segs, i, nv)) ==> Encodable(nv)
    decreases |segs| - i
  {
    if i < |segs| {
      NestDepth(segs, i + 1, nv);
      var only := Nest(segs, i + 1, nv);
      OnlyMember(segs[i], only);
      hide Depth, Encodable, Grammatical;
    }
  }

  lemma OnlyMember(key: Bytes, v: Value)
    ensures Depth(Obj([Entry(key, v)])) == 1 + Depth(v)
    ensures Grammatical(v) <==> Grammatical(Obj([Entry(key, v)]))
    ensures Encodable(Obj([Entry(key, v)])) ==> Encodable(v)
  {
    var members := [Entry(key, v)];
    assert Obj(members).members[0].value == v;
    AnObject(members, Depth(v));
    if Depth(v) > 0 {
      AnObject(members, Depth(v) - 1);
      assert members[0].value == v;
    }
  }

  /** What a member list with one entry put or replaced comes to. */
  lemma EntryPut(before: seq<Entry<Value>>, after: seq<Entry<Value>>, k: nat)
    requires k < |after| && |before| <= |after| <= |before| + 1 && (k < |before| || |after| == |before| + 1)
    requires forall j :: 0 <= j < |after| && j != k ==> j < |before| && after[j] == before[j]
    ensures 1 + Depth(after[k].value) <= Depth(Obj(after)) <= Max(Depth(Obj(before)), 1 + Depth(after[k].value))
    ensures Grammatical(Obj(before)) && Grammatical(after[k].value) ==> Grammatical(Obj(after))
    ensures Encodable(Obj(after)) ==> Encodable(after[k].value)
  {
    var d := Max(Depth(Obj(before)), 1 + Depth(after[k].value)) - 1;
    AnObject(before, d);
    AnObject(after, d);
    if Depth(after[k].value) > 0 {
      AnObject(after, Depth(after[k].value) - 1);
    }
    assert Obj(after).members == after && Obj(before).members == before;
    hide Depth;
  }

  lemma ItemPut(before: seq<Value>, after: seq<Value>, k: nat)
    requires k < |after| == |before| && forall j :: 0 <= j < |after| && j != k ==> after[j] == before[j]
    ensures 1 + Depth(after[k]) <= Depth(Arr(after)) <= Max(Depth(Arr(before)), 1 + Depth(after[k]))
    ensures Grammatical(Arr(before)) && Grammatical(after[k]) ==> Grammatical(Arr(after))
    ensures Encodable(Arr(after)) ==> Encodable(after[k])
  {
    var d := Max(Depth(Arr(before)), 1 + Depth(after[k])) - 1;
    AnArray(before, d);
    AnArray(after, d);
    if Depth(after[k]) > 0 {
      AnArray(after, Depth(after[k]) - 1);
    }
    assert Arr(after).items == after && Arr(before).items == before;
    hide Depth;
  }

  lemma ChildOf(v: Value, k: nat)
    ensures v.Obj? && k < |v.members| ==>
              Depth(v.members[k].value) < Depth(v) && (Grammatical(v) ==> Grammatical(v.members[k].value))
    ensures v.Arr? && k < |v.items| ==> Depth(v.items[k]) < Depth(v) && (Grammatical(v) ==> Grammatical(v.items[k]))
  {
    if v.Obj? {
      AnObject(v.members, Depth(v) - 1);
    }
    if v.Arr? {
      AnArray(v.items, Depth(v) - 1);
    }
  }

  /**
   * An edited document nests as deep as the pointer is long and its new value deep, or as deep as it did; where its
   * numbers and those of the new value are spelled by the grammar, all of its numbers are; and it has no text unless
   * the new value has one.
   */
  lemma {:induction false} EditedDocument(v: Value, segs: seq<Bytes>, i: nat, nv: Value, sizeMax: nat)
    requires i <= |segs| && SetAt(v, segs, i, nv, sizeMax).Done?
    ensures var w := SetAt(v, segs, i, nv, sizeMax).v;
            && |segs| - i + Depth(nv) <= Depth(w) <= Max(Depth(v), |segs| - i + Depth(nv))
            && (Grammatical(v) && Grammatical(nv) ==> Grammatical(w))
            && (Encodable(w) ==> Encodable(nv))
    decreases |segs| - i
  {
    hide MatchCount, LastMatch, IndexOf, Depth, Grammatical, Encodable;
    if i < |segs| {
      match v
      case Obj(members) =>
        if MatchCount(members, segs[i], NO_FLAGS, |members|) == 0 {
          NestDepth(segs, i + 1, nv);
          EntryPut(members, members + [Entry(segs[i], Nest(segs, i + 1, nv))], |members|);
        } else {
          var k := LastMatch(members, segs[i], NO_FLAGS, |members|);
          EditedDocument(members[k].value, segs, i + 1, nv, sizeMax);
          var child := SetAt(members[k].value, segs, i + 1, nv, sizeMax).v;
          ChildOf(v, k);
          EntryPut(members, members[k := Entry(segs[i], child)], k);
        }
      case Arr(items) =>
        var k := IndexOf(segs[i], sizeMax).value;
        EditedDocument(items[k], segs, i + 1, nv, sizeMax);
        var child := SetAt(items[k], segs, i + 1, nv, sizeMax).v;
        ChildOf(v, k);
        ItemPut(items, items[k := child], k);
    }
  }
}
