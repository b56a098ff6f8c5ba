/** Merging and decoding commute, and a merge that fits its depth budget decodes within it. */
module MergeDecode {
  import opened ByteStrings
  import opened Decoding
  import opened Json
  import opened KeyCache
  import opened Merge
  import opened MergePatch
  import opened OrderedMap
  import opened Sanitizer
  import opened Wrappers

  // ---------------------------------------------------------------- MergePatch on decoded values

  function DataBase(target: Option<Zval>): seq<Entry<Zval>> {
    if target.Some? && target.value.ZMap? then target.value.entries else []
  }

  /** MergePatch of RFC 7396 section 2 on PHP values. */
  function MergedData(target: Option<Zval>, patch: Zval): Zval
    decreases patch, 1, 0
  {
    match patch
    case ZMap(ps) => ZMap(ApplyData(DataBase(target), ps, |ps|, patch))
    case _ => patch
  }

  function ApplyData(es: seq<Entry<Zval>>, ps: seq<Entry<Zval>>, n: nat, patch: Zval): seq<Entry<Zval>>
    requires n <= |ps| && patch.ZMap? && patch.entries == ps
    decreases patch, 0, n
  {
    if n == 0 then es
    else
      var before := ApplyData(es, ps, n - 1, patch);
      var p := ps[n - 1];
      if p.value.ZNull? then Remove(before, p.key)
      else
        assert patch.entries[n - 1] < patch;
        Upsert(before, p.key, MergedData(Lookup(before, p.key), p.value))
  }

  // ---------------------------------------------------------------- decoding member lists

  /** Each value decoded, each key where it was. */
  function Decoded(es: seq<Entry<Value>>): (r: seq<Entry<Zval>>)
    ensures |r| == |es|
    ensures forall k :: 0 <= k < |es| ==> r[k] == Entry(es[k].key, Decode(es[k].value, NO_FLAGS))
  {
    seq(|es|, k requires 0 <= k < |es| => Entry(es[k].key, Decode(es[k].value, NO_FLAGS)))
  }

  function DecodedOption(v: Option<Value>): Option<Zval> {
    match v
    case None => None
    case Some(value) => Some(Decode(value, NO_FLAGS))
  }

  lemma DecodedFind(es: seq<Entry<Value>>, key: Bytes)
    ensures Find(Decoded(es), key) == Find(es, key)
    ensures Lookup(Decoded(es), key) == DecodedOption(Lookup(es, key))
  {
    var i, j := Find(Decoded(es), key), Find(es, key);
    assert i < |es| ==> es[i].key == key;
    assert j < |es| ==> Decoded(es)[j].key == key;
  }

  lemma DecodedUpsert(es: seq<Entry<Value>>, key: Bytes, value: Value)
    ensures Decoded(Upsert(es, key, value)) == Upsert(Decoded(es), key, Decode(value, NO_FLAGS))
  {
    DecodedFind(es, key);
    hide Decode, Find;
  }

  lemma DecodedRemove(es: seq<Entry<Value>>, key: Bytes)
    ensures Decoded(Remove(es, key)) == Remove(Decoded(es), key)
  {
    DecodedFind(es, key);
    hide Decode, Find;
  }

  /** The walker's table is the canonical member list, decoded. */
  lemma {:induction false} WalkIsCanonical(members: seq<Entry<Value>>, n: nat)
    requires n <= |members|
    ensures DecodeMembers(members, n, NO_FLAGS) == Decoded(Canon(members[..n]))
  {
    if n == 0 {
      assert members[..0] == [];
    } else {
      WalkIsCanonical(members, n - 1);
      assert members[..n][..n - 1] == members[..n - 1];
      DecodedUpsert(Canon(members[..n - 1]), members[n - 1].key, members[n - 1].value);
      hide Decode, Upsert;
    }
  }

  lemma DecodedObject(members: seq<Entry<Value>>)
    ensures Decode(Obj(members), NO_FLAGS) == ZMap(Decoded(Canon(members)))
  {
    WalkIsCanonical(members, |members|);
    assert members[..|members|] == members;
    hide Canon, Decoded;
    assert DecodeMembers(Obj(members).members, |members|, NO_FLAGS) == DecodeMembers(members, |members|, NO_FLAGS);
  }

  lemma DecodedBase(target: Option<Value>)
    ensures DataBase(DecodedOption(target)) == Decoded(Base(target))
  {
    if target.Some? && target.value.Obj? {
      assert Obj(target.value.members) == target.value;
      DecodedObject(target.value.members);
    }
  }

  // ---------------------------------------------------------------- the theorem

  /** Decoding a merged document gives what merging the decoded documents gives. */
  lemma {:induction false} DecodeMerged(target: Option<Value>, patch: Value)
    ensures Decode(Merged(target, patch), NO_FLAGS) == MergedData(DecodedOption(target), Decode(patch, NO_FLAGS))
    decreases patch, 1, 0
  {
    if patch.Obj? {
      var ps := Canon(patch.members);
      assert Obj(patch.members) == patch;
      var all := ApplyPatch(Base(target), ps, |ps|, patch);
      assert Merged(target, patch) == Obj(all);
      DecodeApplied(Base(target), ps, |ps|, patch, ZMap(Decoded(ps)));
      ApplyKeepsDistinct(Base(target), ps, |ps|, patch);
      DecodedBase(target);
      DecodedObject(patch.members);
      CanonFixes(all);
      DecodedObject(all);
      hide Canon, Decoded, Merged, ApplyPatch, Base, DataBase, Decode;
    }
  }

  lemma {:induction false} DecodeApplied(es: seq<Entry<Value>>, ps: seq<Entry<Value>>, n: nat, patch: Value, data: Zval)
    requires n <= |ps| && patch.Obj? && forall p :: p in ps ==> p in patch.members
    requires data == ZMap(Decoded(ps))
    ensures Decoded(ApplyPatch(es, ps, n, patch)) == ApplyData(Decoded(es), Decoded(ps), n, data)
    decreases patch, 0, n
  {
    if n > 0 {
      var before, p := ApplyPatch(es, ps, n - 1, patch), ps[n - 1];
      MemberIsSmaller(p, patch);
      DecodeApplied(es, ps, n - 1, patch, data);
      DecodeMerged(Lookup(before, p.key), p.value);
      hide Decode, Lookup, Upsert, Remove, Merged, MergedData;
      DecodedStep(before, p);
      assert Decoded(ps)[n - 1] == Entry(p.key, Decode(p.value, NO_FLAGS));
    }
  }

  /** One step of the RFC's loop, decoded. */
  lemma DecodedStep(before: seq<Entry<Value>>, p: Entry<Value>)
    requires Decode(Merged(Lookup(before, p.key), p.value), NO_FLAGS)
          == MergedData(DecodedOption(Lookup(before, p.key)), Decode(p.value, NO_FLAGS))
    ensures p.value.Null? <==> Decode(p.value, NO_FLAGS).ZNull?
    ensures Decoded(Remove(before, p.key)) == Remove(Decoded(before), p.key)
    ensures Decoded(Upsert(before, p.key, Merged(Lookup(before, p.key), p.value)))
         == Upsert(Decoded(before), p.key, MergedData(Lookup(Decoded(before), p.key), Decode(p.value, NO_FLAGS)))
  {
    NullIsNull(p.value);
    hide *;
    DecodedFind(before, p.key);
    DecodedUpsert(before, p.key, Merged(Lookup(before, p.key), p.value));
    DecodedRemove(before, p.key);
  }

  lemma NullIsNull(v: Value)
    ensures v.Null? <==> Decode(v, NO_FLAGS).ZNull?
  {
  }

  /**
   * The whole operation. It fails exactly when the merged document nests too deep; the walk that follows a
   * successful merge never does. Without UTF-8 flags the result is the merge of the two decoded documents.
   */
  method MergeDocuments(rt: Runtime, target: Value, patch: Value, inputLen: nat, depth: nat, f: Utf8Flags,
                        limits: Limits, sharing: Sharing)
    returns (ok: bool, out: Live)
    requires sharing.config.Valid()
    modifies rt
    ensures ok <==> Depth(Merged(Some(target), patch)) < depth
    ensures ok ==> View(out) == Decode(Merged(Some(target), patch), f) && StandsFor(out, Merged(Some(target), patch), f)
    ensures ok && f == NO_FLAGS ==> View(out) == MergedData(Some(Decode(target, f)), Decode(patch, f))
    ensures !ok ==> out == LNull
    ensures rt.keyShare == old(rt.keyShare)
  {
    DecodeMerged(Some(target), patch);
    hide Decode, Depth, Merged, MergedData, StandsFor;
    var merged, depthFailed := MergeBounded(Some(target), patch, depth, limits);
    if depthFailed {
      return false, LNull;
    }
    ghost var cache;
    ok, out, cache := DecodeShared(rt, merged.value, inputLen, depth, f, sharing);
    assert ok;
  }
}
