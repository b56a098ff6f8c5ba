/**
 * Merge patches as the extension applies them: within a depth budget, by a linear pass for small objects
 * and through hash indexes otherwise.
 */
module Merge {
  import opened ByteStrings
  import opened DepthProbe
  import opened Json
  import opened MergePatch
  import opened OrderedMap
  import opened Wrappers

  // ---------------------------------------------------------------- merging within a depth budget

  /** Every member's value nests less deep than `bound`. */
  predicate Within(es: seq<Entry<Value>>, bound: nat) {
    forall k :: 0 <= k < |es| ==> Depth(es[k].value) < bound
  }

  lemma ObjectWithin(es: seq<Entry<Value>>, remaining: nat)
    requires remaining >= 2
    ensures Depth(Obj(es)) < remaining <==> Within(es, remaining - 1)
  {
    assert Depth(Obj(es)) == 1 + DepthMembers(Obj(es).members, |es|);
    MembersWithin(es, |es|, remaining - 1);
  }

  lemma WithinConcat(a: seq<Entry<Value>>, b: seq<Entry<Value>>, bound: nat)
    ensures Within(a + b, bound) <==> Within(a, bound) && Within(b, bound)
  {
    hide Depth;
    if Within(a + b, bound) {
      forall k | 0 <= k < |a| ensures Depth(a[k].value) < bound {
        assert (a + b)[k] == a[k];
      }
      forall k | 0 <= k < |b| ensures Depth(b[k].value) < bound {
        assert (a + b)[|a| + k] == b[k];
      }
    }
  }

  /** A member that is too deep while merging is too deep in the merged object. */
  lemma DeepMemberStays(all: seq<Entry<Value>>, part: seq<Entry<Value>>, bound: nat)
    requires part <= all && !Within(part, bound)
    ensures !Within(all, bound)
  {
  }

  method CopyChecked(value: Value, remaining: nat) returns (copy: Option<Value>, depthFailed: bool)
    ensures depthFailed <==> Depth(value) >= remaining
    ensures copy == if depthFailed then None else Some(value)
  {
    if remaining == 0 {
      return None, true;
    }
    var reached := DepthReaches(value, remaining);
    if reached {
      return None, true;
    }
    return Some(value), false;
  }

  /** The outcome of a bounded merge: the merged value, or nothing when that value nests too deep. */
  ghost predicate IsMerge(result: Option<Value>, depthFailed: bool, target: Option<Value>, patch: Value,
                          remaining: nat) {
    && (depthFailed <==> Depth(Merged(target, patch)) >= remaining)
    && result == if depthFailed then None else Some(Merged(target, patch))
  }

  /** The size up to which objects are merged linearly. */
  datatype Limits = Limits(smallMax: nat)

  method MergeBounded(target: Option<Value>, patch: Value, remaining: nat, limits: Limits)
    returns (result: Option<Value>, depthFailed: bool)
    ensures IsMerge(result, depthFailed, target, patch, remaining)
    decreases patch, 5
  {
    if remaining == 0 {
      return None, true;
    }
    if !patch.Obj? {
      result, depthFailed := CopyChecked(patch, remaining);
      return;
    }
    if remaining <= 1 {
      return None, true;
    }
    var targetSize := if target.Some? && target.value.Obj? then |target.value.members| else 0;
    if |patch.members| <= limits.smallMax && targetSize <= limits.smallMax {
      result, depthFailed := MergeLinear(target, patch, remaining, limits);
    } else {
      result, depthFailed := MergeIndexed(target, patch, remaining, limits);
    }
  }

  /** Whether some key of a small object occurs twice. */
  method HasDuplicateKeys(v: Option<Value>, smallMax: nat) returns (duplicate: bool)
    requires v.Some? && v.value.Obj? ==> |v.value.members| <= smallMax
    ensures duplicate <==> v.Some? && v.value.Obj? && !Distinct(v.value.members)
  {
    if v.None? || !v.value.Obj? {
      return false;
    }
    var members := v.value.members;
    var seen := new Bytes[smallMax];
    var n := 0;
    while n < |members|
      invariant n <= |members|
      invariant forall k :: 0 <= k < n ==> seen[k] == members[k].key
      invariant forall j, k :: 0 <= j < k < n ==> members[j].key != members[k].key
    {
      var key := members[n].key;
      var i := 0;
      while i < n
        invariant i <= n
        invariant forall k :: 0 <= k < i ==> seen[k] != key
      {
        if |seen[i]| == |key| && seen[i] == key {
          return true;
        }
        i := i + 1;
      }
      seen[n] := key;
      n := n + 1;
    }
    return false;
  }

  // ---------------------------------------------------------------- the steps both implementations share

  /** The first pass after `i` target members. */
  ghost predicate KeptSoFar(builder: seq<Entry<Value>>, target: Option<Value>, patch: Value, i: nat, remaining: nat)
    requires patch.Obj? && i <= |Base(target)| && remaining > 0
  {
    builder == Kept(Base(target)[..i], Canon(patch.members)) && Within(builder, remaining - 1)
  }

  /** The second pass after `i` patch members. */
  ghost predicate AddedSoFar(builder: seq<Entry<Value>>, target: Option<Value>, patch: Value, i: nat, remaining: nat)
    requires patch.Obj? && i <= |Canon(patch.members)| && remaining > 0
  {
    && builder == Kept(Base(target), Canon(patch.members)) + Added(Canon(patch.members)[..i], Base(target))
    && Within(builder, remaining - 1)
  }

  lemma PassesStart(target: Option<Value>, patch: Value, remaining: nat)
    requires patch.Obj? && remaining > 0
    ensures KeptSoFar([], target, patch, 0, remaining)
  {
    NothingKept(Canon(patch.members));
    LoopEnds(Base(target));
  }

  lemma SecondPassStarts(builder: seq<Entry<Value>>, target: Option<Value>, patch: Value, remaining: nat)
    requires patch.Obj? && remaining > 0 && KeptSoFar(builder, target, patch, |Base(target)|, remaining)
    ensures AddedSoFar(builder, target, patch, 0, remaining)
  {
    NothingAdded(Base(target));
    LoopEnds(Base(target));
    LoopEnds(Canon(patch.members));
    hide Within, Kept, Added, Base, Canon;
  }

  lemma PassesEnd(builder: seq<Entry<Value>>, target: Option<Value>, patch: Value, remaining: nat)
    requires patch.Obj? && remaining >= 2 && AddedSoFar(builder, target, patch, |Canon(patch.members)|, remaining)
    ensures IsMerge(Some(Obj(builder)), false, target, patch, remaining)
  {
    assert Obj(patch.members) == patch;
    MergedObject(target, patch.members);
    ObjectWithin(builder, remaining);
    LoopEnds(Canon(patch.members));
    hide Depth, Merged, Kept, Added, Canon, Base, Within;
  }

  /** Merged members that are too deep already make the merged object too deep. */
  lemma TooDeep(target: Option<Value>, patch: Value, part: seq<Entry<Value>>, remaining: nat)
    requires patch.Obj? && remaining >= 2
    requires part <= Kept(Base(target), Canon(patch.members)) + Added(Canon(patch.members), Base(target))
    requires !Within(part, remaining - 1)
    ensures Depth(Merged(target, patch)) >= remaining
  {
    var all := Kept(Base(target), Canon(patch.members)) + Added(Canon(patch.members), Base(target));
    hide *;
    MergedObject(target, patch.members);
    DeepMemberStays(all, part, remaining - 1);
    ObjectWithin(all, remaining);
  }

  lemma KeepStep(builder: seq<Entry<Value>>, target: Option<Value>, patch: Value, i: nat, remaining: nat)
    requires patch.Obj? && i < |Base(target)| && remaining >= 2 && KeptSoFar(builder, target, patch, i, remaining)
    ensures var piece := KeptFrom(Base(target)[i], Lookup(Canon(patch.members), Base(target)[i].key));
            if Within(piece, remaining - 1) then KeptSoFar(builder + piece, target, patch, i + 1, remaining)
            else Depth(Merged(target, patch)) >= remaining
  {
    var os, ps := Base(target), Canon(patch.members);
    KeptOneIs(os[i], ps);
    hide Base, Canon, Kept, Within, Merged, Depth, KeptFrom, Lookup, KeptOne;
    KeptGrows(os, i, ps);
    WithinConcat(builder, KeptOne(os[i], ps), remaining - 1);
    if !Within(KeptOne(os[i], ps), remaining - 1) {
      KeptExtends(os, i + 1, ps);
      TooDeep(target, patch, Kept(os[..i + 1], ps), remaining);
    }
  }

  lemma KeptOneIs(o: Entry<Value>, ps: seq<Entry<Value>>)
    ensures KeptOne(o, ps) == KeptFrom(o, Lookup(ps, o.key))
  {
  }

  lemma AddStep(builder: seq<Entry<Value>>, target: Option<Value>, patch: Value, i: nat, remaining: nat)
    requires patch.Obj? && i < |Canon(patch.members)| && remaining >= 2
             && AddedSoFar(builder, target, patch, i, remaining)
    ensures var piece := AddedOne(Canon(patch.members)[i], Base(target));
            if Within(piece, remaining - 1) then AddedSoFar(builder + piece, target, patch, i + 1, remaining)
            else Depth(Merged(target, patch)) >= remaining
  {
    var os, ps := Base(target), Canon(patch.members);
    var piece := AddedOne(ps[i], os);
    assert builder == Kept(os, ps) + Added(ps[..i], os) && Within(builder, remaining - 1);
    hide Base, Canon, Kept, Added, Within, Merged, Depth, AddedOne;
    AddStepWithin(builder, os, ps, i, remaining - 1);
    if !Within(piece, remaining - 1) {
      WithinConcat(builder, piece, remaining - 1);
      AddedExtends(ps, i + 1, os);
      TooDeep(target, patch, Kept(os, ps) + Added(ps[..i + 1], os), remaining);
    }
  }

  lemma AddStepWithin(builder: seq<Entry<Value>>, os: seq<Entry<Value>>, ps: seq<Entry<Value>>, i: nat, bound: nat)
    requires i < |ps| && builder == Kept(os, ps) + Added(ps[..i], os)
    ensures builder + AddedOne(ps[i], os) == Kept(os, ps) + Added(ps[..i + 1], os)
    ensures Within(builder, bound) && Within(AddedOne(ps[i], os), bound) ==>
            Within(builder + AddedOne(ps[i], os), bound)
  {
    hide *;
    AddedStep(ps, i, os);
    WithinConcat(builder, AddedOne(ps[i], os), bound);
  }

  lemma SingleWithin(e: Entry<Value>, bound: nat)
    ensures Within([e], bound) <==> Depth(e.value) < bound
  {
    assert [e][0] == e;
  }

  lemma NothingIsWithin(bound: nat)
    ensures Within([], bound)
  {
  }

  /** The first pass's turn for one target member, whose name the patch gives `p`. */
  method KeepNext(builder: seq<Entry<Value>>, o: Entry<Value>, p: Option<Value>, ghost i: nat,
                  ghost target: Option<Value>, patch: Value, remaining: nat, limits: Limits)
    returns (grown: seq<Entry<Value>>, depthFailed: bool)
    requires patch.Obj? && i < |Base(target)| && remaining >= 2 && KeptSoFar(builder, target, patch, i, remaining)
    requires o == Base(target)[i] && p == Lookup(Canon(patch.members), o.key)
    ensures depthFailed ==> Depth(Merged(target, patch)) >= remaining
    ensures !depthFailed ==> KeptSoFar(grown, target, patch, i + 1, remaining)
    decreases patch, 0, 0
  {
    KeepStep(builder, target, patch, i, remaining);
    NothingIsWithin(remaining - 1);
    PatchValueIsSmaller(patch.members, o.key);
    hide Base, Canon, Merged, Depth, Within, KeptSoFar, Lookup;
    if p.Some? && p.value.Null? {
      return builder + [], false;
    }
    var value;
    if p.None? {
      SingleWithin(o, remaining - 1);
      value, depthFailed := CopyChecked(o.value, remaining - 1);
    } else {
      SingleWithin(Entry(o.key, Merged(Some(o.value), p.value)), remaining - 1);
      value, depthFailed := MergeBounded(Some(o.value), p.value, remaining - 1, limits);
    }
    if depthFailed {
      return [], true;
    }
    return builder + [Entry(o.key, value.value)], false;
  }

  /** The second pass's turn for one patch member, whose name the target may know. */
  method AddNext(builder: seq<Entry<Value>>, p: Entry<Value>, known: bool, ghost i: nat,
                 ghost target: Option<Value>, patch: Value, remaining: nat, limits: Limits)
    returns (grown: seq<Entry<Value>>, depthFailed: bool)
    requires patch.Obj? && i < |Canon(patch.members)| && remaining >= 2
             && AddedSoFar(builder, target, patch, i, remaining)
    requires p == Canon(patch.members)[i] && known == Lookup(Base(target), p.key).Some?
    ensures depthFailed ==> Depth(Merged(target, patch)) >= remaining
    ensures !depthFailed ==> AddedSoFar(grown, target, patch, i + 1, remaining)
    decreases patch, 0
  {
    AddStep(builder, target, patch, i, remaining);
    AddedOneIs(p, Base(target));
    NothingIsWithin(remaining - 1);
    MemberIsSmaller(p, patch);
    hide Base, Canon, Merged, Depth, Within, AddedSoFar, AddedOne, Lookup;
    if known || p.value.Null? {
      return builder + [], false;
    }
    SingleWithin(Entry(p.key, Merged(None, p.value)), remaining - 1);
    var value;
    value, depthFailed := MergeBounded(None, p.value, remaining - 1, limits);
    if depthFailed {
      return [], true;
    }
    return builder + [Entry(p.key, value.value)], false;
  }

  // ---------------------------------------------------------------- small objects

  /** The linear pass over small objects; duplicates send it to the indexed one before anything is copied. */
  method MergeLinear(target: Option<Value>, patch: Value, remaining: nat, limits: Limits)
    returns (result: Option<Value>, depthFailed: bool)
    requires patch.Obj? && remaining >= 2 && |patch.members| <= limits.smallMax
    requires target.Some? && target.value.Obj? ==> |target.value.members| <= limits.smallMax
    ensures IsMerge(result, depthFailed, target, patch, remaining)
    decreases patch, 4
  {
    var duplicates := HasDuplicateKeys(target, limits.smallMax);
    if !duplicates {
      duplicates := HasDuplicateKeys(Some(patch), limits.smallMax);
    }
    if duplicates {
      result, depthFailed := MergeIndexed(target, patch, remaining, limits);
      return;
    }
    var os := if target.Some? && target.value.Obj? then target.value.members else [];
    CanonFixes(os);
    CanonFixes(patch.members);
    result, depthFailed := MergeDistinct(target, patch, os, remaining, limits);
  }

  /** The linear pass proper, over objects without duplicates. */
  method MergeDistinct(target: Option<Value>, patch: Value, os: seq<Entry<Value>>, remaining: nat, limits: Limits)
    returns (result: Option<Value>, depthFailed: bool)
    requires patch.Obj? && remaining >= 2 && os == Base(target) && patch.members == Canon(patch.members)
    ensures IsMerge(result, depthFailed, target, patch, remaining)
    decreases patch, 3
  {
    var builder := [];
    PassesStart(target, patch, remaining);
    hide KeptSoFar, AddedSoFar, Merged, Depth, Canon, Base, Lookup;
    for i := 0 to |os|
      invariant KeptSoFar(builder, target, patch, i, remaining)
    {
      builder, depthFailed := KeepNext(builder, os[i], Lookup(patch.members, os[i].key), i, target, patch, remaining,
                                         limits);
      if depthFailed {
        return None, true;
      }
    }
    SecondPassStarts(builder, target, patch, remaining);
    for i := 0 to |patch.members|
      invariant AddedSoFar(builder, target, patch, i, remaining)
    {
      var p := patch.members[i];
      builder, depthFailed := AddNext(builder, p, Lookup(os, p.key).Some?, i, target, patch, remaining, limits);
      if depthFailed {
        return None, true;
      }
    }
    PassesEnd(builder, target, patch, remaining);
    return Some(Obj(builder)), false;
  }

  // ---------------------------------------------------------------- through hash indexes

  datatype Member = Member(key: Bytes, value: Value, emitted: bool)

  /** An object's members, each name once, and a hash index over them. */
  class MergeIndex {
    var byKey: map<Bytes, nat>
    const members: array<Member>
    var count: nat

    ghost predicate Valid()
      reads this, members
    {
      && count <= members.Length
      && (forall i :: 0 <= i < count ==> members[i].key in byKey && byKey[members[i].key] == i)
      && forall key :: key in byKey ==> byKey[key] < count && members[byKey[key]].key == key
    }

    ghost function Entries(): (es: seq<Entry<Value>>)
      requires Valid()
      reads this, members
      ensures |es| == count && forall i :: 0 <= i < count ==> es[i] == Entry(members[i].key, members[i].value)
    {
      seq(count, i requires 0 <= i < count && Valid() reads this, members => Entry(members[i].key, members[i].value))
    }

    /** The first member of each name takes the place, the last one gives the value. */
    constructor (v: Option<Value>)
      ensures Valid() && fresh(members) && Entries() == Base(v)
      ensures forall i :: 0 <= i < count ==> !members[i].emitted
    {
      var capacity := if v.Some? && v.value.Obj? then |v.value.members| else 0;
      members := new Member[capacity];
      byKey := map[];
      count := 0;
      new;
      if v.Some? && v.value.Obj? {
        StoreAll(v.value.members);
      }
    }

    method StoreAll(source: seq<Entry<Value>>)
      requires Valid() && count == 0 && |source| <= members.Length
      modifies this`byKey, this`count, members
      ensures Valid() && Entries() == Canon(source)
      ensures forall i :: 0 <= i < count ==> !members[i].emitted
    {
      LoopEnds(source);
      hide Canon, Upsert;
      CanonOfNothing();
      for n := 0 to |source|
        invariant Valid() && count <= n
        invariant Entries() == Canon(source[..n])
        invariant forall i :: 0 <= i < count ==> !members[i].emitted
      {
        Store(source[n]);
        CanonStep(source, n);
      }
    }

    method Store(e: Entry<Value>)
      requires Valid() && count < members.Length
      requires forall i :: 0 <= i < count ==> !members[i].emitted
      modifies this`byKey, this`count, members
      ensures Valid() && old(count) <= count <= old(count) + 1
      ensures Entries() == Upsert(old(Entries()), e.key, e.value)
      ensures forall i :: 0 <= i < count ==> !members[i].emitted
    {
      ByKeyIsFind(e.key);
      if e.key !in byKey {
        Insert(e);
      } else {
        Replace(e);
      }
    }

    method Insert(e: Entry<Value>)
      requires Valid() && count < members.Length && e.key !in byKey
      requires forall i :: 0 <= i < count ==> !members[i].emitted
      modifies this`byKey, this`count, members
      ensures Valid() && count == old(count) + 1
      ensures Entries() == old(Entries()) + [e]
      ensures forall i :: 0 <= i < count ==> !members[i].emitted
    {
      members[count] := Member(e.key, e.value, false);
      byKey, count := byKey[e.key := count], count + 1;
    }

    method Replace(e: Entry<Value>)
      requires Valid() && e.key in byKey
      requires forall i :: 0 <= i < count ==> !members[i].emitted
      modifies members
      ensures Valid()
      ensures Entries() == old(Entries())[byKey[e.key] := e]
      ensures forall i :: 0 <= i < count ==> !members[i].emitted
    {
      members[byKey[e.key]] := members[byKey[e.key]].(value := e.value);
    }

    method MarkEmitted(i: nat)
      requires Valid() && i < count
      modifies members
      ensures Valid() && Entries() == old(Entries())
      ensures forall j :: 0 <= j < count ==> members[j].emitted == (old(members[j].emitted) || j == i)
    {
      members[i] := members[i].(emitted := true);
    }

    lemma ByKeyIsFind(key: Bytes)
      requires Valid()
      ensures Find(Entries(), key) == if key in byKey then byKey[key] else count
    {
      assert key in byKey ==> Entries()[byKey[key]].key == key;
    }

    lemma ByKeyIsLookup(key: Bytes)
      requires Valid()
      ensures Lookup(Entries(), key) == if key in byKey then Some(members[byKey[key]].value) else None
    {
      ByKeyIsFind(key);
    }
  }

  lemma CanonOfNothing()
    ensures Canon<Value>([]) == []
  {
  }

  lemma CanonStep(es: seq<Entry<Value>>, n: nat)
    requires n < |es|
    ensures Canon(es[..n + 1]) == Upsert(Canon(es[..n]), es[n].key, es[n].value)
  {
    assert es[..n + 1][..n] == es[..n];
  }

  lemma NamesGrow(os: seq<Entry<Value>>, i: nat, key: Bytes)
    requires i < |os|
    ensures HasKey(os[..i + 1], key) <==> HasKey(os[..i], key) || os[i].key == key
  {
    Split(os[..i + 1], key);
    assert os[..i + 1][..i] == os[..i];
  }

  /** The patch members whose names were met among the first `n` target members. */
  ghost predicate Emitted(patches: MergeIndex, os: seq<Entry<Value>>, n: nat)
    requires patches.Valid() && n <= |os|
    reads patches, patches.members
  {
    forall j :: 0 <= j < patches.count ==> (patches.members[j].emitted <==> HasKey(os[..n], patches.members[j].key))
  }

  /** The patch value of a target member's name, which is ticked off. */
  method TakePatch(patches: MergeIndex, key: Bytes, ghost os: seq<Entry<Value>>,
                   ghost i: nat) returns (p: Option<Value>)
    requires patches.Valid() && i < |os| && os[i].key == key && Emitted(patches, os, i)
    modifies patches.members
    ensures patches.Valid() && patches.Entries() == old(patches.Entries()) && Emitted(patches, os, i + 1)
    ensures p == Lookup(patches.Entries(), key)
  {
    patches.ByKeyIsLookup(key);
    forall j | 0 <= j < patches.count
      ensures HasKey(os[..i + 1], patches.members[j].key)
         <==> HasKey(os[..i], patches.members[j].key) || patches.members[j].key == key
    {
      NamesGrow(os, i, patches.members[j].key);
    }
    hide HasKey, Lookup;
    p := None;
    if key in patches.byKey {
      p := Some(patches.members[patches.byKey[key]].value);
      patches.MarkEmitted(patches.byKey[key]);
    }
  }

  /** The patch's index while the first pass has met `i` target members. */
  ghost predicate Ticked(patches: MergeIndex, target: Option<Value>, patch: Value, i: nat)
    reads patches, patches.members
  {
    && patch.Obj? && i <= |Base(target)|
    && patches.Valid() && patches.Entries() == Canon(patch.members) && Emitted(patches, Base(target), i)
  }

  method KeepIndexedNext(builder: seq<Entry<Value>>, o: Entry<Value>, patches: MergeIndex, ghost i: nat,
                         ghost target: Option<Value>, patch: Value, remaining: nat, limits: Limits)
    returns (grown: seq<Entry<Value>>, depthFailed: bool)
    requires Ticked(patches, target, patch, i) && i < |Base(target)| && o == Base(target)[i]
    requires remaining >= 2 && KeptSoFar(builder, target, patch, i, remaining)
    modifies patches.members
    ensures Ticked(patches, target, patch, i + 1)
    ensures depthFailed ==> Depth(Merged(target, patch)) >= remaining
    ensures !depthFailed ==> KeptSoFar(grown, target, patch, i + 1, remaining)
    decreases patch, 0, 1
  {
    var p := TakePatch(patches, o.key, Base(target), i);
    hide KeptSoFar, Merged, Depth, Canon, Base, Lookup, HasKey, Emitted;
    grown, depthFailed := KeepNext(builder, o, p, i, target, patch, remaining, limits);
  }

  /** First pass: the target's members, replaced, dropped or kept. */
  method KeepIndexed(originals: MergeIndex, patches: MergeIndex, ghost target: Option<Value>, patch: Value,
                     remaining: nat, limits: Limits)
    returns (builder: seq<Entry<Value>>, depthFailed: bool)
    requires Ticked(patches, target, patch, 0) && remaining >= 2
    requires originals.Valid() && originals.Entries() == Base(target) && originals.members != patches.members
    modifies patches.members
    ensures depthFailed ==> Depth(Merged(target, patch)) >= remaining
    ensures !depthFailed ==> Ticked(patches, target, patch, |Base(target)|)
    ensures !depthFailed ==> KeptSoFar(builder, target, patch, |Base(target)|, remaining)
    decreases patch, 1
  {
    builder := [];
    PassesStart(target, patch, remaining);
    hide KeptSoFar, Merged, Depth, Base, Ticked;
    for i := 0 to originals.count
      invariant Ticked(patches, target, patch, i)
      invariant KeptSoFar(builder, target, patch, i, remaining)
    {
      var o := originals.members[i];
      builder, depthFailed := KeepIndexedNext(builder, Entry(o.key, o.value), patches, i, target, patch, remaining,
                                         limits);
      if depthFailed {
        return [], true;
      }
    }
    return builder, false;
  }

  /** A patch member is ticked off exactly when the target has its name. */
  lemma EmittedIsKnown(patches: MergeIndex, os: seq<Entry<Value>>, i: nat)
    requires patches.Valid() && Emitted(patches, os, |os|) && i < patches.count
    ensures patches.members[i].emitted <==> Lookup(os, patches.members[i].key).Some?
  {
    LoopEnds(os);
    Present(os, patches.members[i].key);
    hide HasKey, Lookup;
  }

  /** Second pass: the patch members not ticked off in the first. */
  method AddIndexed(kept: seq<Entry<Value>>, patches: MergeIndex, ghost target: Option<Value>, patch: Value,
                    remaining: nat, limits: Limits)
    returns (builder: seq<Entry<Value>>, depthFailed: bool)
    requires patch.Obj? && remaining >= 2
    requires Ticked(patches, target, patch, |Base(target)|)
    requires AddedSoFar(kept, target, patch, 0, remaining)
    ensures depthFailed ==> Depth(Merged(target, patch)) >= remaining
    ensures !depthFailed ==> AddedSoFar(builder, target, patch, |Canon(patch.members)|, remaining)
    decreases patch, 1
  {
    builder := kept;
    hide AddedSoFar, Merged, Depth, Canon, Base, Lookup, HasKey, Emitted;
    for i := 0 to patches.count
      invariant AddedSoFar(builder, target, patch, i, remaining)
    {
      var p := patches.members[i];
      EmittedIsKnown(patches, Base(target), i);
      builder, depthFailed := AddNext(builder, Entry(p.key, p.value), p.emitted, i, target, patch, remaining, limits);
      if depthFailed {
        return [], true;
      }
    }
    return builder, false;
  }

  /** The merge through hash indexes, for objects that are large or repeat a name. */
  method MergeIndexed(target: Option<Value>, patch: Value, remaining: nat, limits: Limits)
    returns (result: Option<Value>, depthFailed: bool)
    requires patch.Obj? && remaining >= 2
    ensures IsMerge(result, depthFailed, target, patch, remaining)
    decreases patch, 2
  {
    var originals := new MergeIndex(target);
    var patches := new MergeIndex(Some(patch));
    hide Merged, Kept, Added, Canon, Within, Depth, KeptSoFar, AddedSoFar;
    var builder;
    builder, depthFailed := KeepIndexed(originals, patches, target, patch, remaining, limits);
    if depthFailed {
      return None, true;
    }
    SecondPassStarts(builder, target, patch, remaining);
    builder, depthFailed := AddIndexed(builder, patches, target, patch, remaining, limits);
    if depthFailed {
      return None, true;
    }
    PassesEnd(builder, target, patch, remaining);
    return Some(Obj(builder)), false;
  }
}
