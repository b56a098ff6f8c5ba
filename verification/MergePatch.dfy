/** What JSON Merge Patch (RFC 7396 section 2) means on objects whose duplicate members are resolved. */
module MergePatch {
  import opened ByteStrings
  import opened Json
  import opened OrderedMap
  import opened Wrappers

  // ---------------------------------------------------------------- what merging means

  /** The members a merge starts from: none unless the target is an object. */
  function Base(target: Option<Value>): (es: seq<Entry<Value>>)
    ensures Distinct(es)
  {
    if target.Some? && target.value.Obj? then Canon(target.value.members) else []
  }

  /** MergePatch of RFC 7396 section 2, on members with duplicates resolved. */
  function Merged(target: Option<Value>, patch: Value): Value
    decreases patch, 1, 0
  {
    match patch
    case Obj(members) => Obj(ApplyPatch(Base(target), Canon(members), |Canon(members)|, patch))
    case _ => patch
  }

  /** The loop of MergePatch after its first `n` names. */
  function ApplyPatch(es: seq<Entry<Value>>, ps: seq<Entry<Value>>, n: nat, patch: Value): seq<Entry<Value>>
    requires n <= |ps| && patch.Obj? && forall p :: p in ps ==> p in patch.members
    decreases patch, 0, n
  {
    if n == 0 then es
    else
      var before := ApplyPatch(es, ps, n - 1, patch);
      var p := ps[n - 1];
      MemberIsSmaller(p, patch);
      if p.value.Null? then Remove(before, p.key)
      else Upsert(before, p.key, Merged(Lookup(before, p.key), p.value))
  }

  lemma MemberIsSmaller(e: Entry<Value>, v: Value)
    requires v.Obj? && e in v.members
    ensures e.value < v
  {
    var i :| 0 <= i < |v.members| && v.members[i] == e;
    assert v.members[i] < v;
  }

  // ---------------------------------------------------------------- the two passes of the code

  /** What becomes of one target member, given the patch value of its name. */
  function KeptFrom(o: Entry<Value>, p: Option<Value>): seq<Entry<Value>> {
    match p
    case None => [o]
    case Some(value) => if value.Null? then [] else [Entry(o.key, Merged(Some(o.value), value))]
  }

  function KeptOne(o: Entry<Value>, ps: seq<Entry<Value>>): seq<Entry<Value>> {
    KeptFrom(o, Lookup(ps, o.key))
  }

  function Kept(os: seq<Entry<Value>>, ps: seq<Entry<Value>>): seq<Entry<Value>> {
    if os == [] then [] else Kept(os[..|os| - 1], ps) + KeptOne(os[|os| - 1], ps)
  }

  /** What one patch member adds on its own. */
  function AddedOne(p: Entry<Value>, os: seq<Entry<Value>>): seq<Entry<Value>> {
    if p.value.Null? || Lookup(os, p.key).Some? then [] else [Entry(p.key, Merged(None, p.value))]
  }

  function Added(ps: seq<Entry<Value>>, os: seq<Entry<Value>>): seq<Entry<Value>> {
    if ps == [] then [] else Added(ps[..|ps| - 1], os) + AddedOne(ps[|ps| - 1], os)
  }

  lemma {:induction false} KeptKeys(os: seq<Entry<Value>>, ps: seq<Entry<Value>>, key: Bytes)
    ensures HasKey(Kept(os, ps), key) ==> HasKey(os, key)
  {
    if os != [] {
      KeptKeys(os[..|os| - 1], ps, key);
      Split(os, key);
      ConcatHasKey(Kept(os[..|os| - 1], ps), KeptOne(os[|os| - 1], ps), key);
      hide Lookup, Merged;
    }
  }

  lemma {:induction false} AddedKeys(ps: seq<Entry<Value>>, os: seq<Entry<Value>>, key: Bytes)
    ensures HasKey(Added(ps, os), key) ==> HasKey(ps, key) && !HasKey(os, key)
  {
    if ps != [] {
      AddedKeys(ps[..|ps| - 1], os, key);
      Split(ps, key);
      Present(os, ps[|ps| - 1].key);
      ConcatHasKey(Added(ps[..|ps| - 1], os), AddedOne(ps[|ps| - 1], os), key);
      hide Lookup, Merged;
    }
  }

  /** A patch member leaves the target members of other names alone. */
  lemma KeptOneUnaffected(o: Entry<Value>, ps: seq<Entry<Value>>, p: Entry<Value>)
    requires o.key != p.key
    ensures KeptOne(o, ps + [p]) == KeptOne(o, ps)
  {
    if HasKey(ps, o.key) {
      InFront(ps, [p], o.key, p.value);
    } else {
      InBack(ps, [p], o.key, p.value);
      Present(ps, o.key);
      Present([p], o.key);
    }
  }

  lemma KeptOneHit(o: Entry<Value>, ps: seq<Entry<Value>>, p: Entry<Value>)
    requires o.key == p.key && !HasKey(ps, p.key)
    ensures KeptOne(o, ps) == [o]
    ensures KeptOne(o, ps + [p]) == if p.value.Null? then [] else [Entry(o.key, Merged(Some(o.value), p.value))]
  {
    InBack(ps, [p], o.key, p.value);
    Present(ps, o.key);
    assert Find([p], p.key) == 0;
  }

  lemma {:induction false} KeptUnaffected(os: seq<Entry<Value>>, ps: seq<Entry<Value>>, p: Entry<Value>)
    requires !HasKey(os, p.key)
    ensures Kept(os, ps + [p]) == Kept(os, ps)
  {
    hide KeptOne;
    if os != [] {
      var front := os[..|os| - 1];
      Split(os, p.key);
      KeptUnaffected(front, ps, p);
      KeptOneUnaffected(os[|os| - 1], ps, p);
    }
  }

  /** One step of the RFC's loop on the members kept so far. */
  function Stepped(es: seq<Entry<Value>>, p: Entry<Value>): seq<Entry<Value>> {
    if p.value.Null? then Remove(es, p.key) else Upsert(es, p.key, Merged(Lookup(es, p.key), p.value))
  }

  lemma SteppedFront(a: seq<Entry<Value>>, b: seq<Entry<Value>>, p: Entry<Value>)
    requires HasKey(a, p.key)
    ensures Stepped(a + b, p) == Stepped(a, p) + b
  {
    InFront(a, b, p.key, Merged(Lookup(a, p.key), p.value));
    hide Merged, Lookup, Upsert, Remove;
  }

  lemma SteppedBack(a: seq<Entry<Value>>, b: seq<Entry<Value>>, p: Entry<Value>)
    requires !HasKey(a, p.key)
    ensures Stepped(a + b, p) == a + Stepped(b, p)
  {
    InBack(a, b, p.key, Merged(Lookup(b, p.key), p.value));
    hide Merged, Lookup, Upsert, Remove;
  }

  lemma SteppedAbsent(es: seq<Entry<Value>>, p: Entry<Value>)
    requires !HasKey(es, p.key)
    ensures Stepped(es, p) == es + if p.value.Null? then [] else [Entry(p.key, Merged(None, p.value))]
  {
    Absent(es, p.key, Merged(None, p.value));
    hide Merged, Upsert, Remove, Lookup;
  }

  lemma SteppedSingle(o: Entry<Value>, p: Entry<Value>)
    requires o.key == p.key
    ensures Stepped([o], p) == if p.value.Null? then [] else [Entry(o.key, Merged(Some(o.value), p.value))]
  {
    assert Find([o], p.key) == 0;
    hide Merged;
  }

  lemma {:induction false} KeptStep(os: seq<Entry<Value>>, ps: seq<Entry<Value>>, p: Entry<Value>)
    requires Distinct(os) && HasKey(os, p.key) && !HasKey(ps, p.key)
    ensures HasKey(Kept(os, ps), p.key)
    ensures Kept(os, ps + [p]) == Stepped(Kept(os, ps), p)
  {
    var front, last := os[..|os| - 1], os[|os| - 1];
    if last.key == p.key {
      assert !HasKey(front, p.key);
      KeptUnaffected(front, ps, p);
      KeptOneHit(last, ps, p);
      KeptKeys(front, ps, p.key);
      SteppedBack(Kept(front, ps), [last], p);
      SteppedSingle(last, p);
      hide KeptOne, Stepped;
      assert Kept(os, ps)[|Kept(front, ps)|].key == p.key;
    } else {
      Split(os, p.key);
      KeptStep(front, ps, p);
      KeptOneUnaffected(last, ps, p);
      SteppedFront(Kept(front, ps), KeptOne(last, ps), p);
      ConcatHasKey(Kept(front, ps), KeptOne(last, ps), p.key);
      hide KeptOne, Stepped, HasKey;
    }
  }

  /** Keeping, then adding, is what the RFC's loop does. */
  lemma {:induction false} TwoPassesAreTheLoop(os: seq<Entry<Value>>, ps: seq<Entry<Value>>, n: nat, patch: Value)
    requires n <= |ps| && patch.Obj? && forall p :: p in ps ==> p in patch.members
    requires Distinct(os) && Distinct(ps)
    ensures ApplyPatch(os, ps, n, patch) == Kept(os, ps[..n]) + Added(ps[..n], os)
  {
    hide Kept, Added, Distinct, Merged;
    if n == 0 {
      NothingToApply(os, ps);
    } else {
      TwoPassesAreTheLoop(os, ps, n - 1, patch);
      TwoPassStep(os, ps, n);
      assert ApplyPatch(os, ps, n, patch) == Stepped(ApplyPatch(os, ps, n - 1, patch), ps[n - 1]);
    }
  }

  lemma {:induction false} KeepAll(os: seq<Entry<Value>>)
    ensures Kept(os, []) == os
  {
    if os != [] {
      KeepAll(os[..|os| - 1]);
      assert KeptOne(os[|os| - 1], []) == [os[|os| - 1]];
    }
  }

  lemma NothingToApply(os: seq<Entry<Value>>, ps: seq<Entry<Value>>)
    ensures Kept(os, ps[..0]) + Added(ps[..0], os) == os
  {
    assert ps[..0] == [];
    KeepAll(os);
  }

  lemma OneAddition(p: Entry<Value>, os: seq<Entry<Value>>)
    ensures AddedOne(p, os)
         == if p.value.Null? || HasKey(os, p.key) then [] else [Entry(p.key, Merged(None, p.value))]
  {
    Present(os, p.key);
    hide Lookup, Merged, HasKey;
  }

  lemma TwoPassStep(os: seq<Entry<Value>>, ps: seq<Entry<Value>>, n: nat)
    requires 0 < n <= |ps| && Distinct(os) && Distinct(ps)
    ensures Stepped(Kept(os, ps[..n - 1]) + Added(ps[..n - 1], os), ps[n - 1]) == Kept(os, ps[..n]) + Added(ps[..n], os)
  {
    var front, p := ps[..n - 1], ps[n - 1];
    assert ps[..n] == front + [p];
    assert !HasKey(front, p.key);
    hide *;
    AddedGrows(front, p, os);
    if HasKey(os, p.key) {
      KnownName(os, front, p);
    } else {
      NewName(os, front, p);
    }
  }

  lemma AddedGrows(front: seq<Entry<Value>>, p: Entry<Value>, os: seq<Entry<Value>>)
    ensures Added(front + [p], os)
         == Added(front, os) + if p.value.Null? || HasKey(os, p.key) then [] else [Entry(p.key, Merged(None, p.value))]
  {
    assert (front + [p])[..|front + [p]| - 1] == front;
    OneAddition(p, os);
    hide AddedOne, Lookup, Merged, HasKey;
  }

  lemma KnownName(os: seq<Entry<Value>>, front: seq<Entry<Value>>, p: Entry<Value>)
    requires Distinct(os) && HasKey(os, p.key) && !HasKey(front, p.key)
    ensures Stepped(Kept(os, front) + Added(front, os), p) == Kept(os, front + [p]) + Added(front, os)
  {
    hide *;
    KeptStep(os, front, p);
    SteppedFront(Kept(os, front), Added(front, os), p);
  }

  lemma NewName(os: seq<Entry<Value>>, front: seq<Entry<Value>>, p: Entry<Value>)
    requires !HasKey(os, p.key) && !HasKey(front, p.key)
    ensures Stepped(Kept(os, front) + Added(front, os), p)
         == Kept(os, front + [p])
            + (Added(front, os) + if p.value.Null? then [] else [Entry(p.key, Merged(None, p.value))])
  {
    hide *;
    KeptUnaffected(os, front, p);
    KeptKeys(os, front, p.key);
    AddedKeys(front, os, p.key);
    ConcatHasKey(Kept(os, front), Added(front, os), p.key);
    SteppedAbsent(Kept(os, front) + Added(front, os), p);
  }

  /** The merge of an object patch, as its two passes. */
  lemma MergedObject(target: Option<Value>, members: seq<Entry<Value>>)
    ensures Merged(target, Obj(members))
         == Obj(Kept(Base(target), Canon(members)) + Added(Canon(members), Base(target)))
  {
    var ps := Canon(members);
    hide Canon, Kept, Added, ApplyPatch, Base;
    TwoPassesAreTheLoop(Base(target), ps, |ps|, Obj(members));
    assert ps[..|ps|] == ps;
  }

  lemma KeptGrows(os: seq<Entry<Value>>, i: nat, ps: seq<Entry<Value>>)
    requires i < |os|
    ensures Kept(os[..i + 1], ps) == Kept(os[..i], ps) + KeptOne(os[i], ps)
  {
    assert os[..i + 1][..i] == os[..i];
    hide KeptOne;
  }

  lemma {:induction false} KeptExtends(os: seq<Entry<Value>>, i: nat, ps: seq<Entry<Value>>)
    requires i <= |os|
    ensures Kept(os[..i], ps) <= Kept(os, ps)
    decreases |os| - i
  {
    if i == |os| {
      assert os[..i] == os;
    } else {
      KeptGrows(os, i, ps);
      KeptExtends(os, i + 1, ps);
    }
  }

  lemma AddedStep(ps: seq<Entry<Value>>, i: nat, os: seq<Entry<Value>>)
    requires i < |ps|
    ensures Added(ps[..i + 1], os) == Added(ps[..i], os) + AddedOne(ps[i], os)
  {
    assert ps[..i + 1][..i] == ps[..i];
    hide AddedOne;
  }

  lemma {:induction false} AddedExtends(ps: seq<Entry<Value>>, i: nat, os: seq<Entry<Value>>)
    requires i <= |ps|
    ensures Added(ps[..i], os) <= Added(ps, os)
    decreases |ps| - i
  {
    if i == |ps| {
      assert ps[..i] == ps;
    } else {
      AddedStep(ps, i, os);
      AddedExtends(ps, i + 1, os);
    }
  }

  lemma PatchValueIsSmaller(members: seq<Entry<Value>>, key: Bytes)
    ensures Lookup(Canon(members), key).Some? ==> Lookup(Canon(members), key).value < Obj(members)
  {
    Present(Canon(members), key);
    if Lookup(Canon(members), key).Some? {
      MemberIsSmaller(Entry(key, Lookup(Canon(members), key).value), Obj(members));
    }
  }

  lemma AddedOneIs(p: Entry<Value>, os: seq<Entry<Value>>)
    ensures AddedOne(p, os) == if p.value.Null? || Lookup(os, p.key).Some? then []
            else [Entry(p.key, Merged(None, p.value))]
  {
  }

  lemma LoopEnds(es: seq<Entry<Value>>)
    ensures es[..|es|] == es && es[..0] == []
  {
  }

  lemma NothingKept(ps: seq<Entry<Value>>)
    ensures Kept([], ps) == []
  {
  }

  lemma NothingAdded(os: seq<Entry<Value>>)
    ensures Added([], os) == []
  {
  }

  // ---------------------------------------------------------------- what a merged object holds

  /**
   * A merged object has a member iff the patch gives it, merged with what the target has under its name, or the
   * target has it and the patch does not mention its name.
   */
  ghost predicate PatchSays(es: seq<Entry<Value>>, ps: seq<Entry<Value>>, e: Entry<Value>) {
    || (exists k :: 0 <= k < |ps| && ps[k].key == e.key && ps[k].value != Null
                    && e.value == Merged(Lookup(es, e.key), ps[k].value))
    || (e in es && forall k :: 0 <= k < |ps| ==> ps[k].key != e.key)
  }

  lemma SaysMore(es: seq<Entry<Value>>, ps: seq<Entry<Value>>, n: nat, e: Entry<Value>)
    requires 0 < n <= |ps| && Distinct(ps)
    ensures var p := ps[n - 1];
            PatchSays(es, ps[..n], e)
            <==> if p.key == e.key then p.value != Null && e.value == Merged(Lookup(es, e.key), p.value)
                 else PatchSays(es, ps[..n - 1], e)
  {
    hide Merged, Lookup;
    var p := ps[n - 1];
    assert ps[..n][n - 1] == p;
    assert forall k :: 0 <= k < n - 1 ==> ps[..n][k] == ps[..n - 1][k] == ps[k];
    if && p.key != e.key && PatchSays(es, ps[..n - 1], e)
       && !(e in es && forall k :: 0 <= k < n - 1 ==> ps[k].key != e.key)
    {
      var k :| 0 <= k < n - 1 && ps[..n - 1][k].key == e.key && ps[..n - 1][k].value != Null
               && e.value == Merged(Lookup(es, e.key), ps[..n - 1][k].value);
      assert ps[..n][k] == ps[..n - 1][k];
    }
  }

  lemma {:induction false} AppliedHolds(es: seq<Entry<Value>>, ps: seq<Entry<Value>>, n: nat, patch: Value,
                                        e: Entry<Value>)
    requires n <= |ps| && patch.Obj? && forall p :: p in ps ==> p in patch.members
    requires Distinct(es) && Distinct(ps)
    ensures e in ApplyPatch(es, ps, n, patch) <==> PatchSays(es, ps[..n], e)
    decreases n
  {
    if n == 0 {
      assert ps[..0] == [];
      hide Merged, Lookup, Distinct;
    } else {
      var before, p := ApplyPatch(es, ps, n - 1, patch), ps[n - 1];
      assert ApplyPatch(es, ps, n, patch)
          == if p.value.Null? then Remove(before, p.key)
             else Upsert(before, p.key, Merged(Lookup(before, p.key), p.value));
      SameName(es, ps, n, patch);
      hide Merged, Lookup, PatchSays, Upsert, Remove, ApplyPatch, Distinct;
      ApplyKeepsDistinct(es, ps, n - 1, patch);
      AppliedHolds(es, ps, n - 1, patch, e);
      SaysMore(es, ps, n, e);
      RemoveHolds(before, p.key, e);
      UpsertHolds(before, p.key, Merged(Lookup(before, p.key), p.value), e);
    }
  }

  /** Of a name that the patch has yet to mention, it says what was there. */
  lemma UntouchedName(es: seq<Entry<Value>>, ps: seq<Entry<Value>>, n: nat, v: Value)
    requires 0 < n <= |ps| && Distinct(ps)
    ensures PatchSays(es, ps[..n - 1], Entry(ps[n - 1].key, v)) <==> Entry(ps[n - 1].key, v) in es
  {
    hide Merged, Lookup;
  }

  lemma {:induction false} SameValue(es: seq<Entry<Value>>, ps: seq<Entry<Value>>, n: nat, patch: Value, v: Value)
    requires 0 < n <= |ps| && patch.Obj? && forall p :: p in ps ==> p in patch.members
    requires Distinct(es) && Distinct(ps)
    ensures var key := ps[n - 1].key;
            Lookup(ApplyPatch(es, ps, n - 1, patch), key) == Some(v) <==> Lookup(es, key) == Some(v)
    decreases n, 0
  {
    hide *;
    var key := ps[n - 1].key;
    ApplyKeepsDistinct(es, ps, n - 1, patch);
    LookupHolds(ApplyPatch(es, ps, n - 1, patch), key, v);
    LookupHolds(es, key, v);
    AppliedHolds(es, ps, n - 1, patch, Entry(key, v));
    UntouchedName(es, ps, n, v);
  }

  /** What comes before the n-th name leaves what is held under it alone. */
  lemma {:induction false} SameName(es: seq<Entry<Value>>, ps: seq<Entry<Value>>, n: nat, patch: Value)
    requires 0 < n <= |ps| && patch.Obj? && forall p :: p in ps ==> p in patch.members
    requires Distinct(es) && Distinct(ps)
    ensures Lookup(ApplyPatch(es, ps, n - 1, patch), ps[n - 1].key) == Lookup(es, ps[n - 1].key)
    decreases n, 1
  {
    hide *;
    var had := Lookup(es, ps[n - 1].key);
    var now := Lookup(ApplyPatch(es, ps, n - 1, patch), ps[n - 1].key);
    if had.Some? {
      SameValue(es, ps, n, patch, had.value);
    } else if now.Some? {
      SameValue(es, ps, n, patch, now.value);
    }
  }

  /**
   * Merging, by contents. A patch that is no object replaces the target; of one that is, null takes a name away,
   * any other value is merged with what the target had there, and names it does not mention stay.
   */
  lemma MergedHolds(target: Option<Value>, patch: Value, e: Entry<Value>)
    ensures !patch.Obj? ==> Merged(target, patch) == patch
    ensures patch.Obj? ==> Merged(target, patch).Obj?
    ensures patch.Obj? ==> (e in Merged(target, patch).members
                            <==> PatchSays(Base(target), Canon(patch.members), e))
  {
    if patch.Obj? {
      var ps := Canon(patch.members);
      hide Canon, PatchSays, Base, ApplyPatch;
      AppliedHolds(Base(target), ps, |ps|, patch, e);
      assert ps[..|ps|] == ps;
    }
  }

  // ---------------------------------------------------------------- merging again

  lemma {:induction false} ApplyKeepsDistinct(es: seq<Entry<Value>>, ps: seq<Entry<Value>>, n: nat, patch: Value)
    requires n <= |ps| && patch.Obj? && forall p :: p in ps ==> p in patch.members
    requires Distinct(es)
    ensures Distinct(ApplyPatch(es, ps, n, patch))
  {
    if n > 0 {
      ApplyKeepsDistinct(es, ps, n - 1, patch);
      var before, p := ApplyPatch(es, ps, n - 1, patch), ps[n - 1];
      RemoveKeys(before, p.key);
      UpsertKeys(before, p.key, Merged(Lookup(before, p.key), p.value));
      hide Merged, Lookup, HasKey, Distinct, Upsert, Remove;
    }
  }

  /** The patch leaves this member as it is. */
  predicate Settled(e: Entry<Value>, ps: seq<Entry<Value>>) {
    KeptOne(e, ps) == [e]
  }

  predicate AllSettled(es: seq<Entry<Value>>, ps: seq<Entry<Value>>) {
    forall k :: 0 <= k < |es| ==> Settled(es[k], ps)
  }

  lemma SettledConcat(a: seq<Entry<Value>>, b: seq<Entry<Value>>, ps: seq<Entry<Value>>)
    requires AllSettled(a, ps) && AllSettled(b, ps)
    ensures AllSettled(a + b, ps)
  {
    hide Settled;
  }

  lemma {:induction false} SettledAreKept(es: seq<Entry<Value>>, ps: seq<Entry<Value>>)
    requires AllSettled(es, ps)
    ensures Kept(es, ps) == es
  {
    hide KeptOne;
    if es != [] {
      SettledAreKept(es[..|es| - 1], ps);
      assert Settled(es[|es| - 1], ps);
    }
  }

  lemma {:induction false} NothingMissing(ps: seq<Entry<Value>>, es: seq<Entry<Value>>)
    requires forall k :: 0 <= k < |ps| && !ps[k].value.Null? ==> HasKey(es, ps[k].key)
    ensures Added(ps, es) == []
  {
    if ps != [] {
      NothingMissing(ps[..|ps| - 1], es);
      Present(es, ps[|ps| - 1].key);
      hide HasKey, Lookup, Merged;
    }
  }

  lemma {:induction false} KeptAreSettled(os: seq<Entry<Value>>, members: seq<Entry<Value>>)
    ensures AllSettled(Kept(os, Canon(members)), Canon(members))
    decreases Obj(members), 0, |os|
  {
    if os != [] {
      var o := os[|os| - 1];
      KeptAreSettled(os[..|os| - 1], members);
      PatchValueIsSmaller(members, o.key);
      if Lookup(Canon(members), o.key).Some? {
        MergeTwice(Some(o.value), Lookup(Canon(members), o.key).value);
      }
      hide Lookup, Merged, Canon;
    }
  }

  lemma {:induction false} AddedAreSettled(n: nat, members: seq<Entry<Value>>, os: seq<Entry<Value>>)
    requires n <= |Canon(members)|
    ensures AllSettled(Added(Canon(members)[..n], os), Canon(members))
    decreases Obj(members), 0, n
  {
    var ps := Canon(members);
    if n == 0 {
      NothingAdded(os);
      LoopEnds(ps);
    } else {
      AddedAreSettled(n - 1, members, os);
      AddedStep(ps, n - 1, os);
      MemberIsSmaller(ps[n - 1], Obj(members));
      MergeTwice(None, ps[n - 1].value);
      assert AllSettled(AddedOne(ps[n - 1], os), ps) by {
        assert Find(ps, ps[n - 1].key) == n - 1;
        hide Merged, Canon, Find;
      }
      hide *;
      SettledConcat(Added(ps[..n - 1], os), AddedOne(ps[n - 1], os), ps);
    }
  }

  lemma {:induction false} NonNullIsPresent(os: seq<Entry<Value>>, ps: seq<Entry<Value>>, k: nat)
    requires Distinct(ps) && k < |ps| && !ps[k].value.Null?
    ensures HasKey(Kept(os, ps) + Added(ps, os), ps[k].key)
  {
    var key := ps[k].key;
    ConcatHasKey(Kept(os, ps), Added(ps, os), key);
    Present(os, key);
    if HasKey(os, key) {
      KeptHas(os, ps, k);
    } else {
      AddedStep(ps, k, os);
      AddedExtends(ps, k + 1, os);
      hide Merged, Lookup;
      assert Added(ps[..k + 1], os)[|Added(ps[..k], os)|].key == key;
      assert Added(ps, os)[|Added(ps[..k], os)|].key == key;
    }
  }

  lemma {:induction false} KeptHas(os: seq<Entry<Value>>, ps: seq<Entry<Value>>, k: nat)
    requires Distinct(ps) && k < |ps| && !ps[k].value.Null? && HasKey(os, ps[k].key)
    ensures HasKey(Kept(os, ps), ps[k].key)
  {
    var front, last := os[..|os| - 1], os[|os| - 1];
    Split(os, ps[k].key);
    ConcatHasKey(Kept(front, ps), KeptOne(last, ps), ps[k].key);
    if HasKey(front, ps[k].key) {
      KeptHas(front, ps, k);
    } else {
      assert Find(ps, ps[k].key) == k;
      hide Merged;
      assert KeptOne(last, ps)[0].key == ps[k].key;
    }
  }

  /** Merging the same patch a second time changes nothing. */
  lemma {:induction false} MergeTwice(target: Option<Value>, patch: Value)
    ensures Merged(Some(Merged(target, patch)), patch) == Merged(target, patch)
    decreases patch, 1
  {
    if patch.Obj? {
      var os, ps := Base(target), Canon(patch.members);
      assert Obj(patch.members) == patch;
      KeptAreSettled(os, patch.members);
      AddedAreSettled(|ps|, patch.members, os);
      ApplyKeepsDistinct(os, ps, |ps|, patch);
      assert Merged(target, patch) == Obj(ApplyPatch(os, ps, |ps|, patch));
      hide *;
      LoopEnds(ps);
      MergedObject(target, patch.members);
      SettledConcat(Kept(os, ps), Added(ps, os), ps);
      MergeAgain(target, patch.members, Kept(os, ps) + Added(ps, os));
    }
  }

  lemma BaseOfDistinct(es: seq<Entry<Value>>)
    requires Distinct(es)
    ensures Base(Some(Obj(es))) == es
  {
    CanonFixes(es);
  }

  lemma MergeAgain(target: Option<Value>, members: seq<Entry<Value>>, all: seq<Entry<Value>>)
    requires all == Kept(Base(target), Canon(members)) + Added(Canon(members), Base(target))
    requires Distinct(all) && AllSettled(all, Canon(members))
    ensures Merged(Some(Obj(all)), Obj(members)) == Obj(all)
  {
    var ps := Canon(members);
    hide *;
    forall k | 0 <= k < |ps| && !ps[k].value.Null? ensures HasKey(all, ps[k].key) {
      NonNullIsPresent(Base(target), ps, k);
    }
    BaseOfDistinct(all);
    NothingMissing(ps, all);
    SettledAreKept(all, ps);
    MergedObject(Some(Obj(all)), members);
  }
}
