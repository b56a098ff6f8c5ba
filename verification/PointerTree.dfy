/** Resolving a pointer in a document, setting a value through it, and the laws that relate the two. */
module PointerTree {
  import opened ByteStrings
  import opened Utf8
  import opened Sanitizer
  import opened Json
  import opened PointerText
  import opened Wrappers

  // ---------------------------------------------------------------- resolving

  /** Whether a member's key is the one a segment names, after the sanitising that decode would do. */
  predicate KeyMatches(key: Bytes, seg: Bytes, flags: Utf8Flags) {
    if flags.Handles() && !WellFormed(key) then SanitizeFor(key, flags, ForDecode) == seg else key == seg
  }

  /** How many of the first `n` members have the key. */
  function MatchCount(members: seq<Entry<Value>>, seg: Bytes, flags: Utf8Flags, n: nat): (c: nat)
    requires n <= |members|
    ensures c <= n
  {
    if n == 0 then 0
    else MatchCount(members, seg, flags, n - 1) + if KeyMatches(members[n - 1].key, seg, flags) then 1 else 0
  }

  /** The last of the first `n` members that has the key. */
  function LastMatch(members: seq<Entry<Value>>, seg: Bytes, flags: Utf8Flags, n: nat): (k: nat)
    requires n <= |members| && MatchCount(members, seg, flags, n) > 0
    ensures k < n && KeyMatches(members[k].key, seg, flags)
  {
    if KeyMatches(members[n - 1].key, seg, flags) then n - 1 else LastMatch(members, seg, flags, n - 1)
  }

  datatype WalkResult = Target(v: Value) | NewMember | Refused(status: SpliceStatus)

  /** Follows `segs[i..]` down from `v`. A missing object member is a place for one when `allow` says so. */
  function Walk(v: Value, segs: seq<Bytes>, i: nat, flags: Utf8Flags, allow: bool, sizeMax: nat): WalkResult
    requires i <= |segs|
    decreases |segs| - i
  {
    if i == |segs| then Target(v)
    else match v
      case Obj(members) =>
        var count := MatchCount(members, segs[i], flags, |members|);
        if count > 1 then Refused(Ambiguous)
        else if count == 0 then (if allow then NewMember else Refused(SettableFail))
        else Walk(members[LastMatch(members, segs[i], flags, |members|)].value, segs, i + 1, flags, allow, sizeMax)
      case Arr(items) =>
        var index := IndexOf(segs[i], sizeMax);
        if index.None? || index.value >= |items| then Refused(SettableFail)
        else Walk(items[index.value], segs, i + 1, flags, allow, sizeMax)
      case _ => Refused(SettableFail)
  }

  /** One object on the way: counts the matching members, and gives up at the second. */
  method FindMember(members: seq<Entry<Value>>, seg: Bytes, flags: Utf8Flags) returns (matches: nat, child: Value)
    ensures matches <= 2
    ensures matches == 2 <==> MatchCount(members, seg, flags, |members|) > 1
    ensures matches < 2 ==> matches == MatchCount(members, seg, flags, |members|)
    ensures matches == 1 ==> child == members[LastMatch(members, seg, flags, |members|)].value
  {
    hide KeyMatches;
    matches, child := 0, Null;
    for k := 0 to |members|
      invariant matches == MatchCount(members, seg, flags, k) <= 1
      invariant matches == 1 ==> child == members[LastMatch(members, seg, flags, k)].value
    {
      var equal := KeyEquals(members[k].key, seg, flags);
      if equal {
        child := members[k].value;
        matches := matches + 1;
        if matches > 1 {
          MatchCountGrows(members, seg, flags, k + 1, |members|);
          return;
        }
      }
    }
  }

  lemma {:induction false} MatchCountGrows(members: seq<Entry<Value>>, seg: Bytes, flags: Utf8Flags, m: nat, n: nat)
    requires m <= n <= |members|
    ensures MatchCount(members, seg, flags, m) <= MatchCount(members, seg, flags, n)
    decreases n - m
  {
    hide KeyMatches;
    if m < n {
      MatchCountGrows(members, seg, flags, m, n - 1);
    }
  }

  /** The key comparison: keys the parser tagged as ill-formed are sanitised first. */
  method KeyEquals(key: Bytes, seg: Bytes, flags: Utf8Flags) returns (equal: bool)
    ensures equal == KeyMatches(key, seg, flags)
    ensures flags.Handles() ==> (equal <==> SanitizeFor(key, flags, ForDecode) == seg)
  {
    if flags.Handles() {
      KeyMatchesSanitized(key, seg, flags);
    }
    hide WellFormed, SanitizeFor;
    if flags.Handles() {
      var wellFormed := Utf8WellFormed(key);
      if !wellFormed {
        var sane, saneLen := SanitizeUtf8(key, flags, ForDecode);
        return sane[..saneLen] == seg;
      }
    }
    return key == seg;
  }

  /** The resolver's and the preflight's loop. */
  method PointerWalk(root: Value, segs: seq<Bytes>, flags: Utf8Flags, allow: bool, sizeMax: nat)
    returns (result: WalkResult)
    ensures result == Walk(root, segs, 0, flags, allow, sizeMax)
  {
    hide KeyMatches, MatchCount, IndexOf;
    var current := root;
    for i := 0 to |segs|
      invariant Walk(root, segs, 0, flags, allow, sizeMax) == Walk(current, segs, i, flags, allow, sizeMax)
    {
      var child: Value;
      if current.Obj? {
        var matches;
        matches, child := FindMember(current.members, segs[i], flags);
        if matches > 1 {
          return Refused(Ambiguous);
        }
        if matches == 0 {
          return if allow then NewMember else Refused(SettableFail);
        }
      } else if current.Arr? {
        var ok, index := SegIsIndex(segs[i], sizeMax);
        if !ok || index >= |current.items| {
          return Refused(SettableFail);
        }
        child := current.items[index];
      } else {
        return Refused(SettableFail);
      }
      if i + 1 < |segs| && !child.IsContainer() {
        return Refused(SettableFail);
      }
      current := child;
    }
    return Target(current);
  }

  /** What a lookup owes its caller. */
  ghost predicate Looked(root: Value, pointer: Bytes, depthLimit: nat, maxSegments: nat, flags: Utf8Flags, sizeMax: nat,
                         status: SpliceStatus, target: Option<Value>) {
    match Parse(pointer)
    case None => status == SettableFail && target == None
    case Some(segs) =>
      if pointer != [] && (|segs| > maxSegments || (depthLimit > 0 && |segs| >= depthLimit))
      then status == DepthFail && target == None
      else match Walk(root, segs, 0, flags, false, sizeMax)
        case Target(v) => status == Ok && target == Some(v)
        case Refused(why) => status == why && target == None
        case NewMember => false
  }

  /**
   * Looking a pointer up: malformed pointers and missing locations are "not settable", oversized ones a
   * depth failure, keys that occur twice ambiguous; anything else is the value walked to.
   */
  method ResolveLimited(root: Value, pointer: Bytes, depthLimit: nat, maxSegments: nat, flags: Utf8Flags, sizeMax: nat)
    returns (status: SpliceStatus, target: Option<Value>)
    ensures Looked(root, pointer, depthLimit, maxSegments, flags, sizeMax, status, target)
  {
    hide Parse;
    var ok, plan;
    ok, status, plan := PointerParse(pointer, depthLimit, maxSegments);
    if !ok {
      return status, None;
    }
    var walked := PointerWalk(root, plan, flags, false, sizeMax);
    NeverNew(root, plan, 0, flags, sizeMax);
    if walked.Refused? {
      return walked.status, None;
    }
    return Ok, Some(walked.v);
  }

  lemma {:induction false} NeverNew(v: Value, segs: seq<Bytes>, i: nat, flags: Utf8Flags, sizeMax: nat)
    requires i <= |segs|
    ensures !Walk(v, segs, i, flags, false, sizeMax).NewMember?
    decreases |segs| - i
  {
    hide KeyMatches, MatchCount, LastMatch, IndexOf;
    if i < |segs| {
      match v
      case Obj(members) =>
        if MatchCount(members, segs[i], flags, |members|) == 1 {
          NeverNew(members[LastMatch(members, segs[i], flags, |members|)].value, segs, i + 1, flags, sizeMax);
        }
      case Arr(items) =>
        var index := IndexOf(segs[i], sizeMax);
        if index.Some? && index.value < |items| {
          NeverNew(items[index.value], segs, i + 1, flags, sizeMax);
        }
      case _ =>
    }
  }

  // ---------------------------------------------------------------- what a pointer names

  /** Exactly the k-th member has the key. */
  ghost predicate Only(members: seq<Entry<Value>>, key: Bytes, k: int) {
    && 0 <= k < |members| && members[k].key == key
    && forall j :: 0 <= j < |members| && j != k ==> members[j].key != key
  }

  /** The segment is the numeral of `n`, and an array index can be that large. */
  ghost predicate Numbers(seg: Bytes, n: nat, sizeMax: nat) {
    seg == Decimal(n) && |seg| <= 19 && n <= sizeMax
  }

  /** `segs[i..]` leads from `v` to `t`: through the only member so named, or the element so numbered. */
  ghost predicate Names(v: Value, segs: seq<Bytes>, i: nat, t: Value, sizeMax: nat)
    requires i <= |segs|
    decreases |segs| - i
  {
    if i == |segs| then v == t
    else match v
      case Obj(members) => exists k :: Only(members, segs[i], k) && Names(members[k].value, segs, i + 1, t, sizeMax)
      case Arr(items) =>
        exists n: nat :: n < |items| && Numbers(segs[i], n, sizeMax) && Names(items[n], segs, i + 1, t, sizeMax)
      case _ => false
  }

  /** On the way along `segs[i..]`, two members have the name that is looked for. */
  ghost predicate TwoNamed(v: Value, segs: seq<Bytes>, i: nat, sizeMax: nat)
    requires i <= |segs|
    decreases |segs| - i
  {
    i < |segs| && match v
      case Obj(members) =>
        || (exists j, k :: 0 <= j < k < |members| && members[j].key == segs[i] && members[k].key == segs[i])
        || exists k :: Only(members, segs[i], k) && TwoNamed(members[k].value, segs, i + 1, sizeMax)
      case Arr(items) =>
        exists n: nat :: n < |items| && Numbers(segs[i], n, sizeMax) && TwoNamed(items[n], segs, i + 1, sizeMax)
      case _ => false
  }

  lemma {:induction false} CountNames(members: seq<Entry<Value>>, seg: Bytes, n: nat)
    requires n <= |members|
    ensures MatchCount(members, seg, NO_FLAGS, n) == 0 <==> forall k :: 0 <= k < n ==> members[k].key != seg
    ensures MatchCount(members, seg, NO_FLAGS, n) > 1
       <==> exists j, k :: 0 <= j < k < n && members[j].key == seg && members[k].key == seg
    ensures MatchCount(members, seg, NO_FLAGS, n) == 1 ==>
      forall k :: 0 <= k < n && members[k].key == seg ==> k == LastMatch(members, seg, NO_FLAGS, n)
  {
    if n > 0 {
      CountNames(members, seg, n - 1);
    }
  }

  lemma OnlyIsPlace(members: seq<Entry<Value>>, seg: Bytes, k: int)
    ensures Only(members, seg, k) <==> Has(members, seg) && k == Place(members, seg)
  {
    CountNames(members, seg, |members|);
    if Only(members, seg, k) {
      assert MatchCount(members, seg, NO_FLAGS, |members|) != 0;
    }
    hide MatchCount, KeyMatches;
  }

  /** The walk reaches exactly what the segments name, and finds it ambiguous exactly when two members are so named. */
  lemma {:induction false} TargetIffNamed(v: Value, segs: seq<Bytes>, i: nat, t: Value, allow: bool, sizeMax: nat)
    requires i <= |segs|
    ensures Walk(v, segs, i, NO_FLAGS, allow, sizeMax) == Target(t) <==> Names(v, segs, i, t, sizeMax)
    ensures Walk(v, segs, i, NO_FLAGS, allow, sizeMax) == Refused(Ambiguous) <==> TwoNamed(v, segs, i, sizeMax)
    decreases |segs| - i
  {
    hide KeyMatches, MatchCount, LastMatch, IndexOf, Decimal;
    if i < |segs| {
      match v
      case Obj(members) =>
        CountNames(members, segs[i], |members|);
        if Has(members, segs[i]) {
          var k := Place(members, segs[i]);
          OnlyIsPlace(members, segs[i], k);
          TargetIffNamed(members[k].value, segs, i + 1, t, allow, sizeMax);
          forall j: int | Only(members, segs[i], j) ensures j == k {
            OnlyIsPlace(members, segs[i], j);
          }
        } else {
          forall j: int ensures !Only(members, segs[i], j) {
            OnlyIsPlace(members, segs[i], j);
          }
        }
      case Arr(items) =>
        forall n: nat ensures IndexOf(segs[i], sizeMax) == Some(n) <==> Numbers(segs[i], n, sizeMax) {
          IndexIffDecimal(segs[i], n, sizeMax);
        }
        hide Numbers;
        var index := IndexOf(segs[i], sizeMax);
        if index.Some? && index.value < |items| {
          TargetIffNamed(items[index.value], segs, i + 1, t, allow, sizeMax);
        }
      case _ =>
    }
  }

  /** `/…~1…` and `/…~0…` reach the members whose names have the slash and the tilde. */
  lemma EscapedNamesReached(members: seq<Entry<Value>>, k: nat, a: Bytes, b: Bytes, c: Byte, depthLimit: nat,
                            maxSegments: nat, sizeMax: nat, status: SpliceStatus, target: Option<Value>)
    requires PlainText(a) && PlainText(b) && (c == 0x2F || c == 0x7E) && Only(members, a + [c] + b, k)
    requires maxSegments >= 1 && (depthLimit == 0 || depthLimit > 1)
    requires Looked(Obj(members), [0x2F] + a + [0x7E, if c == 0x2F then 0x31 else 0x30] + b, depthLimit, maxSegments,
                    NO_FLAGS, sizeMax, status, target)
    ensures status == Ok && target == Some(members[k].value)
  {
    EscapesDecoded(a, b);
    var segs := [a + [c] + b];
    assert Only(members, segs[0], k);
    assert Names(members[k].value, segs, 1, members[k].value, sizeMax);
    hide Only, Parse, Walk;
    assert Names(Obj(members), segs, 0, members[k].value, sizeMax);
    TargetIffNamed(Obj(members), segs, 0, members[k].value, false, sizeMax);
  }

  // ---------------------------------------------------------------- setting

  datatype SetResult = Done(v: Value) | NotSettable | AmbiguousKey

  /** The value inside one new object for each of `segs[i..]`. */
  function Nest(segs: seq<Bytes>, i: nat, nv: Value): Value
    requires i <= |segs|
    decreases |segs| - i
  {
    if i == |segs| then nv else Obj([Entry(segs[i], Nest(segs, i + 1, nv))])
  }

  /** Replaces what `segs[i..]` names in `v`, or adds it where an object lacks it. */
  function SetAt(v: Value, segs: seq<Bytes>, i: nat, nv: Value, sizeMax: nat): SetResult
    requires i <= |segs|
    decreases |segs| - i
  {
    if i == |segs| then Done(nv)
    else match v
      case Obj(members) =>
        var count := MatchCount(members, segs[i], NO_FLAGS, |members|);
        if count == 0 then Done(Obj(members + [Entry(segs[i], Nest(segs, i + 1, nv))]))
        else if count > 1 then AmbiguousKey
        else
          var k := LastMatch(members, segs[i], NO_FLAGS, |members|);
          var child := SetAt(members[k].value, segs, i + 1, nv, sizeMax);
          if child.Done? then Done(Obj(members[k := Entry(segs[i], child.v)])) else child
      case Arr(items) =>
        var index := IndexOf(segs[i], sizeMax);
        if index.None? || index.value >= |items| then NotSettable
        else
          var child := SetAt(items[index.value], segs, i + 1, nv, sizeMax);
          if child.Done? then Done(Arr(items[index.value := child.v])) else child
      case _ => NotSettable
  }

  /** One new object inside the other for each of `segs[i..]`, and the value in the innermost. */
  ghost predicate IsNested(segs: seq<Bytes>, i: nat, nv: Value, w: Value)
    requires i <= |segs|
    decreases |segs| - i
  {
    if i == |segs| then w == nv
    else w.Obj? && |w.members| == 1 && w.members[0].key == segs[i] && IsNested(segs, i + 1, nv, w.members[0].value)
  }

  /**
   * `w` is `v` with what `segs[i..]` names replaced by `nv`, everything else as and where it was; or, where an
   * object lacks a name, with the missing objects added after its other members.
   */
  ghost predicate IsEdit(v: Value, segs: seq<Bytes>, i: nat, nv: Value, w: Value, sizeMax: nat)
    requires i <= |segs|
    decreases |segs| - i
  {
    if i == |segs| then w == nv
    else match v
      case Obj(ms) =>
        && w.Obj? && |ms| <= |w.members|
        && if forall j :: 0 <= j < |ms| ==> ms[j].key != segs[i] then
             && |w.members| == |ms| + 1 && w.members[..|ms|] == ms && w.members[|ms|].key == segs[i]
             && IsNested(segs, i + 1, nv, w.members[|ms|].value)
           else
             && |w.members| == |ms|
             && exists k :: Only(ms, segs[i], k)
                  && (forall j :: 0 <= j < |ms| && j != k ==> w.members[j] == ms[j])
                  && w.members[k].key == segs[i] && IsEdit(ms[k].value, segs, i + 1, nv, w.members[k].value, sizeMax)
      case Arr(items) =>
        && w.Arr? && |w.items| == |items|
        && exists n: nat :: n < |items| && Numbers(segs[i], n, sizeMax)
             && (forall j :: 0 <= j < |items| && j != n ==> w.items[j] == items[j])
             && IsEdit(items[n], segs, i + 1, nv, w.items[n], sizeMax)
      case _ => false
  }

  lemma {:induction false} NestIsNested(segs: seq<Bytes>, i: nat, nv: Value)
    requires i <= |segs|
    ensures IsNested(segs, i, nv, Nest(segs, i, nv))
    decreases |segs| - i
  {
    if i < |segs| {
      NestIsNested(segs, i + 1, nv);
    }
  }

  /** The preflight accepts a location exactly when a value can be set there, whatever the value. */
  lemma {:induction false} PreflightIsExact(v: Value, segs: seq<Bytes>, i: nat, nv: Value, sizeMax: nat)
    requires i <= |segs|
    ensures SetAt(v, segs, i, nv, sizeMax).Done? <==> !Walk(v, segs, i, NO_FLAGS, true, sizeMax).Refused?
    ensures SetAt(v, segs, i, nv, sizeMax).NotSettable?
       <==> Walk(v, segs, i, NO_FLAGS, true, sizeMax) == Refused(SettableFail)
    ensures SetAt(v, segs, i, nv, sizeMax).AmbiguousKey?
       <==> Walk(v, segs, i, NO_FLAGS, true, sizeMax) == Refused(Ambiguous)
    decreases |segs| - i
  {
    hide KeyMatches, MatchCount, IndexOf;
    if i < |segs| {
      match v
      case Obj(members) =>
        if MatchCount(members, segs[i], NO_FLAGS, |members|) == 1 {
          PreflightIsExact(members[LastMatch(members, segs[i], NO_FLAGS, |members|)].value, segs, i + 1, nv, sizeMax);
        }
      case Arr(items) =>
        var index := IndexOf(segs[i], sizeMax);
        if index.Some? && index.value < |items| {
          PreflightIsExact(items[index.value], segs, i + 1, nv, sizeMax);
        }
      case _ =>
    }
  }

  // ---------------------------------------------------------------- the laws of setting and resolving

  predicate Has(members: seq<Entry<Value>>, seg: Bytes) {
    MatchCount(members, seg, NO_FLAGS, |members|) == 1
  }

  function Place(members: seq<Entry<Value>>, seg: Bytes): (k: nat)
    requires Has(members, seg)
    ensures k < |members| && members[k].key == seg
  {
    LastMatch(members, seg, NO_FLAGS, |members|)
  }

  lemma {:induction false} CountSame(a: seq<Entry<Value>>, b: seq<Entry<Value>>, seg: Bytes, n: nat)
    requires n <= |a| && n <= |b| && forall k :: 0 <= k < n ==> a[k].key == b[k].key
    ensures MatchCount(a, seg, NO_FLAGS, n) == MatchCount(b, seg, NO_FLAGS, n)
    ensures MatchCount(a, seg, NO_FLAGS, n) > 0 ==> LastMatch(a, seg, NO_FLAGS, n) == LastMatch(b, seg, NO_FLAGS, n)
  {
    if n > 0 {
      CountSame(a, b, seg, n - 1);
    }
  }

  /** Rewriting a member's value moves no member. */
  lemma UpdateKeepsPlaces(members: seq<Entry<Value>>, k: nat, v: Value, seg: Bytes)
    requires k < |members|
    ensures var updated := members[k := Entry(members[k].key, v)];
      MatchCount(updated, seg, NO_FLAGS, |members|) == MatchCount(members, seg, NO_FLAGS, |members|)
      && (Has(members, seg) ==> Place(updated, seg) == Place(members, seg))
  {
    CountSame(members, members[k := Entry(members[k].key, v)], seg, |members|);
  }

  /** A member added last is found there, and no other member moves. */
  lemma AppendKeepsPlaces(members: seq<Entry<Value>>, e: Entry<Value>, seg: Bytes)
    ensures var longer := members + [e];
      MatchCount(longer, seg, NO_FLAGS, |longer|)
        == MatchCount(members, seg, NO_FLAGS, |members|) + (if e.key == seg then 1 else 0)
      && (e.key != seg && Has(members, seg) ==> Place(longer, seg) == Place(members, seg))
      && (e.key == seg && Has(longer, seg) ==> Place(longer, seg) == |members|)
  {
    CountSame(members, members + [e], seg, |members|);
  }

  function Resolve(v: Value, segs: seq<Bytes>, i: nat, sizeMax: nat): WalkResult
    requires i <= |segs|
  {
    Walk(v, segs, i, NO_FLAGS, false, sizeMax)
  }

  lemma {:induction false} NestHolds(segs: seq<Bytes>, i: nat, x: Value, y: Value, sizeMax: nat)
    requires i <= |segs|
    ensures Resolve(Nest(segs, i, x), segs, i, sizeMax) == Target(x)
    ensures SetAt(Nest(segs, i, x), segs, i, y, sizeMax) == Done(Nest(segs, i, y))
    decreases |segs| - i
  {
    hide IndexOf;
    if i < |segs| {
      NestHolds(segs, i + 1, x, y, sizeMax);
      var members := [Entry(segs[i], Nest(segs, i + 1, x))];
      AppendKeepsPlaces([], members[0], segs[i]);
      assert [] + members == members;
      hide KeyMatches, MatchCount, LastMatch;
      assert members[0 := Entry(segs[i], Nest(segs, i + 1, y))] == [Entry(segs[i], Nest(segs, i + 1, y))];
    }
  }

  /** Setting is that edit and nothing more. */
  lemma {:induction false} SetIsEdit(v: Value, segs: seq<Bytes>, i: nat, nv: Value, sizeMax: nat)
    requires i <= |segs| && SetAt(v, segs, i, nv, sizeMax).Done?
    ensures IsEdit(v, segs, i, nv, SetAt(v, segs, i, nv, sizeMax).v, sizeMax)
    decreases |segs| - i
  {
    hide KeyMatches, MatchCount, LastMatch, IndexOf, Decimal;
    if i < |segs| {
      match v
      case Obj(members) =>
        CountNames(members, segs[i], |members|);
        if Has(members, segs[i]) {
          var k := Place(members, segs[i]);
          OnlyIsPlace(members, segs[i], k);
          SetIsEdit(members[k].value, segs, i + 1, nv, sizeMax);
        } else {
          NestIsNested(segs, i + 1, nv);
          assert (members + [Entry(segs[i], Nest(segs, i + 1, nv))])[..|members|] == members;
        }
      case Arr(items) =>
        var n := IndexOf(segs[i], sizeMax).value;
        IndexIffDecimal(segs[i], n, sizeMax);
        assert Numbers(segs[i], n, sizeMax);
        SetIsEdit(items[n], segs, i + 1, nv, sizeMax);
    }
  }

  /** What has been set is what its segments then name. */
  lemma {:induction false} SetThenResolve(v: Value, segs: seq<Bytes>, i: nat, x: Value, sizeMax: nat)
    requires i <= |segs| && SetAt(v, segs, i, x, sizeMax).Done?
    ensures Resolve(SetAt(v, segs, i, x, sizeMax).v, segs, i, sizeMax) == Target(x)
    decreases |segs| - i
  {
    hide KeyMatches, MatchCount, LastMatch, IndexOf;
    if i < |segs| {
      match v
      case Obj(members) =>
        if Has(members, segs[i]) {
          var k := Place(members, segs[i]);
          SetThenResolve(members[k].value, segs, i + 1, x, sizeMax);
          UpdateKeepsPlaces(members, k, SetAt(members[k].value, segs, i + 1, x, sizeMax).v, segs[i]);
        } else {
          NestHolds(segs, i + 1, x, x, sizeMax);
          AppendKeepsPlaces(members, Entry(segs[i], Nest(segs, i + 1, x)), segs[i]);
        }
      case Arr(items) =>
        SetThenResolve(items[IndexOf(segs[i], sizeMax).value], segs, i + 1, x, sizeMax);
    }
  }

  /** Of two values set one after the other, only the second matters. */
  lemma {:induction false} SetTwice(v: Value, segs: seq<Bytes>, i: nat, x: Value, y: Value, sizeMax: nat)
    requires i <= |segs| && SetAt(v, segs, i, x, sizeMax).Done?
    ensures SetAt(SetAt(v, segs, i, x, sizeMax).v, segs, i, y, sizeMax) == SetAt(v, segs, i, y, sizeMax)
    decreases |segs| - i
  {
    hide KeyMatches, MatchCount, LastMatch, IndexOf;
    if i < |segs| {
      match v
      case Obj(members) =>
        if Has(members, segs[i]) {
          var k := Place(members, segs[i]);
          var child := SetAt(members[k].value, segs, i + 1, x, sizeMax).v;
          SetTwice(members[k].value, segs, i + 1, x, y, sizeMax);
          UpdateKeepsPlaces(members, k, child, segs[i]);
          var z := SetAt(members[k].value, segs, i + 1, y, sizeMax);
          if z.Done? {
            UpdatedTwice(members, k, Entry(segs[i], child), Entry(segs[i], z.v));
          }
        } else {
          var e := Entry(segs[i], Nest(segs, i + 1, x));
          NestHolds(segs, i + 1, x, y, sizeMax);
          AppendKeepsPlaces(members, e, segs[i]);
          AppendedUpdated(members, e, Entry(segs[i], Nest(segs, i + 1, y)));
        }
      case Arr(items) =>
        var n := IndexOf(segs[i], sizeMax).value;
        SetTwice(items[n], segs, i + 1, x, y, sizeMax);
        var child, z := SetAt(items[n], segs, i + 1, x, sizeMax).v, SetAt(items[n], segs, i + 1, y, sizeMax);
        if z.Done? {
          UpdatedTwice(items, n, child, z.v);
        }
    }
  }

  lemma UpdatedTwice<T>(s: seq<T>, k: nat, a: T, b: T)
    requires k < |s|
    ensures s[k := a][k := b] == s[k := b]
  {
  }

  lemma AppendedUpdated<T>(s: seq<T>, a: T, b: T)
    ensures (s + [a])[|s| := b] == s + [b]
  {
  }

  /** Setting what is already there changes nothing. */
  lemma {:induction false} SetSame(v: Value, segs: seq<Bytes>, i: nat, x: Value, sizeMax: nat)
    requires i <= |segs| && Resolve(v, segs, i, sizeMax) == Target(x)
    ensures SetAt(v, segs, i, x, sizeMax) == Done(v)
    decreases |segs| - i
  {
    hide KeyMatches, MatchCount, LastMatch, IndexOf;
    if i < |segs| {
      match v
      case Obj(members) =>
        var k := Place(members, segs[i]);
        SetSame(members[k].value, segs, i + 1, x, sizeMax);
        assert members[k := Entry(segs[i], members[k].value)] == members;
      case Arr(items) =>
        var n := IndexOf(segs[i], sizeMax).value;
        SetSame(items[n], segs, i + 1, x, sizeMax);
        assert items[n := items[n]] == items;
    }
  }

  /** Nothing else is found under a freshly built suffix. */
  lemma {:induction false} NestMisses(p: seq<Bytes>, q: seq<Bytes>, i: nat, j: nat, x: Value, sizeMax: nat)
    requires i <= j < |p| && j < |q| && p[j] != q[j] && forall k :: i <= k < j ==> p[k] == q[k]
    ensures Resolve(Nest(p, i, x), q, i, sizeMax) == Refused(SettableFail)
    decreases j - i
  {
    hide IndexOf;
    AppendKeepsPlaces([], Entry(p[i], Nest(p, i + 1, x)), q[i]);
    assert [] + [Entry(p[i], Nest(p, i + 1, x))] == [Entry(p[i], Nest(p, i + 1, x))];
    if i < j {
      NestMisses(p, q, i + 1, j, x, sizeMax);
    }
  }

  lemma IndicesDiffer(a: Bytes, b: Bytes, sizeMax: nat)
    requires a != b && IndexOf(a, sizeMax).Some? && IndexOf(b, sizeMax).Some?
    ensures IndexOf(a, sizeMax).value != IndexOf(b, sizeMax).value
  {
    hide IndexOf;
    IndexIffDecimal(a, IndexOf(a, sizeMax).value, sizeMax);
    IndexIffDecimal(b, IndexOf(b, sizeMax).value, sizeMax);
  }

  /**
   * Setting through `p` does not disturb a pointer `q` that parts from it at segment `j`: it resolves with
   * the same status and to the same value as before.
   */
  lemma {:induction false} SetElsewhere(v: Value, p: seq<Bytes>, q: seq<Bytes>, i: nat, j: nat, x: Value, sizeMax: nat)
    requires i <= j < |p| && j < |q| && p[j] != q[j] && forall k :: i <= k < j ==> p[k] == q[k]
    requires SetAt(v, p, i, x, sizeMax).Done?
    ensures Resolve(SetAt(v, p, i, x, sizeMax).v, q, i, sizeMax) == Resolve(v, q, i, sizeMax)
    decreases j - i
  {
    hide KeyMatches, MatchCount, LastMatch, IndexOf;
    match v
    case Obj(members) =>
      if Has(members, p[i]) {
        var k := Place(members, p[i]);
        var child := SetAt(members[k].value, p, i + 1, x, sizeMax).v;
        UpdateKeepsPlaces(members, k, child, q[i]);
        if i < j {
          SetElsewhere(members[k].value, p, q, i + 1, j, x, sizeMax);
        }
      } else {
        var e := Entry(p[i], Nest(p, i + 1, x));
        AppendKeepsPlaces(members, e, q[i]);
        if i < j {
          NestMisses(p, q, i + 1, j, x, sizeMax);
        }
      }
    case Arr(items) =>
      var n := IndexOf(p[i], sizeMax).value;
      if i < j {
        SetElsewhere(items[n], p, q, i + 1, j, x, sizeMax);
      } else if IndexOf(q[i], sizeMax).Some? {
        IndicesDiffer(p[i], q[i], sizeMax);
      }
  }

  lemma {:induction false} PartingPoint(p: seq<Bytes>, q: seq<Bytes>) returns (j: nat)
    requires !(p <= q) && !(q <= p)
    ensures j < |p| && j < |q| && p[j] != q[j] && forall k :: 0 <= k < j ==> p[k] == q[k]
  {
    if p[0] != q[0] {
      j := 0;
    } else {
      j := PartingPoint(p[1..], q[1..]);
      j := j + 1;
    }
  }

  /** Any pointer of which the edited one is no prefix, and which is no prefix of it, resolves as before. */
  lemma UnrelatedPointersResolveAlike(v: Value, p: seq<Bytes>, q: seq<Bytes>, x: Value, sizeMax: nat)
    requires !(p <= q) && !(q <= p) && SetAt(v, p, 0, x, sizeMax).Done?
    ensures Resolve(SetAt(v, p, 0, x, sizeMax).v, q, 0, sizeMax) == Resolve(v, q, 0, sizeMax)
  {
    var j := PartingPoint(p, q);
    SetElsewhere(v, p, q, 0, j, x, sizeMax);
  }

  // ---------------------------------------------------------------- resolving with UTF-8 flags

  /** The document with every object key sanitised, as decoding would show it. */
  function SanitizeKeys(v: Value, flags: Utf8Flags): Value
    decreases v, 0
  {
    match v
    case Arr(items) => Arr(SanitizeItems(items, |items|, flags))
    case Obj(members) => Obj(SanitizeMembers(members, |members|, flags))
    case _ => v
  }

  function SanitizeItems(items: seq<Value>, n: nat, flags: Utf8Flags): (r: seq<Value>)
    requires n <= |items|
    ensures |r| == n
    ensures forall k :: 0 <= k < n ==> r[k] == SanitizeKeys(items[k], flags)
    decreases items, n
  {
    if n == 0 then [] else SanitizeItems(items, n - 1, flags) + [SanitizeKeys(items[n - 1], flags)]
  }

  function SanitizeMembers(members: seq<Entry<Value>>, n: nat, flags: Utf8Flags): (r: seq<Entry<Value>>)
    requires n <= |members|
    ensures |r| == n
    ensures forall k :: 0 <= k < n ==>
      r[k] == Entry(SanitizeFor(members[k].key, flags, ForDecode), SanitizeKeys(members[k].value, flags))
    decreases members, n
  {
    if n == 0 then []
    else SanitizeMembers(members, n - 1, flags)
         + [Entry(SanitizeFor(members[n - 1].key, flags, ForDecode), SanitizeKeys(members[n - 1].value, flags))]
  }

  /** Sanitising only the tagged keys loses nothing: the others sanitise to themselves. */
  lemma KeyMatchesSanitized(key: Bytes, seg: Bytes, flags: Utf8Flags)
    requires flags.Handles()
    ensures KeyMatches(key, seg, flags) <==> SanitizeFor(key, flags, ForDecode) == seg
  {
    hide WellFormed, Sanitize;
    SanitizeFixesExactlyTheIllFormed(key, Substitutes(flags, ForDecode), false);
  }

  lemma {:induction false} SanitizedCounts(a: seq<Entry<Value>>, b: seq<Entry<Value>>, seg: Bytes, flags: Utf8Flags,
                                           n: nat)
    requires flags.Handles() && n <= |a| && n <= |b|
    requires forall k :: 0 <= k < n ==> b[k].key == SanitizeFor(a[k].key, flags, ForDecode)
    ensures MatchCount(a, seg, flags, n) == MatchCount(b, seg, NO_FLAGS, n)
    ensures MatchCount(a, seg, flags, n) > 0 ==> LastMatch(a, seg, flags, n) == LastMatch(b, seg, NO_FLAGS, n)
  {
    hide SanitizeFor;
    if n > 0 {
      SanitizedCounts(a, b, seg, flags, n - 1);
      KeyMatchesSanitized(a[n - 1].key, seg, flags);
    }
  }

  /**
   * Resolving under a UTF-8 flag is resolving without flags in the document whose keys were sanitised
   * first, including the ambiguity that arises when distinct raw keys become equal.
   */
  lemma {:induction false} ResolveWithFlags(v: Value, segs: seq<Bytes>, i: nat, flags: Utf8Flags, sizeMax: nat)
    requires i <= |segs| && flags.Handles()
    ensures Resolve(SanitizeKeys(v, flags), segs, i, sizeMax)
         == match Walk(v, segs, i, flags, false, sizeMax)
            case Target(t) => Target(SanitizeKeys(t, flags))
            case other => other
    decreases |segs| - i
  {
    hide KeyMatches, IndexOf, SanitizeFor, MatchCount, LastMatch, SanitizeItems, SanitizeMembers;
    if i < |segs| {
      match v
      case Obj(members) =>
        SanitizedCounts(members, SanitizeMembers(members, |members|, flags), segs[i], flags, |members|);
        if MatchCount(members, segs[i], flags, |members|) == 1 {
          ResolveWithFlags(members[LastMatch(members, segs[i], flags, |members|)].value, segs, i + 1, flags, sizeMax);
        }
      case Arr(items) =>
        var index := IndexOf(segs[i], sizeMax);
        if index.Some? && index.value < |items| {
          ResolveWithFlags(items[index.value], segs, i + 1, flags, sizeMax);
        }
      case _ =>
    }
  }
}
