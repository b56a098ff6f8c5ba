/**
 * What encoding a PHP value says, without a traversal: the document that stands for it, when there is one, and that an
 * encoding succeeds exactly then.
 */
module EncodeMeaning {
  import opened ByteStrings
  import opened EncodeVisible
  import opened Encoding
  import opened Json
  import opened PhpHeap
  import opened Sanitizer
  import opened Utf8
  import opened Wrappers
  import DepthProbe
  import Encoder
  import PointerText
  import Reading
  import StringWriter

  // ---------------------------------------------------------------- what stands for a value

  /** What is encoded in the place of `v`: jsonSerialize() results are followed, and following them may never end. */
  function Stand(heap: Heap, v: Data, seen: set<nat>): Option<Data>
    decreases Free(heap, seen)
  {
    if v.Object? && KindOf(heap, v.id).Serializable? && KindOf(heap, v.id).result != v then
      if v.id in seen then None
      else
        assert v.id in Free(heap, seen) && v.id !in Free(heap, seen + {v.id});
        Stand(heap, KindOf(heap, v.id).result, seen + {v.id})
    else Some(v)
  }

  /** The properties an object shows. */
  function Fields(heap: Heap, id: nat): seq<Elem> {
    match Props(heap, id)
    case None => []
    case Some(props) => VisibleProps(props, |props|)
  }

  /** `t` is the string `text`: as it is if well-formed, sanitised if not and a flag allows it. */
  predicate SaysText(text: Bytes, o: Options, t: Bytes) {
    if WellFormed(text) then t == text
    else (o.utf8.ignore || o.utf8.substitute) && t == SanitizeFor(text, o.utf8, ForEncode)
  }

  predicate SaysKey(key: Key, o: Options, t: Bytes) {
    match key
    case Index(i) => t == IntText(i)
    case Name(name) => SaysText(name, o, t)
  }

  predicate SaysString(text: Bytes, numeric: Option<Bytes>, o: Options, t: Value) {
    if o.numericCheck && numeric.Some? then t == Num(numeric.value, true) else t.Str? && SaysText(text, o, t.s)
  }

  /** `t` is the document that encoding `v` stands for. */
  predicate Unfolds(s: Scene, v: Data, t: Value)
    decreases t, 1
  {
    Stand(s.heap, v, {}).Some? && UnfoldsTo(s, Stand(s.heap, v, {}).value, t)
  }

  /**
   * Scalars one by one. An array whose keys are 0, 1, 2 and so on is a list unless objects are forced, any other one
   * an object, of all its elements in order. A backed enum is its value; any other object is an object of the
   * properties it shows, in order.
   */
  predicate UnfoldsTo(s: Scene, v: Data, t: Value)
    decreases t, 0
  {
    match v
    case Nil => t == Null
    case Truth(b) => t == Bool(b)
    case Long(n) => t == Num(IntText(n), true)
    case Double(lexeme, finite) => finite && t == Num(lexeme, true)
    case Text(text, numeric) => SaysString(text, numeric, s.o, t)
    case Resource => false
    case Array(id) =>
      var elems := Elems(s.heap, id);
      if !s.o.forceObject && forall k :: 0 <= k < |elems| ==> elems[k].key == Index(k) then
        t.Arr? && |t.items| == |elems| && forall k :: 0 <= k < |elems| ==> Unfolds(s, elems[k].value, t.items[k])
      else
        && t.Obj? && |t.members| == |elems|
        && forall k :: 0 <= k < |elems| ==>
             SaysKey(elems[k].key, s.o, t.members[k].key) && Unfolds(s, elems[k].value, t.members[k].value)
    case Object(id) =>
      match KindOf(s.heap, id)
      case Enum(Unbacked) => false
      case Enum(BackedByInt(n)) => t == Num(IntText(n), true)
      case Enum(BackedByString(text, numeric)) => SaysString(text, numeric, s.o, t)
      case _ =>
        var fields := Fields(s.heap, id);
        && t.Obj? && |t.members| == |fields|
        && forall k :: 0 <= k < |fields| ==>
             SaysKey(fields[k].key, s.o, t.members[k].key) && Unfolds(s, fields[k].value, t.members[k].value)
  }

  lemma {:induction false} StandFewer(heap: Heap, v: Data, seen: set<nat>, more: set<nat>)
    requires seen <= more && Stand(heap, v, more).Some?
    ensures Stand(heap, v, seen) == Stand(heap, v, more)
    decreases Free(heap, more)
  {
    if v.Object? && KindOf(heap, v.id).Serializable? && KindOf(heap, v.id).result != v {
      assert v.id in Free(heap, more) && v.id !in Free(heap, more + {v.id});
      StandFewer(heap, KindOf(heap, v.id).result, seen + {v.id}, more + {v.id});
    }
  }

  // ---------------------------------------------------------------- a traversal without errors prints it

  predicate ItemsMatch(s: Scene, elems: seq<Elem>, ts: seq<Value>, budget: nat)
    requires |ts| <= |elems|
  {
    forall k :: 0 <= k < |ts| ==> Unfolds(s, elems[k].value, ts[k]) && Depth(ts[k]) <= budget
  }

  predicate MembersMatch(s: Scene, elems: seq<Elem>, ts: seq<Entry<Value>>, budget: nat)
    requires |ts| <= |elems|
  {
    forall k :: 0 <= k < |ts| ==> MemberMatches(s, elems[k], ts[k], budget)
  }

  predicate MemberMatches(s: Scene, elem: Elem, t: Entry<Value>, budget: nat) {
    SaysKey(elem.key, s.o, t.key) && Unfolds(s, elem.value, t.value) && Depth(t.value) <= budget
  }

  lemma KeySays(key: Key, o: Options)
    ensures WalkKey(key, o).errors == [] <==> exists t :: SaysKey(key, o, t)
    ensures forall t :: SaysKey(key, o, t) ==> WalkKey(key, o) == Walked([], t)
    ensures WalkKey(key, o).errors == [] ==> SaysKey(key, o, WalkKey(key, o).tree)
  {
    hide WellFormed, IntText, Sanitize;
    if WalkKey(key, o).errors == [] {
      assert SaysKey(key, o, WalkKey(key, o).tree);
    }
  }

  lemma ScalarSays(v: Data, s: Scene)
    requires !v.Array? && !v.Object?
    ensures WalkScalar(v, s.o).errors == [] ==> UnfoldsTo(s, v, WalkScalar(v, s.o).tree)
    ensures forall t :: UnfoldsTo(s, v, t) ==> WalkScalar(v, s.o) == Walked([], t)
    ensures Depth(WalkScalar(v, s.o).tree) == 0
  {
    hide WellFormed, IntText, Sanitize;
  }

  lemma ListSays(s: Scene, id: nat, ts: seq<Value>, budget: nat)
    requires AsList(s, id) && |ts| == |Elems(s.heap, id)| && ItemsMatch(s, Elems(s.heap, id), ts, budget)
    ensures UnfoldsTo(s, Array(id), Arr(ts)) && Depth(Arr(ts)) <= budget + 1
  {
    assert forall k :: 0 <= k < |ts| ==> Depth(ts[k]) < budget + 1;
    DepthProbe.ItemsWithin(ts, |ts|, budget + 1);
    assert DepthItems(Arr(ts).items, |ts|) == DepthItems(ts, |ts|);
    hide Elems, Depth, Unfolds;
  }

  lemma MapSays(s: Scene, v: Data, elems: seq<Elem>, ts: seq<Entry<Value>>, budget: nat)
    requires || (v.Array? && !AsList(s, v.id) && elems == Elems(s.heap, v.id))
             || (v.Object? && !KindOf(s.heap, v.id).Enum? && elems == Fields(s.heap, v.id))
    requires |ts| == |elems| && MembersMatch(s, elems, ts, budget)
    ensures UnfoldsTo(s, v, Obj(ts)) && Depth(Obj(ts)) <= budget + 1
  {
    assert forall k :: 0 <= k < |ts| ==> MemberMatches(s, elems[k], ts[k], budget);
    assert forall k :: 0 <= k < |ts| ==> Depth(ts[k].value) < budget + 1;
    DepthProbe.MembersWithin(ts, |ts|, budget + 1);
    assert DepthMembers(Obj(ts).members, |ts|) == DepthMembers(ts, |ts|);
    hide Elems, Fields, Depth, Unfolds, SaysKey;
  }

  /** A traversal that meets no error prints the document the value stands for, within the levels it has. */
  lemma {:induction false} WalkUnfolds(s: Scene, v: Data, p: Place)
    requires Walk(s, v, p, false).errors == []
    ensures Stand(s.heap, v, p.guards).Some? && Unfolds(s, v, Walk(s, v, p, false).tree)
    ensures Depth(Walk(s, v, p, false).tree) <= p.remaining
    decreases p.remaining, Free(s.heap, p.guards), 3
  {
    match v
    case Array(id) => ArrayUnfolds(s, id, Inside(p, id));
    case Object(id) =>
      match KindOf(s.heap, id) {
        case Serializable(result) =>
          if result == v {
            ObjectUnfolds(s, id, p);
          } else {
            assert id in Free(s.heap, p.guards) && id !in Free(s.heap, p.guards + {id});
            WalkUnfolds(s, result, p.(guards := p.guards + {id}));
            StandFewer(s.heap, v, {}, p.guards);
            StandFewer(s.heap, result, {}, p.guards + {id});
          }
        case Enum(c) => EnumUnfolds(s, id, c, p);
        case Plain => ObjectUnfolds(s, id, p);
      }
    case _ => ScalarSays(v, s);
  }

  lemma EnumUnfolds(s: Scene, id: nat, c: EnumCase, p: Place)
    requires KindOf(s.heap, id) == Enum(c) && Walk(s, Object(id), p, false).errors == []
    ensures Unfolds(s, Object(id), Walk(s, Object(id), p, false).tree)
    ensures Depth(Walk(s, Object(id), p, false).tree) == 0
  {
    match c
    case BackedByInt(n) => ScalarSays(Long(n), s);
    case BackedByString(text, numeric) => ScalarSays(Text(text, numeric), s);
    case Unbacked =>
  }

  lemma {:induction false} ArrayUnfolds(s: Scene, id: nat, p: Place)
    requires WalkElems(s, id, p, false).errors == []
    ensures UnfoldsTo(s, Array(id), WalkElems(s, id, p, false).tree)
    ensures Depth(WalkElems(s, id, p, false).tree) <= p.remaining + 1
    decreases p.remaining, Free(s.heap, p.guards), 6
  {
    var elems := Elems(s.heap, id);
    hide WalkItems, WalkMembers, Elems, Unfolds, UnfoldsTo, ItemsMatch, MembersMatch, AsList, Depth;
    if AsList(s, id) {
      ItemsUnfold(s, elems, |elems|, p);
      ListSays(s, id, WalkItems(s, elems, |elems|, p, false).tree, p.remaining);
    } else {
      MembersUnfold(s, elems, |elems|, p);
      MapSays(s, Array(id), elems, WalkMembers(s, elems, |elems|, p, false).tree, p.remaining);
    }
  }

  lemma {:induction false} ObjectUnfolds(s: Scene, id: nat, p: Place)
    requires !KindOf(s.heap, id).Enum? && WalkObject(s, id, p, false).errors == []
    ensures UnfoldsTo(s, Object(id), WalkObject(s, id, p, false).tree)
    ensures Depth(WalkObject(s, id, p, false).tree) <= p.remaining
    decreases p.remaining, Free(s.heap, p.guards), 2
  {
    ObjectWalk(s, id, p, false);
    var fields := Fields(s.heap, id);
    hide WalkMembers, WalkObject, Unfolds, UnfoldsTo, MembersMatch, Depth;
    if Props(s.heap, id).None? {
      assert MembersMatch(s, [], [], 0) by { NothingWalked(s, [], p, 0); }
      MapSays(s, Object(id), [], [], 0);
    } else {
      var props := Props(s.heap, id).value;
      PropsOfFaultless(s, props, |props|, Inside(p, id));
      MembersUnfold(s, fields, |fields|, Inside(p, id));
      MapSays(s, Object(id), fields, WalkMembers(s, fields, |fields|, Inside(p, id), false).tree, p.remaining - 1);
    }
  }

  lemma NothingWalked(s: Scene, elems: seq<Elem>, p: Place, budget: nat)
    ensures WalkItems(s, elems, 0, p, false) == Walked([], []) && WalkMembers(s, elems, 0, p, false) == Walked([], [])
    ensures ItemsMatch(s, elems, [], budget) && MembersMatch(s, elems, [], budget)
  {
  }

  lemma ItemMatched(s: Scene, elems: seq<Elem>, ts: seq<Value>, t: Value, budget: nat)
    requires |ts| < |elems| && ItemsMatch(s, elems, ts, budget)
    requires Unfolds(s, elems[|ts|].value, t) && Depth(t) <= budget
    ensures ItemsMatch(s, elems, ts + [t], budget)
  {
    hide Unfolds, Depth;
  }

  lemma MemberMatched(s: Scene, elems: seq<Elem>, ts: seq<Entry<Value>>, t: Entry<Value>, budget: nat)
    requires |ts| < |elems| && MembersMatch(s, elems, ts, budget) && MemberMatches(s, elems[|ts|], t, budget)
    ensures MembersMatch(s, elems, ts + [t], budget)
  {
    hide MemberMatches;
  }

  lemma {:induction false} ItemsUnfold(s: Scene, elems: seq<Elem>, n: nat, p: Place)
    requires n <= |elems| && WalkItems(s, elems, n, p, false).errors == []
    ensures ItemsMatch(s, elems, WalkItems(s, elems, n, p, false).tree, p.remaining)
    decreases p.remaining, Free(s.heap, p.guards), 5, n
  {
    hide Walk, WalkItems, Unfolds, ItemsMatch, Depth, Free;
    if n == 0 {
      NothingWalked(s, elems, p, p.remaining);
    } else {
      ItemsUnfolded(s, elems, n - 1, p, false);
      ItemsUnfold(s, elems, n - 1, p);
      WalkUnfolds(s, elems[n - 1].value, p);
      ItemMatched(s, elems, WalkItems(s, elems, n - 1, p, false).tree, Walk(s, elems[n - 1].value, p, false).tree,
                  p.remaining);
    }
  }

  lemma {:induction false} MembersUnfold(s: Scene, elems: seq<Elem>, n: nat, p: Place)
    requires n <= |elems| && WalkMembers(s, elems, n, p, false).errors == []
    ensures MembersMatch(s, elems, WalkMembers(s, elems, n, p, false).tree, p.remaining)
    decreases p.remaining, Free(s.heap, p.guards), 5, n
  {
    hide Walk, WalkMembers, WalkMember, Unfolds, MembersMatch, Depth, Free;
    if n == 0 {
      NothingWalked(s, elems, p, p.remaining);
    } else {
      MembersUnfolded(s, elems, n - 1, p, false);
      MembersUnfold(s, elems, n - 1, p);
      MemberUnfolds(s, elems[n - 1], p);
      MemberMatched(s, elems, WalkMembers(s, elems, n - 1, p, false).tree,
                    WalkMember(s, elems[n - 1].key, elems[n - 1].value, p, false).tree, p.remaining);
    }
  }

  lemma {:induction false} MemberUnfolds(s: Scene, elem: Elem, p: Place)
    requires WalkMember(s, elem.key, elem.value, p, false).errors == []
    ensures MemberMatches(s, elem, WalkMember(s, elem.key, elem.value, p, false).tree, p.remaining)
    decreases p.remaining, Free(s.heap, p.guards), 4
  {
    hide Walk, Unfolds, Depth, Free, SaysKey, WalkKey;
    MemberWalk(s, elem.key, elem.value, p, false);
    KeySays(elem.key, s.o);
    WalkUnfolds(s, elem.value, p);
  }

  // ---------------------------------------------------------------- and there is only one

  lemma {:induction false} UnfoldsOnce(s: Scene, v: Data, a: Value, b: Value)
    requires Unfolds(s, v, a) && Unfolds(s, v, b)
    ensures a == b
    decreases a, 1
  {
    hide UnfoldsTo;
    UnfoldsToOnce(s, Stand(s.heap, v, {}).value, a, b);
  }

  lemma {:induction false} UnfoldsToOnce(s: Scene, v: Data, a: Value, b: Value)
    requires UnfoldsTo(s, v, a) && UnfoldsTo(s, v, b)
    ensures a == b
    decreases a, 0
  {
    hide Unfolds, SaysKey;
    match v
    case Array(id) =>
      if a.Arr? {
        forall k | 0 <= k < |a.items| ensures a.items[k] == b.items[k] {
          UnfoldsOnce(s, Elems(s.heap, id)[k].value, a.items[k], b.items[k]);
        }
      } else {
        MembersOnce(s, Elems(s.heap, id), a.members, b.members);
      }
    case Object(id) =>
      if !KindOf(s.heap, id).Enum? {
        MembersOnce(s, Fields(s.heap, id), a.members, b.members);
      }
    case _ =>
  }

  lemma {:induction false} MembersOnce(s: Scene, elems: seq<Elem>, a: seq<Entry<Value>>, b: seq<Entry<Value>>)
    requires |a| == |b| == |elems|
    requires forall k :: 0 <= k < |elems| ==>
               SaysKey(elems[k].key, s.o, a[k].key) && Unfolds(s, elems[k].value, a[k].value)
    requires forall k :: 0 <= k < |elems| ==>
               SaysKey(elems[k].key, s.o, b[k].key) && Unfolds(s, elems[k].value, b[k].value)
    ensures a == b
    decreases a
  {
    hide Unfolds, SaysKey;
    forall k | 0 <= k < |a| ensures a[k] == b[k] {
      KeySays(elems[k].key, s.o);
      UnfoldsOnce(s, elems[k].value, a[k].value, b[k].value);
    }
  }

  // ---------------------------------------------------------------- what has a document is encoded

  /** A reference leads to a container of its own kind. */
  predicate Kinded(heap: Heap, v: Data) {
    && (v.Array? ==> v.id < |heap| && heap[v.id].ArrayNode?)
    && (v.Object? ==> v.id < |heap| && heap[v.id].ObjectNode?)
  }

  predicate KindedElems(heap: Heap, elems: seq<Elem>) {
    forall k :: 0 <= k < |elems| ==> Kinded(heap, elems[k].value)
  }

  predicate KindedNode(heap: Heap, id: nat) {
    && KindedElems(heap, Elems(heap, id))
    && KindedElems(heap, Fields(heap, id))
    && (KindOf(heap, id).Serializable? ==> Kinded(heap, KindOf(heap, id).result))
  }

  predicate KindedHeap(heap: Heap) {
    forall id :: 0 <= id < |heap| ==> KindedNode(heap, id)
  }

  function Container(heap: Heap, id: nat): Data {
    if id < |heap| && heap[id].ArrayNode? then Array(id) else Object(id)
  }

  /** A container being walked: its document nests deeper than `d`. */
  ghost predicate MarkAbove(s: Scene, id: nat, d: int) {
    exists t :: UnfoldsTo(s, Container(s.heap, id), t) && Depth(t) > d
  }

  /** An object whose serializer is running, likewise. */
  ghost predicate GuardAbove(s: Scene, id: nat, d: int) {
    exists t :: Unfolds(s, Object(id), t) && Depth(t) > d
  }

  ghost predicate MarksAbove(s: Scene, marks: set<nat>, d: int) {
    forall id :: id in marks ==> MarkAbove(s, id, d)
  }

  ghost predicate GuardsAbove(s: Scene, guards: set<nat>, d: int) {
    forall id :: id in guards ==> GuardAbove(s, id, d)
  }

  lemma AboveLess(s: Scene, marks: set<nat>, guards: set<nat>, d: int, less: int)
    requires MarksAbove(s, marks, d) && GuardsAbove(s, guards, d) && less <= d
    ensures MarksAbove(s, marks, less) && GuardsAbove(s, guards, less)
  {
    hide Unfolds, UnfoldsTo, Depth;
  }

  /** A container is not inside itself. */
  lemma NotInside(s: Scene, id: nat, t: Value, marks: set<nat>)
    requires UnfoldsTo(s, Container(s.heap, id), t) && MarksAbove(s, marks, Depth(t))
    ensures id !in marks
    ensures MarksAbove(s, marks + {id}, Depth(t) - 1)
  {
    hide UnfoldsTo, Depth;
    if id in marks {
      assert MarkAbove(s, id, Depth(t));
      var u :| UnfoldsTo(s, Container(s.heap, id), u) && Depth(u) > Depth(t);
      UnfoldsToOnce(s, Container(s.heap, id), t, u);
    }
    AboveLess(s, marks, {}, Depth(t), Depth(t) - 1);
  }

  /** Nor does its serializer run while its document is walked. */
  lemma NotGuarded(s: Scene, id: nat, t: Value)
    requires Unfolds(s, Object(id), t)
    ensures !GuardAbove(s, id, Depth(t))
  {
    hide Unfolds, Depth;
    if GuardAbove(s, id, Depth(t)) {
      var u :| Unfolds(s, Object(id), u) && Depth(u) > Depth(t);
      UnfoldsOnce(s, Object(id), t, u);
    }
  }

  /** An object on the way to what stands for it. */
  ghost predicate OnChain(s: Scene, id: nat, t: Value) {
    KindOf(s.heap, id).Serializable? && KindOf(s.heap, id).result != Object(id) && Unfolds(s, Object(id), t)
  }

  ghost predicate ChainOr(s: Scene, guards: set<nat>, chain: set<nat>, t: Value) {
    forall id :: id in guards ==> if id in chain then OnChain(s, id, t) else GuardAbove(s, id, Depth(t))
  }

  lemma {:induction false} ChainWalks(s: Scene, v: Data, t: Value, p: Place, chain: set<nat>)
    requires KindedHeap(s.heap) && Kinded(s.heap, v) && Depth(t) <= p.remaining
    requires Stand(s.heap, v, chain).Some? && UnfoldsTo(s, Stand(s.heap, v, chain).value, t)
    requires MarksAbove(s, p.marks, Depth(t)) && ChainOr(s, p.guards, chain, t)
    ensures Walk(s, v, p, false) == Walked([], t)
    decreases t, 1, Free(s.heap, chain)
  {
    StandFewer(s.heap, v, {}, chain);
    assert Unfolds(s, v, t);
    if v.Object? && KindOf(s.heap, v.id).Serializable? {
      SelfOrNext(s, v.id, t, p, chain);
    }
    if v.Object? && KindOf(s.heap, v.id).Serializable? && KindOf(s.heap, v.id).result != v {
      var result := KindOf(s.heap, v.id).result;
      assert v.id in Free(s.heap, chain) && v.id !in Free(s.heap, chain + {v.id});
      assert KindedNode(s.heap, v.id);
      hide UnfoldsTo, Unfolds, Depth, Walk;
      ChainWalks(s, result, t, p.(guards := p.guards + {v.id}), chain + {v.id});
      SerializableWalk(s, v.id, result, p);
    } else {
      GuardsOfChain(s, p.guards, chain, t);
      StandWalks(s, v, t, p);
    }
  }

  /** On the way, no serializer runs twice. */
  lemma SelfOrNext(s: Scene, id: nat, t: Value, p: Place, chain: set<nat>)
    requires KindOf(s.heap, id).Serializable? && Stand(s.heap, Object(id), chain).Some?
    requires Unfolds(s, Object(id), t) && ChainOr(s, p.guards, chain, t)
    ensures id !in p.guards
    ensures KindOf(s.heap, id).result != Object(id) ==> ChainOr(s, p.guards + {id}, chain + {id}, t)
  {
    hide Unfolds, Depth;
    NotGuarded(s, id, t);
    hide GuardAbove;
  }

  lemma GuardsOfChain(s: Scene, guards: set<nat>, chain: set<nat>, t: Value)
    requires ChainOr(s, guards, chain, t)
    ensures GuardsAbove(s, guards, Depth(t) - 1)
  {
    hide Unfolds, Depth;
    forall id | id in guards ensures GuardAbove(s, id, Depth(t) - 1) {
    }
  }

  /** What stands for a value is walked. */
  lemma {:induction false} StandWalks(s: Scene, v: Data, t: Value, p: Place)
    requires KindedHeap(s.heap) && Kinded(s.heap, v) && Depth(t) <= p.remaining && UnfoldsTo(s, v, t)
    requires MarksAbove(s, p.marks, Depth(t)) && GuardsAbove(s, p.guards, Depth(t) - 1)
    requires v.Object? && KindOf(s.heap, v.id).Serializable?
             ==> KindOf(s.heap, v.id).result == v && v.id !in p.guards
    ensures Walk(s, v, p, false) == Walked([], t)
    decreases t, 0, 1
  {
    match v
    case Array(id) => ArrayWalks(s, id, t, p);
    case Object(id) =>
      match KindOf(s.heap, id) {
        case Enum(c) => EnumWalks(s, id, c, t, p);
        case _ => ObjectWalks(s, id, t, p);
      }
    case _ => ScalarSays(v, s);
  }

  lemma EnumWalks(s: Scene, id: nat, c: EnumCase, t: Value, p: Place)
    requires KindOf(s.heap, id) == Enum(c) && UnfoldsTo(s, Object(id), t)
    ensures Walk(s, Object(id), p, false) == Walked([], t)
  {
    match c
    case BackedByInt(n) => ScalarSays(Long(n), s);
    case BackedByString(text, numeric) => ScalarSays(Text(text, numeric), s);
    case Unbacked =>
  }

  lemma {:induction false} ArrayWalks(s: Scene, id: nat, t: Value, p: Place)
    requires KindedHeap(s.heap) && Kinded(s.heap, Array(id)) && Depth(t) <= p.remaining && UnfoldsTo(s, Array(id), t)
    requires MarksAbove(s, p.marks, Depth(t)) && GuardsAbove(s, p.guards, Depth(t) - 1)
    ensures Walk(s, Array(id), p, false) == Walked([], t)
    decreases t, 0, 0
  {
    var elems, d := Elems(s.heap, id), Depth(t) - 1;
    assert KindedNode(s.heap, id);
    ArrayParts(s, id, t);
    NotInside(s, id, t, p.marks);
    ArrayWalk(s, id, p, false);
    hide UnfoldsTo, Unfolds, Elems, Depth, Walk, WalkItems, WalkMembers, ItemsMatch, MembersMatch, MarksAbove,
         GuardsAbove, Kinded, AsList;
    if AsList(s, id) {
      ItemsWalk(s, elems, t.items, |elems|, Inside(p, id), d);
      assert t.items[..|elems|] == t.items;
    } else {
      MembersWalk(s, elems, t.members, |elems|, Inside(p, id), d);
      assert t.members[..|elems|] == t.members;
    }
  }

  lemma ArrayParts(s: Scene, id: nat, t: Value)
    requires UnfoldsTo(s, Array(id), t)
    ensures Depth(t) > 0
    ensures if AsList(s, id) then
              t.Arr? && |t.items| == |Elems(s.heap, id)| && ItemsMatch(s, Elems(s.heap, id), t.items, Depth(t) - 1)
            else t.Obj? && |t.members| == |Elems(s.heap, id)|
                 && MembersMatch(s, Elems(s.heap, id), t.members, Depth(t) - 1)
  {
    hide Unfolds, SaysKey;
    if t.Arr? {
      DepthProbe.ItemsWithin(t.items, |t.items|, Depth(t));
    } else {
      DepthProbe.MembersWithin(t.members, |t.members|, Depth(t));
    }
  }

  lemma {:induction false} ObjectWalks(s: Scene, id: nat, t: Value, p: Place)
    requires KindedHeap(s.heap) && Kinded(s.heap, Object(id)) && Depth(t) <= p.remaining && UnfoldsTo(s, Object(id), t)
    requires MarksAbove(s, p.marks, Depth(t)) && GuardsAbove(s, p.guards, Depth(t) - 1)
    requires !KindOf(s.heap, id).Enum?
    ensures WalkObject(s, id, p, false) == Walked([], t)
    decreases t, 0, 0
  {
    var fields, d := Fields(s.heap, id), Depth(t) - 1;
    assert KindedNode(s.heap, id);
    ObjectParts(s, id, t);
    NotInside(s, id, t, p.marks);
    ObjectWalk(s, id, p, false);
    assert Props(s.heap, id).None? ==> fields == [];
    hide UnfoldsTo, Unfolds, Depth, Walk, WalkProps, WalkMembers, MembersMatch, MarksAbove, GuardsAbove, Kinded,
         WalkObject;
    if Props(s.heap, id).Some? {
      var props := Props(s.heap, id).value;
      MembersWalk(s, fields, t.members, |fields|, Inside(p, id), d);
      assert t.members[..|fields|] == t.members;
      PropsAreElems(s, props, |props|, Inside(p, id));
    }
  }

  lemma ObjectParts(s: Scene, id: nat, t: Value)
    requires UnfoldsTo(s, Object(id), t) && !KindOf(s.heap, id).Enum?
    ensures Depth(t) > 0 && t.Obj? && |t.members| == |Fields(s.heap, id)|
    ensures MembersMatch(s, Fields(s.heap, id), t.members, Depth(t) - 1)
  {
    hide Unfolds, SaysKey;
    DepthProbe.MembersWithin(t.members, |t.members|, Depth(t));
  }

  lemma {:induction false} ItemsWalk(s: Scene, elems: seq<Elem>, ts: seq<Value>, n: nat, p: Place, d: nat)
    requires KindedHeap(s.heap) && KindedElems(s.heap, elems) && d <= p.remaining
    requires n <= |ts| == |elems| && ItemsMatch(s, elems, ts, d)
    requires MarksAbove(s, p.marks, d) && GuardsAbove(s, p.guards, d)
    ensures WalkItems(s, elems, n, p, false) == Walked([], ts[..n])
    decreases ts, 0, n
  {
    if n == 0 {
      NothingWalked(s, elems, p, 0);
    } else {
      hide *;
      ItemsWalk(s, elems, ts, n - 1, p, d);
      MatchedItem(s, elems, ts, n - 1, d);
      AboveLess(s, p.marks, p.guards, d, Depth(ts[n - 1]));
      UnfoldingWalks(s, elems[n - 1].value, ts[n - 1], p);
      ItemsUnfolded(s, elems, n - 1, p, false);
      OneMoreWalked(s, ts, n - 1);
    }
  }

  lemma MatchedItem(s: Scene, elems: seq<Elem>, ts: seq<Value>, k: nat, d: nat)
    requires k < |ts| == |elems| && KindedElems(s.heap, elems) && ItemsMatch(s, elems, ts, d)
    ensures Kinded(s.heap, elems[k].value) && Unfolds(s, elems[k].value, ts[k]) && Depth(ts[k]) <= d
  {
    hide Kinded, Unfolds, Depth;
  }

  lemma {:induction false} MembersWalk(s: Scene, elems: seq<Elem>, ts: seq<Entry<Value>>, n: nat, p: Place, d: nat)
    requires KindedHeap(s.heap) && KindedElems(s.heap, elems) && d <= p.remaining
    requires n <= |ts| == |elems| && MembersMatch(s, elems, ts, d)
    requires MarksAbove(s, p.marks, d) && GuardsAbove(s, p.guards, d)
    ensures WalkMembers(s, elems, n, p, false) == Walked([], ts[..n])
    decreases ts, 0, n
  {
    if n == 0 {
      NothingWalked(s, elems, p, 0);
    } else {
      hide *;
      MembersWalk(s, elems, ts, n - 1, p, d);
      MatchedMember(s, elems, ts, n - 1, d);
      WalkOneMember(s, elems[n - 1], ts[n - 1], p, d);
      MembersUnfolded(s, elems, n - 1, p, false);
      OneMoreWalked(s, ts, n - 1);
    }
  }

  lemma MatchedMember(s: Scene, elems: seq<Elem>, ts: seq<Entry<Value>>, k: nat, d: nat)
    requires k < |ts| == |elems| && KindedElems(s.heap, elems) && MembersMatch(s, elems, ts, d)
    ensures Kinded(s.heap, elems[k].value) && MemberMatches(s, elems[k], ts[k], d)
  {
    hide Kinded, MemberMatches;
  }

  /** Without errors so far, nothing is quiet. */
  lemma OneMoreWalked<T>(s: Scene, ts: seq<T>, k: nat)
    requires k < |ts|
    ensures ts[..k + 1] == ts[..k] + [ts[k]] && !Quiet(s.o, false, [])
  {
  }

  lemma {:induction false} WalkOneMember(s: Scene, e: Elem, t: Entry<Value>, p: Place, d: nat)
    requires KindedHeap(s.heap) && Kinded(s.heap, e.value) && d <= p.remaining && MemberMatches(s, e, t, d)
    requires MarksAbove(s, p.marks, d) && GuardsAbove(s, p.guards, d)
    ensures WalkMember(s, e.key, e.value, p, false) == Walked([], t)
    decreases t, 0
  {
    hide Walk, WalkKey, WalkMember, Unfolds, Depth, MarksAbove, GuardsAbove, Kinded, SaysKey;
    AboveLess(s, p.marks, p.guards, d, Depth(t.value));
    UnfoldingWalks(s, e.value, t.value, p);
    KeySays(e.key, s.o);
    MemberWalk(s, e.key, e.value, p, false);
  }

  /** A value that has a document is walked without an error, if the levels suffice and it is not inside itself. */
  lemma {:induction false} UnfoldingWalks(s: Scene, v: Data, t: Value, p: Place)
    requires KindedHeap(s.heap) && Kinded(s.heap, v) && Unfolds(s, v, t) && Depth(t) <= p.remaining
    requires MarksAbove(s, p.marks, Depth(t)) && GuardsAbove(s, p.guards, Depth(t))
    ensures Walk(s, v, p, false) == Walked([], t)
    decreases t, 2
  {
    hide UnfoldsTo, Depth, MarksAbove;
    ChainWalks(s, v, t, p, {});
  }

  // ---------------------------------------------------------------- every error is one

  /** None of these is the absence of an error, or a lack of room, which no traversal knows of. */
  predicate Real(errors: seq<Error>) {
    NoError !in errors && TooLarge !in errors
  }

  lemma RealAppend(a: seq<Error>, b: seq<Error>)
    requires Real(a) && Real(b)
    ensures Real(a + b)
  {
  }

  lemma {:induction false} RealErrors(s: Scene, v: Data, p: Place, quiet: bool)
    ensures Real(Walk(s, v, p, quiet).errors)
    decreases p.remaining, Free(s.heap, p.guards), 3
  {
    match v
    case Array(id) =>
      ArrayWalk(s, id, p, quiet);
      if p.remaining > 0 {
        var elems := Elems(s.heap, id);
        RealItems(s, elems, |elems|, Inside(p, id), quiet);
        RealMembers(s, elems, |elems|, Inside(p, id), quiet);
      }
    case Object(id) =>
      match KindOf(s.heap, id) {
        case Serializable(result) =>
          if result != v && id !in p.guards {
            assert id in Free(s.heap, p.guards) && id !in Free(s.heap, p.guards + {id});
            RealErrors(s, result, p.(guards := p.guards + {id}), quiet);
          }
          RealObject(s, id, p, quiet);
        case Enum(c) =>
        case Plain => RealObject(s, id, p, quiet);
      }
    case _ =>
  }

  lemma {:induction false} RealObject(s: Scene, id: nat, p: Place, quiet: bool)
    ensures Real(WalkObject(s, id, p, quiet).errors)
    decreases p.remaining, Free(s.heap, p.guards), 2
  {
    ObjectWalk(s, id, p, quiet);
    if p.remaining > 0 && Props(s.heap, id).Some? {
      hide WalkProps, WalkObject;
      var props := Props(s.heap, id).value;
      RealProps(s, props, |props|, Inside(p, id), quiet);
    }
  }

  lemma {:induction false} RealItems(s: Scene, elems: seq<Elem>, n: nat, p: Place, quiet: bool)
    requires n <= |elems|
    ensures Real(WalkItems(s, elems, n, p, quiet).errors)
    decreases p.remaining, Free(s.heap, p.guards), 5, n
  {
    if n > 0 {
      hide Walk, Real, Free;
      var before := WalkItems(s, elems, n - 1, p, quiet).errors;
      RealItems(s, elems, n - 1, p, quiet);
      RealErrors(s, elems[n - 1].value, p, Quiet(s.o, quiet, before));
      RealAppend(before, Walk(s, elems[n - 1].value, p, Quiet(s.o, quiet, before)).errors);
    }
  }

  lemma {:induction false} RealMember(s: Scene, key: Key, value: Data, p: Place, quiet: bool)
    ensures Real(WalkMember(s, key, value, p, quiet).errors)
    decreases p.remaining, Free(s.heap, p.guards), 4
  {
    assert Real(WalkKey(key, s.o).errors);
    hide Walk, WalkKey, Real, Free;
    RealErrors(s, value, p, quiet);
    RealAppend(WalkKey(key, s.o).errors, Walk(s, value, p, quiet).errors);
  }

  lemma {:induction false} RealMembers(s: Scene, elems: seq<Elem>, n: nat, p: Place, quiet: bool)
    requires n <= |elems|
    ensures Real(WalkMembers(s, elems, n, p, quiet).errors)
    decreases p.remaining, Free(s.heap, p.guards), 5, n
  {
    if n > 0 {
      hide WalkMember, Real, Free;
      var before, e := WalkMembers(s, elems, n - 1, p, quiet).errors, elems[n - 1];
      RealMembers(s, elems, n - 1, p, quiet);
      RealMember(s, e.key, e.value, p, Quiet(s.o, quiet, before));
      RealAppend(before, WalkMember(s, e.key, e.value, p, Quiet(s.o, quiet, before)).errors);
    }
  }

  lemma {:induction false} RealProps(s: Scene, props: seq<Prop>, n: nat, p: Place, quiet: bool)
    requires n <= |props|
    ensures Real(WalkProps(s, props, n, p, quiet).errors)
    decreases p.remaining, Free(s.heap, p.guards), 5, n
  {
    if n > 0 {
      hide WalkMember, Real, Shown, Free;
      var before := WalkProps(s, props, n - 1, p, quiet).errors;
      var hush := Quiet(s.o, quiet, before);
      RealProps(s, props, n - 1, p, quiet);
      if Shown(props[n - 1], hush).Some? {
        var value := Shown(props[n - 1], hush).value;
        RealMember(s, props[n - 1].key, value, p, hush);
        RealAppend(before, WalkMember(s, props[n - 1].key, value, p, hush).errors);
      }
    }
  }

  // ---------------------------------------------------------------- when an encoding succeeds

  /**
   * A value is encoded without an error iff it has a document that nests within the levels given, and then that
   * document is printed. A cycle, a serializer that comes back to itself, text no flag allows, a number without a
   * spelling, an enum without a value: each leaves it without a document.
   */
  lemma EncodedIffUnfolds(s: Scene, v: Data, depth: nat)
    requires KindedHeap(s.heap) && Kinded(s.heap, v)
    ensures var w := Walk(s, v, Place(depth, {}, {}), false);
            && (w.errors == [] <==> exists t :: Unfolds(s, v, t) && Depth(t) <= depth)
            && (forall t :: Unfolds(s, v, t) && Depth(t) <= depth ==> w == Walked([], t))
  {
    hide Unfolds, Walk, Depth;
    var p := Place(depth, {}, {});
    if Walk(s, v, p, false).errors == [] {
      WalkUnfolds(s, v, p);
    }
    forall t | Unfolds(s, v, t) && Depth(t) <= depth ensures Walk(s, v, p, false) == Walked([], t) {
      UnfoldingWalks(s, v, t, p);
    }
  }

  /** What is printed in the place of what has no document of its own, and the error it leaves. */
  lemma SubstitutePrinted(s: Scene, v: Data, p: Place)
    ensures v.Resource? ==> Walk(s, v, p, false) == Walked([Unsupported], Null)
    ensures v.Double? && !v.finite ==> Walk(s, v, p, false) == Walked([NonFinite], Num([0x30], true))
    ensures v.Text? && !(s.o.numericCheck && v.numeric.Some?) && !WellFormed(v.s)
            && !s.o.utf8.ignore && !s.o.utf8.substitute
            ==> Walk(s, v, p, false) == Walked([Utf8Error], Null)
    ensures v.Array? && p.remaining == 0 ==> Walk(s, v, p, false) == Walked([DepthError], Null)
    ensures v.Array? && p.remaining > 0 && v.id in p.marks ==> Walk(s, v, p, false) == Walked([RecursionError], Null)
    ensures v.Object? && KindOf(s.heap, v.id) == Enum(Unbacked)
            ==> Walk(s, v, p, false) == Walked([NonBackedEnum], Num([0x30], true))
    ensures v.Object? && KindOf(s.heap, v.id).Plain? && p.remaining == 0
            ==> Walk(s, v, p, false) == Walked([DepthError], Null)
    ensures v.Object? && KindOf(s.heap, v.id).Plain? && p.remaining > 0 && Props(s.heap, v.id).Some? && v.id in p.marks
            ==> Walk(s, v, p, false) == Walked([RecursionError], Null)
    ensures v.Object? && KindOf(s.heap, v.id).Serializable? && v.id in p.guards
            ==> Walk(s, v, p, false) == Walked([RecursionError], Null)
  {
    hide WellFormed, WalkElems, WalkProps, Sanitize;
  }

  lemma KeySubstituted(name: Bytes, o: Options)
    requires !WellFormed(name) && !o.utf8.ignore && !o.utf8.substitute
    ensures WalkKey(Name(name), o) == Walked([Utf8Error], [])
  {
    hide WellFormed;
  }

  // ---------------------------------------------------------------- integers

  /** The number that decimal digits spell. */
  function DigitsValue(t: Bytes): int {
    if t == [] then 0 else 10 * DigitsValue(t[..|t| - 1]) + (t[|t| - 1] as int - 0x30)
  }

  function IntValue(t: Bytes): int {
    if t != [] && t[0] == 0x2D then -DigitsValue(t[1..]) else DigitsValue(t)
  }

  lemma {:induction false} DecimalReads(n: nat)
    ensures DigitsValue(PointerText.Decimal(n)) == n
  {
    PointerText.DecimalInDigits(n);
    if n >= 10 {
      DecimalReads(n / 10);
      assert (PointerText.Decimal(n / 10) + [0x30 + n % 10])[..|PointerText.Decimal(n / 10)|]
          == PointerText.Decimal(n / 10);
      hide PointerText.Decimal;
    }
  }

  lemma {:induction false} AllDigitsRun(t: Bytes)
    requires forall k :: 0 <= k < |t| ==> 0x30 <= t[k] <= 0x39
    ensures Reading.DigitRun(t) == |t|
  {
    if t != [] {
      AllDigitsRun(t[1..]);
    }
  }

  /** An integer is spelled as the grammar spells numbers, and its spelling has its value. */
  lemma IntTextReads(n: int)
    ensures IntValue(IntText(n)) == n && Reading.IsNumber(IntText(n))
  {
    var m := if n < 0 then -n else n;
    DecimalReads(m);
    DecimalIsUnsigned(m);
    var digits := PointerText.Decimal(m);
    assert IntText(n) == if n < 0 then [0x2D] + digits else digits;
    hide IntText, PointerText.Decimal, Reading.IsUnsigned, DigitsValue;
    assert n < 0 ==> IntText(n)[1..] == digits;
  }

  /** Digits without a leading zero. */
  lemma DecimalIsUnsigned(n: nat)
    ensures Reading.IsUnsigned(PointerText.Decimal(n)) && PointerText.Decimal(n)[0] != 0x2D
  {
    var digits := PointerText.Decimal(n);
    PointerText.DecimalIsNumeral(n);
    AllDigitsRun(digits);
    hide PointerText.Decimal, Reading.DigitRun;
    assert digits[|digits|..] == [];
  }

  // ---------------------------------------------------------------- the text can be read back

  predicate SpelledNumeric(numeric: Option<Bytes>) {
    numeric.Some? ==> Reading.IsNumber(numeric.value)
  }

  /** Finite numbers come spelled as the grammar of RFC 8259 spells numbers. */
  predicate SpelledData(v: Data) {
    match v
    case Double(lexeme, finite) => finite ==> Reading.IsNumber(lexeme)
    case Text(_, numeric) => SpelledNumeric(numeric)
    case _ => true
  }

  predicate SpelledElems(elems: seq<Elem>) {
    forall k :: 0 <= k < |elems| ==> SpelledData(elems[k].value)
  }

  predicate SpelledKind(kind: Kind) {
    match kind
    case Serializable(result) => SpelledData(result)
    case Enum(BackedByString(_, numeric)) => SpelledNumeric(numeric)
    case _ => true
  }

  predicate SpelledHeap(heap: Heap) {
    forall id :: 0 <= id < |heap| ==>
      SpelledElems(Elems(heap, id)) && SpelledElems(Fields(heap, id)) && SpelledKind(KindOf(heap, id))
  }

  lemma {:induction false} StandSpelled(heap: Heap, v: Data, seen: set<nat>)
    requires SpelledHeap(heap) && SpelledData(v)
    ensures Stand(heap, v, seen).Some? ==> SpelledData(Stand(heap, v, seen).value)
    decreases Free(heap, seen)
  {
    if v.Object? && KindOf(heap, v.id).Serializable? && KindOf(heap, v.id).result != v && v.id !in seen {
      assert v.id in Free(heap, seen) && v.id !in Free(heap, seen + {v.id});
      assert SpelledKind(KindOf(heap, v.id));
      StandSpelled(heap, KindOf(heap, v.id).result, seen + {v.id});
    }
  }

  lemma SaidTextIsWellFormed(text: Bytes, o: Options, t: Bytes)
    requires SaysText(text, o, t)
    ensures WellFormed(t)
  {
    SanitizedIsWellFormed(text, Substitutes(o.utf8, ForEncode), true);
    hide WellFormed, Sanitize;
  }

  lemma SaidKeyIsWellFormed(key: Key, o: Options, t: Bytes)
    requires SaysKey(key, o, t)
    ensures WellFormed(t)
  {
    match key
    case Index(i) =>
      PointerText.DecimalIsNumeral(if i < 0 then -i else i);
      AsciiIsWellFormed(IntText(i));
    case Name(name) => SaidTextIsWellFormed(name, o, t);
  }

  lemma SaidStringIsReadable(text: Bytes, numeric: Option<Bytes>, o: Options, t: Value)
    requires SaysString(text, numeric, o, t)
    ensures Encodable(t) && (SpelledNumeric(numeric) ==> Reading.Grammatical(t))
  {
    if t.Str? {
      SaidTextIsWellFormed(text, o, t.s);
    }
    hide WellFormed, SaysText, Reading.IsNumber;
  }

  ghost predicate Readable(t: Value, spelled: bool) {
    Encodable(t) && (spelled ==> Reading.Grammatical(t))
  }

  /** A document that stands for a value has a text, and one that follows the grammar if its numbers do. */
  lemma {:induction false} UnfoldsReadable(s: Scene, v: Data, t: Value, spelled: bool)
    requires Unfolds(s, v, t) && (spelled ==> SpelledHeap(s.heap) && SpelledData(v))
    ensures Readable(t, spelled)
    decreases t, 1
  {
    if spelled {
      StandSpelled(s.heap, v, {});
    }
    hide UnfoldsTo, Readable, SpelledData, SpelledHeap;
    UnfoldsToReadable(s, Stand(s.heap, v, {}).value, t, spelled);
  }

  lemma {:induction false} UnfoldsToReadable(s: Scene, v: Data, t: Value, spelled: bool)
    requires UnfoldsTo(s, v, t) && (spelled ==> SpelledHeap(s.heap) && SpelledData(v))
    ensures Readable(t, spelled)
    decreases t, 0
  {
    match v
    case Array(id) => ArrayReadable(s, id, t, spelled);
    case Object(id) => ObjectReadable(s, id, t, spelled);
    case Text(text, numeric) => SaidStringIsReadable(text, numeric, s.o, t);
    case Long(n) => IntTextReads(n);
    case _ =>
  }

  lemma SpelledInside(heap: Heap, id: nat)
    requires SpelledHeap(heap)
    ensures SpelledElems(Elems(heap, id)) && SpelledElems(Fields(heap, id)) && SpelledKind(KindOf(heap, id))
  {
  }

  lemma {:induction false} ArrayReadable(s: Scene, id: nat, t: Value, spelled: bool)
    requires UnfoldsTo(s, Array(id), t) && (spelled ==> SpelledHeap(s.heap))
    ensures Readable(t, spelled)
    decreases t, 0, 0
  {
    ArrayParts(s, id, t);
    if spelled {
      SpelledInside(s.heap, id);
    }
    hide UnfoldsTo, Readable, SpelledHeap, Elems, SpelledElems, ItemsMatch, MembersMatch, Depth, AsList;
    if AsList(s, id) {
      ItemsReadable(s, Elems(s.heap, id), t.items, Depth(t) - 1, spelled);
    } else {
      MembersReadable(s, Elems(s.heap, id), t.members, Depth(t) - 1, spelled);
    }
  }

  lemma {:induction false} ObjectReadable(s: Scene, id: nat, t: Value, spelled: bool)
    requires UnfoldsTo(s, Object(id), t) && (spelled ==> SpelledHeap(s.heap))
    ensures Readable(t, spelled)
    decreases t, 0, 0
  {
    assert spelled ==> SpelledElems(Fields(s.heap, id)) && SpelledKind(KindOf(s.heap, id)) by {
      if spelled {
        SpelledInside(s.heap, id);
      }
    }
    match KindOf(s.heap, id)
    case Enum(BackedByInt(n)) => IntTextReads(n);
    case Enum(BackedByString(text, numeric)) => SaidStringIsReadable(text, numeric, s.o, t);
    case Enum(Unbacked) =>
    case _ =>
      ObjectParts(s, id, t);
      hide UnfoldsTo, Readable, SpelledHeap, Fields, SpelledElems, MembersMatch, Depth;
      MembersReadable(s, Fields(s.heap, id), t.members, Depth(t) - 1, spelled);
  }

  lemma {:induction false} ItemsReadable(s: Scene, elems: seq<Elem>, ts: seq<Value>, d: nat, spelled: bool)
    requires |ts| == |elems| && ItemsMatch(s, elems, ts, d)
    requires spelled ==> SpelledHeap(s.heap) && SpelledElems(elems)
    ensures Readable(Arr(ts), spelled)
    decreases ts
  {
    forall k | 0 <= k < |ts| ensures Readable(ts[k], spelled) {
      hide Unfolds, Readable, SpelledHeap, SpelledData, Depth;
      UnfoldsReadable(s, elems[k].value, ts[k], spelled);
    }
    hide Unfolds, SpelledHeap, SpelledData, Depth;
  }

  lemma {:induction false} MembersReadable(s: Scene, elems: seq<Elem>, ts: seq<Entry<Value>>, d: nat, spelled: bool)
    requires |ts| == |elems| && MembersMatch(s, elems, ts, d)
    requires spelled ==> SpelledHeap(s.heap) && SpelledElems(elems)
    ensures Readable(Obj(ts), spelled)
    decreases ts
  {
    forall k | 0 <= k < |ts| ensures Readable(ts[k].value, spelled) && WellFormed(ts[k].key) {
      assert MemberMatches(s, elems[k], ts[k], d);
      hide Unfolds, Readable, SpelledHeap, SpelledData, Depth, WellFormed, SaysKey;
      SaidKeyIsWellFormed(elems[k].key, s.o, ts[k].key);
      UnfoldsReadable(s, elems[k].value, ts[k].value, spelled);
    }
    hide Unfolds, SpelledHeap, SpelledData, Depth, WellFormed, SaysKey;
  }

  /**
   * The encoder itself, where size is not what stops it: it reports no error iff the value has a document within the
   * depth, and what it then writes is that document's text, which a reader of RFC 8259 reads as that document.
   */
  lemma EncodesIffUnfolds(s: Scene, v: Data, depth: nat, tuning: StringWriter.Tuning, maxLen: nat, ok: bool,
                          text: Bytes, error: Error)
    requires KindedHeap(s.heap) && Kinded(s.heap, v)
    requires Encoder.Outcome(s.heap, v, depth, s.o, tuning, maxLen, ok, text, error) && error != TooLarge
    ensures error == NoError <==> exists t :: Unfolds(s, v, t) && Depth(t) <= depth
    ensures forall t :: Unfolds(s, v, t) && Depth(t) <= depth ==> ok && text == Print(t, 0, s.o.style)
    ensures SpelledHeap(s.heap) && SpelledData(v) ==>
              forall t :: Unfolds(s, v, t) && Depth(t) <= depth ==> Reading.ReadDocument(text) == Some(t)
  {
    hide Unfolds, Walk, Depth, Print, FirstHard, LongestRaw, KindedHeap, Kinded, SpelledHeap, SpelledData;
    EncodedIffUnfolds(s, v, depth);
    RealErrors(s, v, Place(depth, {}, {}), false);
    if SpelledHeap(s.heap) && SpelledData(v) {
      forall t | Unfolds(s, v, t) && Depth(t) <= depth ensures Reading.ReadDocument(text) == Some(t) {
        UnfoldsReadable(s, v, t, true);
        hide Encodable, Reading.Grammatical, Reading.ReadDocument;
        Reading.PrintedReadsBack(t, 0, s.o.style);
      }
    }
  }
}
