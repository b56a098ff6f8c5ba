/**
 * Which properties of an object an encoding shows, told by their names and slots alone: in table order, and as if those
 * with a hidden name were not there.
 */
module EncodeVisible {
  import opened ByteStrings
  import opened Encoding
  import opened Json
  import opened PhpHeap
  import opened Wrappers
  import Encoder
  import StringWriter

  // ---------------------------------------------------------------- which properties an object shows

  /** A private or protected property: its name begins with a NUL byte. */
  predicate Hidden(key: Key) {
    key.Name? && key.s != [] && key.s[0] == 0x00
  }

  /** The value seen from outside: one that is held, or one that a getter returns. */
  function Visible(prop: Prop): Option<Data> {
    if Hidden(prop.key) then None
    else match prop.slot
      case Held(value) => Some(value)
      case Hooked(Some(value)) => Some(value)
      case _ => None
  }

  /** The first `n` properties that are visible, in table order. */
  function VisibleProps(props: seq<Prop>, n: nat): (r: seq<Elem>)
    requires n <= |props|
    ensures |r| <= n
  {
    if n == 0 then []
    else match Visible(props[n - 1])
      case None => VisibleProps(props, n - 1)
      case Some(value) => VisibleProps(props, n - 1) + [Elem(props[n - 1].key, value)]
  }

  lemma ShownIsVisible(prop: Prop)
    ensures Shown(prop, false) == Visible(prop)
  {
  }

  lemma {:induction false} MembersPrefix(s: Scene, a: seq<Elem>, b: seq<Elem>, n: nat, p: Place, quiet: bool)
    requires n <= |a| && n <= |b| && a[..n] == b[..n]
    ensures WalkMembers(s, a, n, p, quiet) == WalkMembers(s, b, n, p, quiet)
  {
    if n > 0 {
      assert a[..n - 1] == a[..n][..n - 1] && b[..n - 1] == b[..n][..n - 1];
      assert a[n - 1] == a[..n][n - 1] && b[n - 1] == b[..n][n - 1];
      MembersPrefix(s, a, b, n - 1, p, quiet);
      hide WalkMember;
    }
  }

  /** One more member, walked aloud. */
  function Extended(w: Walked<seq<Entry<Value>>>, s: Scene, prop: Prop, p: Place): Walked<seq<Entry<Value>>> {
    match Visible(prop)
    case None => w
    case Some(value) =>
      var m := WalkMember(s, prop.key, value, p, false);
      Walked(w.errors + m.errors, w.tree + [m.tree])
  }

  /** The first `n` properties that are visible, walked aloud. */
  function WalkVisible(s: Scene, props: seq<Prop>, n: nat, p: Place): Walked<seq<Entry<Value>>>
    requires n <= |props|
  {
    var elems := VisibleProps(props, n);
    WalkMembers(s, elems, |elems|, p, false)
  }

  lemma PropsExtended(s: Scene, props: seq<Prop>, n: nat, p: Place)
    requires n < |props| && (s.o.partial || NonFinite !in WalkProps(s, props, n, p, false).errors)
    ensures WalkProps(s, props, n + 1, p, false) == Extended(WalkProps(s, props, n, p, false), s, props[n], p)
  {
    ShownIsVisible(props[n]);
    hide WalkProps, WalkMember, Shown, Visible;
    PropsUnfolded(s, props, n, p, false);
  }

  lemma VisibleErrors(s: Scene, props: seq<Prop>, n: nat, p: Place)
    requires n < |props| && (s.o.partial || NonFinite !in WalkVisible(s, props, n + 1, p).errors)
    ensures s.o.partial || NonFinite !in WalkVisible(s, props, n, p).errors
  {
    hide WalkMembers, WalkMember, Visible;
    var before, elems := VisibleProps(props, n), VisibleProps(props, n + 1);
    if Visible(props[n]).Some? {
      assert elems[..|before|] == before;
      hide VisibleProps;
      MembersPrefix(s, elems, before, |before|, p, false);
      MembersOneMore(s, elems, |before|, p, false);
    }
  }

  lemma VisibleExtended(s: Scene, props: seq<Prop>, n: nat, p: Place)
    requires n < |props| && (s.o.partial || NonFinite !in WalkVisible(s, props, n, p).errors)
    ensures WalkVisible(s, props, n + 1, p) == Extended(WalkVisible(s, props, n, p), s, props[n], p)
  {
    hide WalkMembers, WalkMember, Visible;
    var before, elems := VisibleProps(props, n), VisibleProps(props, n + 1);
    if Visible(props[n]).Some? {
      assert elems[..|before|] == before;
      hide VisibleProps;
      MembersPrefix(s, elems, before, |before|, p, false);
      MembersUnfolded(s, elems, |before|, p, false);
    }
  }

  lemma NoProps(s: Scene, props: seq<Prop>, p: Place)
    ensures WalkProps(s, props, 0, p, false) == WalkVisible(s, props, 0, p) == Walked([], [])
  {
  }

  /** Until a non-finite number, or with partial output, properties are walked like the elements that are visible. */
  lemma {:induction false} PropsAreElems(s: Scene, props: seq<Prop>, n: nat, p: Place)
    requires n <= |props| && (s.o.partial || NonFinite !in WalkVisible(s, props, n, p).errors)
    ensures WalkProps(s, props, n, p, false) == WalkVisible(s, props, n, p)
  {
    hide *;
    if n == 0 {
      NoProps(s, props, p);
    } else {
      VisibleErrors(s, props, n - 1, p);
      VisibleExtended(s, props, n - 1, p);
      PropsAreElems(s, props, n - 1, p);
      PropsExtended(s, props, n - 1, p);
    }
  }

  /** The other way round, from a traversal of the properties that goes well. */
  lemma {:induction false} PropsOfFaultless(s: Scene, props: seq<Prop>, n: nat, p: Place)
    requires n <= |props| && (s.o.partial || WalkProps(s, props, n, p, false).errors == [])
    ensures WalkProps(s, props, n, p, false) == WalkVisible(s, props, n, p)
  {
    hide *;
    if n == 0 {
      NoProps(s, props, p);
    } else {
      PropsPrefixErrors(s, props, n, p);
      PropsOfFaultless(s, props, n - 1, p);
      PropsExtended(s, props, n - 1, p);
      VisibleExtended(s, props, n - 1, p);
    }
  }

  lemma PropsPrefixErrors(s: Scene, props: seq<Prop>, n: nat, p: Place)
    requires 0 < n <= |props| && (s.o.partial || WalkProps(s, props, n, p, false).errors == [])
    ensures s.o.partial || WalkProps(s, props, n - 1, p, false).errors == []
    ensures s.o.partial || NonFinite !in WalkProps(s, props, n - 1, p, false).errors
  {
    hide WalkProps;
    PropsOneMore(s, props, n - 1, p, false);
  }

  // ---------------------------------------------------------------- in table order

  lemma {:induction false} VisibleExtends(props: seq<Prop>, m: nat, n: nat)
    requires m <= n <= |props|
    ensures VisibleProps(props, m) <= VisibleProps(props, n)
    decreases n - m
  {
    if m < n {
      VisibleExtends(props, m, n - 1);
      hide Visible;
    }
  }

  lemma {:induction false} MembersAt(s: Scene, elems: seq<Elem>, n: nat, k: nat, p: Place)
    requires k < n <= |elems| && (s.o.partial || WalkMembers(s, elems, n, p, false).errors == [])
    ensures WalkMembers(s, elems, n, p, false).tree[k]
         == Entry(WalkKey(elems[k].key, s.o).tree, Walk(s, elems[k].value, p, false).tree)
  {
    hide Walk, WalkKey, WalkMember;
    MembersUnfolded(s, elems, n - 1, p, false);
    if k < n - 1 {
      MembersAt(s, elems, n - 1, k, p);
    } else {
      MemberWalk(s, elems[k].key, elems[k].value, p, false);
    }
  }

  lemma {:induction false} ItemsAt(s: Scene, elems: seq<Elem>, n: nat, k: nat, p: Place)
    requires k < n <= |elems| && (s.o.partial || WalkItems(s, elems, n, p, false).errors == [])
    ensures WalkItems(s, elems, n, p, false).tree[k] == Walk(s, elems[k].value, p, false).tree
  {
    hide Walk;
    ItemsUnfolded(s, elems, n - 1, p, false);
    if k < n - 1 {
      ItemsAt(s, elems, n - 1, k, p);
    }
  }

  /**
   * An array prints every one of its elements in its place, with partial output or where nothing went wrong: as a list
   * iff its keys are 0, 1, 2 and so on and objects are not forced, and as an object under the text of its key if not.
   */
  lemma ElemsShow(s: Scene, id: nat, k: nat, p: Place)
    requires k < |Elems(s.heap, id)| && p.remaining > 0 && id !in p.marks
    requires s.o.partial || Walk(s, Array(id), p, false).errors == []
    ensures var elems, t := Elems(s.heap, id), Walk(s, Array(id), p, false).tree;
            var value := Walk(s, elems[k].value, Inside(p, id), false).tree;
            if !s.o.forceObject && forall j :: 0 <= j < |elems| ==> elems[j].key == Index(j) then
              t.Arr? && |t.items| == |elems| && t.items[k] == value
            else
              t.Obj? && |t.members| == |elems| && t.members[k] == Entry(WalkKey(elems[k].key, s.o).tree, value)
  {
    ArrayWalk(s, id, p, false);
    var elems, q := Elems(s.heap, id), Inside(p, id);
    hide Walk, WalkItems, WalkMembers, WalkKey, Elems;
    if AsList(s, id) {
      ItemsAt(s, elems, |elems|, k, q);
    } else {
      MembersAt(s, elems, |elems|, k, q);
    }
  }

  /**
   * A property that holds a value under a name that is not hidden is a member of what is printed for its object, with
   * partial output or where nothing went wrong: behind exactly the visible properties that stand before it.
   */
  lemma HeldPropShows(s: Scene, id: nat, k: nat, value: Data, p: Place)
    requires Props(s.heap, id).Some? && k < |Props(s.heap, id).value|
    requires var key := Props(s.heap, id).value[k].key; key.Index? || key.s == [] || key.s[0] != 0x00
    requires Props(s.heap, id).value[k].slot == Held(value)
    requires p.remaining > 0 && id !in p.marks && (s.o.partial || WalkObject(s, id, p, false).errors == [])
    ensures var props, at := Props(s.heap, id).value, |VisibleProps(Props(s.heap, id).value, k)|;
            && WalkObject(s, id, p, false).tree.Obj?
            && |WalkObject(s, id, p, false).tree.members| == |VisibleProps(props, |props|)| > at
            && WalkObject(s, id, p, false).tree.members[at]
               == Entry(WalkKey(props[k].key, s.o).tree, Walk(s, value, Inside(p, id), false).tree)
    ensures var props := Props(s.heap, id).value;
            forall j :: k < j < |props| ==> |VisibleProps(props, k)| < |VisibleProps(props, j)|
  {
    var props := Props(s.heap, id).value;
    var elems := VisibleProps(props, |props|);
    var at := |VisibleProps(props, k)|;
    assert VisibleProps(props, k + 1) == VisibleProps(props, k) + [Elem(props[k].key, value)];
    VisibleExtends(props, k + 1, |props|);
    assert elems[at] == Elem(props[k].key, value);
    ObjectWalk(s, id, p, false);
    forall j | k < j < |props| ensures |VisibleProps(props, k)| < |VisibleProps(props, j)| {
      VisibleExtends(props, k + 1, j);
    }
    hide WalkObject, WalkProps, WalkMembers, Walk, WalkKey, VisibleProps;
    PropsOfFaultless(s, props, |props|, Inside(p, id));
    MembersAt(s, elems, |elems|, at, Inside(p, id));
  }

  // ---------------------------------------------------------------- after a non-finite number

  /**
   * Once a number that is not finite has been met, and output is not partial, the rest of an array is only searched
   * for another error; before that, and with partial output always, it is walked.
   */
  lemma ElemsAfterNonFinite(s: Scene, elems: seq<Elem>, k: nat, p: Place)
    requires k < |elems|
    ensures var before := WalkItems(s, elems, k, p, false).errors;
            WalkItems(s, elems, k + 1, p, false).errors
            == before + Walk(s, elems[k].value, p, !s.o.partial && NonFinite in before).errors
    ensures var before := WalkMembers(s, elems, k, p, false).errors;
            WalkMembers(s, elems, k + 1, p, false).errors
            == before + (WalkKey(elems[k].key, s.o).errors
                         + Walk(s, elems[k].value, p, !s.o.partial && NonFinite in before).errors)
  {
    hide Walk, WalkItems, WalkMembers, WalkKey;
    ItemsUnfolded(s, elems, k, p, false);
    MembersUnfolded(s, elems, k, p, false);
    MemberWalk(s, elems[k].key, elems[k].value, p, Quiet(s.o, false, WalkMembers(s, elems, k, p, false).errors));
  }

  /** A search calls neither serializers nor getters: what they would return is not looked at. */
  lemma SearchCallsNothing(s: Scene, id: nat, props: seq<Prop>, k: nat, p: Place)
    requires k < |props|
    ensures KindOf(s.heap, id).Serializable? ==> Walk(s, Object(id), p, true) == Walked([], Null)
    ensures Hidden(props[k].key) || !props[k].slot.Held?
            ==> WalkProps(s, props, k + 1, p, true) == WalkProps(s, props, k, p, true)
    ensures !Hidden(props[k].key) && props[k].slot.Held? ==>
              WalkProps(s, props, k + 1, p, true).errors
              == WalkProps(s, props, k, p, true).errors
                 + (WalkKey(props[k].key, s.o).errors + Walk(s, props[k].slot.value, p, true).errors)
  {
    hide WalkProps, WalkMember, WalkKey;
    PropsUnfolded(s, props, k, p, true);
    if props[k].slot.Held? {
      MemberWalk(s, props[k].key, props[k].slot.value, p, true);
    }
  }

  // ---------------------------------------------------------------- as if what is hidden were not there

  /** The first `n` properties without those whose names begin with a NUL byte. */
  function CleanProps(props: seq<Prop>, n: nat): seq<Prop>
    requires n <= |props|
  {
    if n == 0 then []
    else if Hidden(props[n - 1].key) then CleanProps(props, n - 1)
    else CleanProps(props, n - 1) + [props[n - 1]]
  }

  function CleanNode(node: Node): Node {
    match node
    case ArrayNode(_) => node
    case ObjectNode(kind, None) => node
    case ObjectNode(kind, Some(props)) => ObjectNode(kind, Some(CleanProps(props, |props|)))
  }

  /** The heap without the properties whose names begin with a NUL byte. */
  function Clean(heap: Heap): (r: Heap)
    ensures |r| == |heap|
  {
    seq(|heap|, id requires 0 <= id < |heap| => CleanNode(heap[id]))
  }

  lemma CleanReads(heap: Heap, id: nat)
    ensures Elems(Clean(heap), id) == Elems(heap, id) && KindOf(Clean(heap), id) == KindOf(heap, id)
    ensures Props(heap, id).None? <==> Props(Clean(heap), id).None?
    ensures Props(heap, id).Some? ==>
              Props(Clean(heap), id).value == CleanProps(Props(heap, id).value, |Props(heap, id).value|)
  {
    assert id < |heap| ==> Clean(heap)[id] == CleanNode(heap[id]);
    hide CleanProps;
  }

  lemma {:induction false} PropsPrefix(s: Scene, a: seq<Prop>, b: seq<Prop>, n: nat, p: Place, quiet: bool)
    requires n <= |a| && n <= |b| && a[..n] == b[..n]
    ensures WalkProps(s, a, n, p, quiet) == WalkProps(s, b, n, p, quiet)
  {
    if n > 0 {
      assert a[..n - 1] == a[..n][..n - 1] && b[..n - 1] == b[..n][..n - 1];
      assert a[n - 1] == a[..n][n - 1] && b[n - 1] == b[..n][n - 1];
      hide WalkMember, Shown;
      PropsPrefix(s, a, b, n - 1, p, quiet);
    }
  }

  lemma HiddenIsNotShown(prop: Prop, quiet: bool)
    ensures Hidden(prop.key) ==> Shown(prop, quiet).None?
  {
  }

  /** An encoding is the same whether or not the hidden properties are there. */
  lemma {:induction false} CleanWalks(heap: Heap, o: Options, v: Data, p: Place, quiet: bool)
    ensures Walk(Scene(heap, o), v, p, quiet) == Walk(Scene(Clean(heap), o), v, p, quiet)
    decreases p.remaining, Free(heap, p.guards), 3
  {
    var s, c := Scene(heap, o), Scene(Clean(heap), o);
    match v
    case Array(id) =>
      CleanReads(heap, id);
      ArrayWalk(s, id, p, quiet);
      ArrayWalk(c, id, p, quiet);
      if p.remaining > 0 {
        CleanElems(heap, o, id, Inside(p, id), quiet);
      }
    case Object(id) =>
      CleanReads(heap, id);
      match KindOf(heap, id) {
        case Serializable(result) =>
          if result != v && id !in p.guards {
            assert id in Free(heap, p.guards) && id !in Free(heap, p.guards + {id});
            hide Clean, WalkObject;
            CleanWalks(heap, o, result, p.(guards := p.guards + {id}), quiet);
          }
          CleanObject(heap, o, id, p, quiet);
        case Enum(_) =>
        case Plain => CleanObject(heap, o, id, p, quiet);
      }
    case _ =>
  }

  lemma {:induction false} CleanElems(heap: Heap, o: Options, id: nat, p: Place, quiet: bool)
    ensures WalkElems(Scene(heap, o), id, p, quiet) == WalkElems(Scene(Clean(heap), o), id, p, quiet)
    decreases p.remaining, Free(heap, p.guards), 6
  {
    CleanReads(heap, id);
    var elems := Elems(heap, id);
    hide WalkItems, WalkMembers, Elems, Clean;
    CleanItems(heap, o, elems, |elems|, p, quiet);
    CleanMembers(heap, o, elems, |elems|, p, quiet);
  }

  lemma {:induction false} CleanItems(heap: Heap, o: Options, elems: seq<Elem>, n: nat, p: Place, quiet: bool)
    requires n <= |elems|
    ensures WalkItems(Scene(heap, o), elems, n, p, quiet) == WalkItems(Scene(Clean(heap), o), elems, n, p, quiet)
    decreases p.remaining, Free(heap, p.guards), 5, n
  {
    if n > 0 {
      hide Walk, Clean, Free;
      var before := WalkItems(Scene(heap, o), elems, n - 1, p, quiet);
      CleanItems(heap, o, elems, n - 1, p, quiet);
      CleanWalks(heap, o, elems[n - 1].value, p, Quiet(o, quiet, before.errors));
    }
  }

  lemma {:induction false} CleanMember(heap: Heap, o: Options, key: Key, value: Data, p: Place, quiet: bool)
    ensures WalkMember(Scene(heap, o), key, value, p, quiet) == WalkMember(Scene(Clean(heap), o), key, value, p, quiet)
    decreases p.remaining, Free(heap, p.guards), 4
  {
    hide Walk, WalkKey, Clean, Free;
    CleanWalks(heap, o, value, p, quiet);
  }

  lemma {:induction false} CleanMembers(heap: Heap, o: Options, elems: seq<Elem>, n: nat, p: Place, quiet: bool)
    requires n <= |elems|
    ensures WalkMembers(Scene(heap, o), elems, n, p, quiet) == WalkMembers(Scene(Clean(heap), o), elems, n, p, quiet)
    decreases p.remaining, Free(heap, p.guards), 5, n
  {
    if n > 0 {
      hide WalkMember, Clean, Free;
      var before, e := WalkMembers(Scene(heap, o), elems, n - 1, p, quiet), elems[n - 1];
      CleanMembers(heap, o, elems, n - 1, p, quiet);
      CleanMember(heap, o, e.key, e.value, p, Quiet(o, quiet, before.errors));
    }
  }

  lemma {:induction false} CleanObject(heap: Heap, o: Options, id: nat, p: Place, quiet: bool)
    ensures WalkObject(Scene(heap, o), id, p, quiet) == WalkObject(Scene(Clean(heap), o), id, p, quiet)
    decreases p.remaining, Free(heap, p.guards), 2
  {
    CleanReads(heap, id);
    ObjectWalk(Scene(heap, o), id, p, quiet);
    ObjectWalk(Scene(Clean(heap), o), id, p, quiet);
    if p.remaining > 0 && Props(heap, id).Some? {
      var props := Props(heap, id).value;
      hide WalkObject, WalkProps, Clean, CleanProps, Props;
      CleanedProps(heap, o, props, |props|, Inside(p, id), quiet);
    }
  }

  /** The n-th property added to a traversal: nothing if it does not show. */
  function PropAdded(s: Scene, prop: Prop, w: Walked<seq<Entry<Value>>>, p: Place, quiet: bool)
    : Walked<seq<Entry<Value>>>
  {
    var hush := Quiet(s.o, quiet, w.errors);
    match Shown(prop, hush)
    case None => w
    case Some(value) =>
      var m := WalkMember(s, prop.key, value, p, hush);
      Walked(w.errors + m.errors, w.tree + [m.tree])
  }

  function WalkKept(s: Scene, props: seq<Prop>, n: nat, p: Place, quiet: bool): Walked<seq<Entry<Value>>>
    requires n <= |props|
  {
    var kept := CleanProps(props, n);
    WalkProps(s, kept, |kept|, p, quiet)
  }

  lemma KeptExtended(s: Scene, props: seq<Prop>, n: nat, p: Place, quiet: bool)
    requires n < |props|
    ensures WalkKept(s, props, n + 1, p, quiet) == PropAdded(s, props[n], WalkKept(s, props, n, p, quiet), p, quiet)
  {
    var before, kept := CleanProps(props, n), CleanProps(props, n + 1);
    hide WalkProps, WalkMember, Shown, CleanProps;
    if Hidden(props[n].key) {
      HiddenIsNotShown(props[n], Quiet(s.o, quiet, WalkKept(s, props, n, p, quiet).errors));
    } else {
      assert kept[..|before|] == before && kept[|before|] == props[n];
      PropsPrefix(s, kept, before, |before|, p, quiet);
      PropsUnfolded(s, kept, |before|, p, quiet);
    }
  }

  lemma AllExtended(s: Scene, props: seq<Prop>, n: nat, p: Place, quiet: bool)
    requires n < |props|
    ensures WalkProps(s, props, n + 1, p, quiet) == PropAdded(s, props[n], WalkProps(s, props, n, p, quiet), p, quiet)
  {
    hide WalkProps, WalkMember, Shown;
    PropsUnfolded(s, props, n, p, quiet);
  }

  lemma {:induction false} CleanAdded(heap: Heap, o: Options, prop: Prop, w: Walked<seq<Entry<Value>>>, p: Place,
                                      quiet: bool)
    ensures PropAdded(Scene(heap, o), prop, w, p, quiet) == PropAdded(Scene(Clean(heap), o), prop, w, p, quiet)
    decreases p.remaining, Free(heap, p.guards), 5, 0
  {
    hide WalkMember, Shown, Clean, Free;
    var hush := Quiet(o, quiet, w.errors);
    if Shown(prop, hush).Some? {
      CleanMember(heap, o, prop.key, Shown(prop, hush).value, p, hush);
    }
  }

  lemma {:induction false} CleanedProps(heap: Heap, o: Options, props: seq<Prop>, n: nat, p: Place, quiet: bool)
    requires n <= |props|
    ensures WalkProps(Scene(heap, o), props, n, p, quiet) == WalkKept(Scene(Clean(heap), o), props, n, p, quiet)
    decreases p.remaining, Free(heap, p.guards), 5, n
  {
    if n > 0 {
      var w := WalkProps(Scene(heap, o), props, n - 1, p, quiet);
      hide *;
      CleanedProps(heap, o, props, n - 1, p, quiet);
      AllExtended(Scene(heap, o), props, n - 1, p, quiet);
      KeptExtended(Scene(Clean(heap), o), props, n - 1, p, quiet);
      CleanAdded(heap, o, props[n - 1], w, p, quiet);
    }
  }

  /** Nor can a caller of the encoder tell, except by how much room it asks for. */
  lemma CleanOutcome(heap: Heap, o: Options, v: Data, depth: nat, tuning: StringWriter.Tuning, maxLen: nat, ok: bool,
                     text: Bytes, error: Error)
    requires error != TooLarge
    ensures Encoder.Outcome(heap, v, depth, o, tuning, maxLen, ok, text, error)
       <==> Encoder.Outcome(Clean(heap), v, depth, o, tuning, maxLen, ok, text, error)
  {
    hide Walk, Print, FirstHard, Clean, LongestRaw;
    CleanWalks(heap, o, v, Place(depth, {}, {}), false);
  }
}
