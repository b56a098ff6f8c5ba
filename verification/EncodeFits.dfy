/** What an encoding prints always has a text and nests within the depth it was given. */
module EncodeFits {
  import opened ByteStrings
  import opened Encoding
  import opened Json
  import opened PhpHeap
  import opened PointerText
  import opened Sanitizer
  import opened Utf8
  import DepthProbe

  /** Nests at most `budget` deep, and every leaf has a text without newlines of its own. */
  ghost predicate Sound(t: Value, budget: nat) {
    Depth(t) <= budget && Encodable(t) && PlainNumbers(t)
  }

  ghost predicate SoundItems(ts: seq<Value>, budget: nat) {
    forall k :: 0 <= k < |ts| ==> Sound(ts[k], budget)
  }

  ghost predicate SoundMembers(ts: seq<Entry<Value>>, budget: nat) {
    forall k :: 0 <= k < |ts| ==> WellFormed(ts[k].key) && Sound(ts[k].value, budget)
  }

  /** Numbers are spelled without newlines. */
  predicate PlainNumber(v: Data) {
    match v
    case Double(lexeme, _) => NEWLINE !in lexeme
    case Text(_, numeric) => numeric.Some? ==> NEWLINE !in numeric.value
    case _ => true
  }

  predicate PlainSlot(slot: Slot) {
    match slot
    case Held(v) => PlainNumber(v)
    case Hooked(returned) => returned.Some? ==> PlainNumber(returned.value)
    case _ => true
  }

  predicate PlainNode(n: Node) {
    match n
    case ArrayNode(elems) => forall k :: 0 <= k < |elems| ==> PlainNumber(elems[k].value)
    case ObjectNode(kind, props) =>
      && (match kind
          case Serializable(result) => PlainNumber(result)
          case Enum(BackedByString(_, numeric)) => numeric.Some? ==> NEWLINE !in numeric.value
          case _ => true)
      && (props.Some? ==> forall k :: 0 <= k < |props.value| ==> PlainSlot(props.value[k].slot))
  }

  predicate PlainLexemes(heap: Heap) {
    forall id :: 0 <= id < |heap| ==> PlainNode(heap[id])
  }

  lemma ArrIsSound(ts: seq<Value>, budget: nat)
    requires SoundItems(ts, budget)
    ensures Sound(Arr(ts), budget + 1)
  {
    assert forall k :: 0 <= k < |ts| ==> Sound(ts[k], budget);
    DepthProbe.ItemsWithin(ts, |ts|, budget + 1);
    assert DepthItems(Arr(ts).items, |ts|) == DepthItems(ts, |ts|);
  }

  lemma ObjIsSound(ts: seq<Entry<Value>>, budget: nat)
    requires SoundMembers(ts, budget)
    ensures Sound(Obj(ts), budget + 1)
  {
    assert forall k :: 0 <= k < |ts| ==> Sound(ts[k].value, budget);
    DepthProbe.MembersWithin(ts, |ts|, budget + 1);
    assert DepthMembers(Obj(ts).members, |ts|) == DepthMembers(ts, |ts|);
  }

  lemma DigitsAreClean(n: int)
    ensures WellFormed(IntText(n)) && NEWLINE !in IntText(n)
  {
    DecimalIsNumeral(if n < 0 then -n else n);
    AsciiIsWellFormed(IntText(n));
  }

  lemma SpelledIsWellFormed(s: Bytes, o: Options)
    ensures Spelled(s, o).Some? ==> WellFormed(Spelled(s, o).value)
  {
    SanitizedIsWellFormed(s, Substitutes(o.utf8, ForEncode), true);
    hide WellFormed, Sanitize;
  }

  lemma ScalarIsSound(v: Data, o: Options, budget: nat)
    requires !v.Array? && !v.Object? && PlainNumber(v)
    ensures Sound(WalkScalar(v, o).tree, budget)
  {
    if v.Long? {
      DigitsAreClean(v.n);
    }
    if v.Text? {
      SpelledIsWellFormed(v.s, o);
    }
    hide WellFormed, IntText, Spelled;
  }

  lemma KeyIsWellFormed(key: Key, o: Options)
    ensures WellFormed(WalkKey(key, o).tree)
  {
    match key
    case Index(i) => DigitsAreClean(i);
    case Name(s) =>
      SpelledIsWellFormed(s, o);
      assert WellFormed([]);
      hide WellFormed, Spelled;
  }

  /** Whatever happens on the way, the document an encoding prints nests within its budget and has a text. */
  lemma {:induction false} WalkIsSound(s: Scene, v: Data, p: Place, quiet: bool)
    requires PlainLexemes(s.heap) && PlainNumber(v)
    ensures Sound(Walk(s, v, p, quiet).tree, p.remaining)
    decreases p.remaining, Free(s.heap, p.guards), 3
  {
    NullIsSound(p.remaining);
    hide Sound, WalkScalar;
    match v
    case Array(id) =>
      if p.remaining > 0 && id !in p.marks {
        ElemsAreSound(s, id, Inside(p, id), quiet);
        hide WalkElems;
      }
    case Object(id) =>
      KindIsPlain(s.heap, id);
      match KindOf(s.heap, id) {
        case Serializable(result) =>
          if !quiet && id !in p.guards {
            if result == v {
              ObjectIsSound(s, id, p, quiet);
            } else {
              assert id in Free(s.heap, p.guards) && id !in Free(s.heap, p.guards + {id});
              WalkIsSound(s, result, p.(guards := p.guards + {id}), quiet);
            }
          }
        case Enum(Unbacked) =>
        case Enum(BackedByInt(n)) => ScalarIsSound(Long(n), s.o, p.remaining);
        case Enum(BackedByString(t, numeric)) => ScalarIsSound(Text(t, numeric), s.o, p.remaining);
        case Plain => ObjectIsSound(s, id, p, quiet);
      }
    case _ => ScalarIsSound(v, s.o, p.remaining);
  }

  lemma NullIsSound(budget: nat)
    ensures Sound(Null, budget) && Sound(ZERO, budget)
  {
  }

  lemma KindIsPlain(heap: Heap, id: nat)
    requires PlainLexemes(heap)
    ensures KindOf(heap, id).Serializable? ==> id < |heap| && PlainNumber(KindOf(heap, id).result)
    ensures KindOf(heap, id).Enum? && KindOf(heap, id).c.BackedByString? ==>
              PlainNumber(Text(KindOf(heap, id).c.s, KindOf(heap, id).c.numeric))
  {
    assert id < |heap| ==> PlainNode(heap[id]);
  }

  lemma {:induction false} ElemsAreSound(s: Scene, id: nat, p: Place, quiet: bool)
    requires PlainLexemes(s.heap)
    ensures Sound(WalkElems(s, id, p, quiet).tree, p.remaining + 1)
    decreases p.remaining, Free(s.heap, p.guards), 6
  {
    var elems := Elems(s.heap, id);
    assert id < |s.heap| ==> PlainNode(s.heap[id]);
    if AsList(s, id) {
      ItemsAreSound(s, elems, |elems|, p, quiet);
      ArrIsSound(WalkItems(s, elems, |elems|, p, quiet).tree, p.remaining);
    } else {
      MembersAreSound(s, elems, |elems|, p, quiet);
      ObjIsSound(WalkMembers(s, elems, |elems|, p, quiet).tree, p.remaining);
    }
  }

  lemma {:induction false} ObjectIsSound(s: Scene, id: nat, p: Place, quiet: bool)
    requires PlainLexemes(s.heap)
    ensures Sound(WalkObject(s, id, p, quiet).tree, p.remaining)
    decreases p.remaining, Free(s.heap, p.guards), 2
  {
    NullIsSound(p.remaining);
    if p.remaining > 0 {
      ObjIsSound([], p.remaining - 1);
      if Props(s.heap, id).Some? && id !in p.marks {
        var props := Props(s.heap, id).value;
        assert id < |s.heap| ==> PlainNode(s.heap[id]);
        PropsAreSound(s, props, |props|, Inside(p, id), quiet);
        ObjIsSound(WalkProps(s, props, |props|, Inside(p, id), quiet).tree, p.remaining - 1);
      }
    }
    hide Sound;
  }

  lemma ItemAdded(ts: seq<Value>, t: Value, budget: nat)
    requires SoundItems(ts, budget) && Sound(t, budget)
    ensures SoundItems(ts + [t], budget)
  {
    hide Sound;
  }

  lemma MemberAdded(ts: seq<Entry<Value>>, t: Entry<Value>, budget: nat)
    requires SoundMembers(ts, budget) && WellFormed(t.key) && Sound(t.value, budget)
    ensures SoundMembers(ts + [t], budget)
  {
    hide Sound, WellFormed;
  }

  lemma {:induction false} ItemsAreSound(s: Scene, elems: seq<Elem>, n: nat, p: Place, quiet: bool)
    requires PlainLexemes(s.heap) && n <= |elems| && forall k :: 0 <= k < |elems| ==> PlainNumber(elems[k].value)
    ensures SoundItems(WalkItems(s, elems, n, p, quiet).tree, p.remaining)
    decreases p.remaining, Free(s.heap, p.guards), 5, n
  {
    if n > 0 {
      hide Walk, WalkItems, SoundItems, Sound, PlainNumber, PlainLexemes;
      var before := WalkItems(s, elems, n - 1, p, quiet);
      var hush := Quiet(s.o, quiet, before.errors);
      ItemsAreSound(s, elems, n - 1, p, quiet);
      WalkIsSound(s, elems[n - 1].value, p, hush);
      ItemsUnfolded(s, elems, n - 1, p, quiet);
      ItemAdded(before.tree, Walk(s, elems[n - 1].value, p, hush).tree, p.remaining);
    }
  }

  lemma {:induction false} MembersAreSound(s: Scene, elems: seq<Elem>, n: nat, p: Place, quiet: bool)
    requires PlainLexemes(s.heap) && n <= |elems| && forall k :: 0 <= k < |elems| ==> PlainNumber(elems[k].value)
    ensures SoundMembers(WalkMembers(s, elems, n, p, quiet).tree, p.remaining)
    decreases p.remaining, Free(s.heap, p.guards), 5, n
  {
    if n > 0 {
      hide Walk, WalkKey, WalkMembers, SoundMembers, Sound, WellFormed, PlainNumber, PlainLexemes;
      var before := WalkMembers(s, elems, n - 1, p, quiet);
      var hush := Quiet(s.o, quiet, before.errors);
      MembersAreSound(s, elems, n - 1, p, quiet);
      WalkIsSound(s, elems[n - 1].value, p, hush);
      KeyIsWellFormed(elems[n - 1].key, s.o);
      MembersUnfolded(s, elems, n - 1, p, quiet);
      MemberAdded(before.tree, WalkMember(s, elems[n - 1].key, elems[n - 1].value, p, hush).tree, p.remaining);
    }
  }

  lemma ShownIsPlain(prop: Prop, quiet: bool)
    requires PlainSlot(prop.slot)
    ensures Shown(prop, quiet).Some? ==> PlainNumber(Shown(prop, quiet).value)
  {
    hide PlainNumber;
  }

  lemma {:induction false} PropsAreSound(s: Scene, props: seq<Prop>, n: nat, p: Place, quiet: bool)
    requires PlainLexemes(s.heap) && n <= |props| && forall k :: 0 <= k < |props| ==> PlainSlot(props[k].slot)
    ensures SoundMembers(WalkProps(s, props, n, p, quiet).tree, p.remaining)
    decreases p.remaining, Free(s.heap, p.guards), 5, n
  {
    if n > 0 {
      hide Walk, WalkKey, WalkProps, SoundMembers, Sound, WellFormed, Shown, PlainNumber, PlainSlot, PlainLexemes;
      var before := WalkProps(s, props, n - 1, p, quiet);
      var hush := Quiet(s.o, quiet, before.errors);
      var shown := Shown(props[n - 1], hush);
      ShownIsPlain(props[n - 1], hush);
      PropsAreSound(s, props, n - 1, p, quiet);
      PropsUnfolded(s, props, n - 1, p, quiet);
      if shown.Some? {
        WalkIsSound(s, shown.value, p, hush);
        KeyIsWellFormed(props[n - 1].key, s.o);
        MemberAdded(before.tree, WalkMember(s, props[n - 1].key, shown.value, p, hush).tree, p.remaining);
      }
    }
  }
}
