/** PHP values as the encoder meets them: a heap of arrays and objects that may be shared and cyclic. */
module PhpHeap {
  import opened ByteStrings
  import opened PointerText
  import opened Wrappers

  datatype Key = Index(i: int) | Name(s: Bytes)

  /** A string carries the finite number `is_numeric_string` would find in it, as the encoder would spell it. */
  datatype Data =
    | Nil
    | Truth(b: bool)
    | Long(n: int)
    | Double(lexeme: Bytes, finite: bool)
    | Text(s: Bytes, numeric: Option<Bytes>)
    | Array(id: nat)
    | Object(id: nat)
    | Resource

  datatype Elem = Elem(key: Key, value: Data)

  /**
   * What an object's property table holds for a name: a value, nothing yet, a virtual property without a
   * getter, or a getter with the value it returns (none if it leaves the property uninitialised).
   */
  datatype Slot = Held(value: Data) | Undef | NoGetter | Hooked(returned: Option<Data>)

  datatype Prop = Prop(key: Key, slot: Slot)

  datatype EnumCase = Unbacked | BackedByInt(n: int) | BackedByString(s: Bytes, numeric: Option<Bytes>)

  /** A serializable object comes with what its `jsonSerialize()` returns. */
  datatype Kind = Plain | Serializable(result: Data) | Enum(c: EnumCase)

  datatype Node = ArrayNode(elems: seq<Elem>) | ObjectNode(kind: Kind, props: Option<seq<Prop>>)

  type Heap = seq<Node>

  /** The elements of an array; a reference to nothing reads as an empty one. */
  function Elems(heap: Heap, id: nat): seq<Elem> {
    if id < |heap| && heap[id].ArrayNode? then heap[id].elems else []
  }

  function KindOf(heap: Heap, id: nat): Kind {
    if id < |heap| && heap[id].ObjectNode? then heap[id].kind else Plain
  }

  function Props(heap: Heap, id: nat): Option<seq<Prop>> {
    if id < |heap| && heap[id].ObjectNode? then heap[id].props else None
  }

  /** `zend_array_is_list` */
  predicate IsList(elems: seq<Elem>) {
    forall k :: 0 <= k < |elems| ==> elems[k].key == Index(k)
  }

  /** Private and protected properties carry a name that starts with a NUL byte. */
  predicate Mangled(key: Key) {
    key.Name? && |key.s| > 0 && key.s[0] == 0
  }

  function IntText(n: int): Bytes {
    if n < 0 then [MINUS] + Decimal(-n) else Decimal(n)
  }

  const MINUS: Byte := 0x2D

  /** The numbers below `n`. */
  function Below(n: nat): (r: set<nat>)
    ensures forall i: nat :: i in r <==> i < n
    ensures |r| == n
  {
    if n == 0 then {} else Below(n - 1) + {n - 1}
  }

  function Ids(heap: Heap): set<nat> {
    Below(|heap|)
  }

  // ---------------------------------------------------------------- how long strings are

  predicate ShortKey(key: Key, n: nat) {
    key.Name? ==> |key.s| <= n
  }

  predicate ShortData(v: Data, n: nat) {
    v.Text? ==> |v.s| <= n
  }

  predicate ShortElems(elems: seq<Elem>, n: nat) {
    forall k :: 0 <= k < |elems| ==> ShortKey(elems[k].key, n) && ShortData(elems[k].value, n)
  }

  predicate ShortProp(prop: Prop, n: nat) {
    && ShortKey(prop.key, n)
    && match prop.slot
       case Held(value) => ShortData(value, n)
       case Hooked(Some(value)) => ShortData(value, n)
       case _ => true
  }

  predicate ShortProps(props: seq<Prop>, n: nat) {
    forall k :: 0 <= k < |props| ==> ShortProp(props[k], n)
  }

  predicate ShortKind(kind: Kind, n: nat) {
    match kind
    case Serializable(result) => ShortData(result, n)
    case Enum(BackedByString(s, _)) => |s| <= n
    case _ => true
  }

  predicate ShortNode(node: Node, n: nat) {
    match node
    case ArrayNode(elems) => ShortElems(elems, n)
    case ObjectNode(kind, props) => ShortKind(kind, n) && (props.Some? ==> ShortProps(props.value, n))
  }

  /** No string or key of the heap has more than `n` bytes. */
  predicate ShortHeap(heap: Heap, n: nat) {
    forall id :: 0 <= id < |heap| ==> ShortNode(heap[id], n)
  }

  lemma ShortInside(heap: Heap, id: nat, n: nat)
    requires ShortHeap(heap, n)
    ensures ShortElems(Elems(heap, id), n) && ShortKind(KindOf(heap, id), n)
    ensures Props(heap, id).Some? ==> ShortProps(Props(heap, id).value, n)
  {
    assert id < |heap| ==> ShortNode(heap[id], n);
    hide ShortElems, ShortKind, ShortProps;
  }

  function KeyLen(key: Key): nat {
    if key.Name? then |key.s| else 0
  }

  function DataLen(v: Data): nat {
    if v.Text? then |v.s| else 0
  }

  function ElemsLen(elems: seq<Elem>): nat {
    if elems == [] then 0
    else Max(ElemsLen(elems[..|elems| - 1]), Max(KeyLen(elems[|elems| - 1].key), DataLen(elems[|elems| - 1].value)))
  }

  function PropLen(prop: Prop): nat {
    match prop.slot
    case Held(value) => Max(KeyLen(prop.key), DataLen(value))
    case Hooked(Some(value)) => Max(KeyLen(prop.key), DataLen(value))
    case _ => KeyLen(prop.key)
  }

  function PropsLen(props: seq<Prop>): nat {
    if props == [] then 0 else Max(PropsLen(props[..|props| - 1]), PropLen(props[|props| - 1]))
  }

  function KindLen(kind: Kind): nat {
    match kind
    case Serializable(result) => DataLen(result)
    case Enum(BackedByString(s, _)) => |s|
    case _ => 0
  }

  function NodeLen(node: Node): nat {
    match node
    case ArrayNode(elems) => ElemsLen(elems)
    case ObjectNode(kind, props) => Max(KindLen(kind), if props.Some? then PropsLen(props.value) else 0)
  }

  function HeapLen(heap: Heap): nat {
    if heap == [] then 0 else Max(HeapLen(heap[..|heap| - 1]), NodeLen(heap[|heap| - 1]))
  }

  /** The length of the longest string or key an encoding of `v` can meet. */
  function LongestRaw(heap: Heap, v: Data): nat {
    Max(HeapLen(heap), DataLen(v))
  }

  lemma {:induction false} ElemsLenIsLeast(elems: seq<Elem>, n: nat)
    ensures ElemsLen(elems) <= n <==> ShortElems(elems, n)
  {
    if elems != [] {
      ElemsLenIsLeast(elems[..|elems| - 1], n);
      assert forall k :: 0 <= k < |elems| - 1 ==> elems[..|elems| - 1][k] == elems[k];
    }
  }

  lemma {:induction false} PropsLenIsLeast(props: seq<Prop>, n: nat)
    ensures PropsLen(props) <= n <==> ShortProps(props, n)
  {
    if props != [] {
      PropsLenIsLeast(props[..|props| - 1], n);
      assert PropLen(props[|props| - 1]) <= n <==> ShortProp(props[|props| - 1], n);
      hide PropLen, ShortProp;
      assert forall k :: 0 <= k < |props| - 1 ==> props[..|props| - 1][k] == props[k];
    }
  }

  lemma {:induction false} HeapLenIsLeast(heap: Heap, n: nat)
    ensures HeapLen(heap) <= n <==> ShortHeap(heap, n)
  {
    if heap != [] {
      var node := heap[|heap| - 1];
      HeapLenIsLeast(heap[..|heap| - 1], n);
      NodeLenIsLeast(node, n);
      hide NodeLen, ShortNode;
      assert forall k :: 0 <= k < |heap| - 1 ==> heap[..|heap| - 1][k] == heap[k];
    }
  }

  lemma NodeLenIsLeast(node: Node, n: nat)
    ensures NodeLen(node) <= n <==> ShortNode(node, n)
  {
    match node
    case ArrayNode(elems) => ElemsLenIsLeast(elems, n);
    case ObjectNode(kind, props) =>
      if props.Some? {
        PropsLenIsLeast(props.value, n);
      }
  }

  /** It is the least bound there is. */
  lemma LongestRawIsLeast(heap: Heap, v: Data, n: nat)
    ensures LongestRaw(heap, v) <= n <==> ShortHeap(heap, n) && ShortData(v, n)
  {
    HeapLenIsLeast(heap, n);
    hide HeapLen, ShortHeap;
  }
}
