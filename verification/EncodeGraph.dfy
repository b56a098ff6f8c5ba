/** On plain arrays and objects, sharing and cycles are told apart: only a reachable cycle is recursion. */
module EncodeGraph {
  import opened ByteStrings
  import opened EncodeMeaning
  import opened EncodeVisible
  import opened Encoding
  import opened Json
  import opened PhpHeap
  import opened Wrappers
  import Encoder
  import StringWriter

  // ---------------------------------------------------------------- the graph

  function RefOf(v: Data): Option<nat> {
    match v
    case Array(id) => Some(id)
    case Object(id) => Some(id)
    case _ => None
  }

  /** What a container holds. */
  function Contents(heap: Heap, id: nat): seq<Elem>
    requires id < |heap|
  {
    match heap[id]
    case ArrayNode(elems) => elems
    case ObjectNode(_, props) => if props.None? then [] else VisibleProps(props.value, |props.value|)
  }

  ghost predicate Edge(heap: Heap, a: nat, b: nat) {
    a < |heap| && exists k :: 0 <= k < |Contents(heap, a)| && RefOf(Contents(heap, a)[k].value) == Some(b)
  }

  ghost predicate IsPath(heap: Heap, p: seq<nat>) {
    forall i, j :: 0 <= i < j < |p| && j == i + 1 ==> Edge(heap, p[i], p[j])
  }

  ghost predicate Repeats(p: seq<nat>) {
    exists i, j :: 0 <= i < j < |p| && p[i] == p[j]
  }

  /** From `v`, some path comes back to a container it, or `path` before it, has already been in. */
  ghost predicate ComesBack(heap: Heap, path: seq<nat>, v: Data) {
    exists q: seq<nat> :: q != [] && RefOf(v) == Some(q[0]) && IsPath(heap, q) && Repeats(path + q)
  }

  ghost predicate CycleReachable(heap: Heap, v: Data) {
    exists q: seq<nat> :: q != [] && RefOf(v) == Some(q[0]) && IsPath(heap, q) && Repeats(q)
  }

  // ---------------------------------------------------------------- plain heaps

  /** A reference to a container of its own kind, or a scalar with a text. */
  ghost predicate PlainData(s: Scene, v: Data) {
    match v
    case Array(id) => id < |s.heap| && s.heap[id].ArrayNode?
    case Object(id) => id < |s.heap| && s.heap[id].ObjectNode?
    case _ => WalkScalar(v, s.o).errors == []
  }

  /** Arrays, and objects that are neither serializable nor enums, of encodable keys and plain values. */
  ghost predicate PlainHeap(s: Scene) {
    forall id, k :: 0 <= id < |s.heap| && 0 <= k < |Contents(s.heap, id)| ==>
      WalkKey(Contents(s.heap, id)[k].key, s.o).errors == [] && PlainData(s, Contents(s.heap, id)[k].value)
  }

  ghost predicate PlainObjects(s: Scene) {
    forall id :: 0 <= id < |s.heap| && s.heap[id].ObjectNode? ==> s.heap[id].kind.Plain?
  }

  /** An object without a property table is printed before it could be marked. */
  ghost predicate Markable(heap: Heap, id: nat) {
    id < |heap| && (heap[id].ObjectNode? ==> heap[id].props.Some?)
  }

  /** The containers being walked: distinct ones of the heap. */
  ghost predicate Route(heap: Heap, path: seq<nat>) {
    !Repeats(path) && forall i :: 0 <= i < |path| ==> Markable(heap, path[i])
  }

  function Marked(path: seq<nat>): set<nat> {
    set id | id in path
  }

  lemma {:induction false} RouteIsShort(heap: Heap, path: seq<nat>)
    requires Route(heap, path)
    ensures |Marked(path)| == |path| <= |heap|
  {
    MarkedSize(path);
    SubsetSize(Marked(path), Below(|heap|));
  }

  lemma {:induction false} MarkedSize(path: seq<nat>)
    requires !Repeats(path)
    ensures |Marked(path)| == |path|
  {
    if path != [] {
      var front, last := path[..|path| - 1], path[|path| - 1];
      assert forall i, j :: 0 <= i < j < |front| ==> front[i] == path[i] && front[j] == path[j];
      MarkedSize(front);
      assert last !in front;
      assert Marked(path) == Marked(front) + {last};
    }
  }

  lemma {:induction false} SubsetSize(a: set<nat>, b: set<nat>)
    requires a <= b
    ensures |a| <= |b|
    decreases |a|
  {
    if a != {} {
      var x :| x in a;
      SubsetSize(a - {x}, b - {x});
    }
  }

  // ---------------------------------------------------------------- coming back, one step at a time

  lemma AlreadyBack(heap: Heap, path: seq<nat>, v: Data)
    requires RefOf(v).Some? && RefOf(v).value in path
    ensures ComesBack(heap, path, v)
  {
    var id := RefOf(v).value;
    var i :| 0 <= i < |path| && path[i] == id;
    assert (path + [id])[i] == (path + [id])[|path|];
    assert Repeats(path + [id]) && IsPath(heap, [id]);
  }

  lemma ScalarsDoNot(heap: Heap, path: seq<nat>, v: Data)
    requires RefOf(v).None?
    ensures !ComesBack(heap, path, v)
  {
  }

  /** Entering a container, one comes back iff one does through something it holds. */
  lemma BackThrough(heap: Heap, path: seq<nat>, v: Data, id: nat)
    requires RefOf(v) == Some(id) && id < |heap| && id !in path && !Repeats(path)
    ensures ComesBack(heap, path, v)
       <==> exists k :: 0 <= k < |Contents(heap, id)| && ComesBack(heap, path + [id], Contents(heap, id)[k].value)
  {
    if ComesBack(heap, path, v) {
      var q: seq<nat> :| q != [] && RefOf(v) == Some(q[0]) && IsPath(heap, q) && Repeats(path + q);
      BackDown(heap, path, id, q);
    }
    if k :| 0 <= k < |Contents(heap, id)| && ComesBack(heap, path + [id], Contents(heap, id)[k].value) {
      var u := Contents(heap, id)[k].value;
      var q: seq<nat> :| q != [] && RefOf(u) == Some(q[0]) && IsPath(heap, q) && Repeats(path + [id] + q);
      BackUp(heap, path, id, k, q);
    }
  }

  lemma NoRepeatYet(path: seq<nat>, id: nat)
    requires !Repeats(path) && id !in path
    ensures !Repeats(path + [id])
  {
    forall i, j | 0 <= i < j < |path + [id]|
      ensures (path + [id])[i] != (path + [id])[j]
    {
      assert j < |path| ==> path[i] != path[j];
    }
  }

  lemma BackDown(heap: Heap, path: seq<nat>, id: nat, q: seq<nat>)
    requires id < |heap| && id !in path && !Repeats(path)
    requires q != [] && q[0] == id && IsPath(heap, q) && Repeats(path + q)
    ensures exists k :: 0 <= k < |Contents(heap, id)| && ComesBack(heap, path + [id], Contents(heap, id)[k].value)
  {
    assert |q| == 1 ==> path + q == path + [id];
    NoRepeatYet(path, id);
    var rest := q[1..];
    assert path + q == path + [id] + rest;
    assert Edge(heap, q[0], q[1]);
    var k :| 0 <= k < |Contents(heap, id)| && RefOf(Contents(heap, id)[k].value) == Some(q[1]);
    assert IsPath(heap, rest) by {
      forall a, b | 0 <= a < b < |rest| && b == a + 1 ensures Edge(heap, rest[a], rest[b]) {
        assert Edge(heap, q[a + 1], q[b + 1]);
      }
    }
    assert ComesBack(heap, path + [id], Contents(heap, id)[k].value);
  }

  lemma BackUp(heap: Heap, path: seq<nat>, id: nat, k: nat, q: seq<nat>)
    requires id < |heap| && k < |Contents(heap, id)| && q != [] && RefOf(Contents(heap, id)[k].value) == Some(q[0])
    requires IsPath(heap, q) && Repeats(path + [id] + q)
    ensures exists r: seq<nat> :: r != [] && r[0] == id && IsPath(heap, r) && Repeats(path + r)
  {
    var r := [id] + q;
    assert path + r == path + [id] + q;
    assert Edge(heap, id, q[0]);
    forall a, b | 0 <= a < b < |r| && b == a + 1 ensures Edge(heap, r[a], r[b]) {
      assert a > 0 ==> Edge(heap, q[a - 1], q[b - 1]);
    }
    assert IsPath(heap, r);
  }

  // ---------------------------------------------------------------- the traversal finds exactly the cycles

  predicate OnlyRecursion(errors: seq<Error>) {
    forall e :: e in errors ==> e == RecursionError
  }

  lemma {:induction false} WalkPlain(s: Scene, v: Data, p: Place, path: seq<nat>)
    requires PlainHeap(s) && PlainObjects(s) && PlainData(s, v)
    requires Route(s.heap, path) && p.marks == Marked(path) && p.remaining + |path| > |s.heap|
    ensures OnlyRecursion(Walk(s, v, p, false).errors)
    ensures Walk(s, v, p, false).errors == [] <==> !ComesBack(s.heap, path, v)
    decreases p.remaining, 1
  {
    RouteIsShort(s.heap, path);
    if RefOf(v).None? {
      ScalarsDoNot(s.heap, path, v);
    } else {
      var id := RefOf(v).value;
      if !Markable(s.heap, id) {
        BackThrough(s.heap, path, v, id);
        BareWalk(s, v, id, p);
      } else if id in path {
        AlreadyBack(s.heap, path, v);
        MarkedWalk(s, v, p);
      } else {
        NoRepeatYet(path, id);
        assert Marked(path + [id]) == p.marks + {id};
        RouteIsShort(s.heap, path + [id]);
        BackThrough(s.heap, path, v, id);
        InsidePlain(s, v, id, Inside(p, id), path + [id]);
        EnteredWalk(s, v, id, p);
      }
    }
  }

  /** The errors of a container's contents. */
  function ContentErrors(s: Scene, v: Data, id: nat, p: Place): seq<Error>
    requires id < |s.heap|
  {
    var elems := Contents(s.heap, id);
    if v.Array? && AsList(s, id) then WalkItems(s, elems, |elems|, p, false).errors
    else WalkMembers(s, elems, |elems|, p, false).errors
  }

  lemma BareWalk(s: Scene, v: Data, id: nat, p: Place)
    requires PlainObjects(s) && PlainData(s, v) && p.remaining > 0 && RefOf(v) == Some(id) && !Markable(s.heap, id)
    ensures Walk(s, v, p, false) == Walked([], Obj([])) && Contents(s.heap, id) == []
  {
  }

  lemma MarkedWalk(s: Scene, v: Data, p: Place)
    requires PlainObjects(s) && PlainData(s, v) && p.remaining > 0
    requires RefOf(v).Some? && RefOf(v).value in p.marks && Markable(s.heap, RefOf(v).value)
    ensures Walk(s, v, p, false).errors == [RecursionError]
  {
  }

  lemma EnteredWalk(s: Scene, v: Data, id: nat, p: Place)
    requires PlainObjects(s) && PlainData(s, v) && p.remaining > 0 && RefOf(v) == Some(id) && id !in p.marks
    requires OnlyRecursion(ContentErrors(s, v, id, Inside(p, id)))
    ensures Walk(s, v, p, false).errors == ContentErrors(s, v, id, Inside(p, id))
  {
    if v.Object? && Props(s.heap, id).Some? {
      PropsAreElems(s, Props(s.heap, id).value, |Props(s.heap, id).value|, Inside(p, id));
    }
    hide WalkItems, WalkMembers, WalkProps;
  }

  lemma {:induction false} InsidePlain(s: Scene, v: Data, id: nat, p: Place, path: seq<nat>)
    requires PlainHeap(s) && PlainObjects(s) && id < |s.heap|
    requires Route(s.heap, path) && p.marks == Marked(path) && p.remaining + |path| > |s.heap|
    ensures OnlyRecursion(ContentErrors(s, v, id, p))
    ensures ContentErrors(s, v, id, p) == []
       <==> NoneComeBack(s.heap, path, Contents(s.heap, id), |Contents(s.heap, id)|)
    decreases p.remaining, 3
  {
    var elems := Contents(s.heap, id);
    if v.Array? && AsList(s, id) {
      ItemsPlain(s, id, |elems|, p, path);
    } else {
      MembersPlain(s, id, |elems|, p, path);
    }
  }

  /** Through none of the first `n` elements one comes back. */
  ghost predicate NoneComeBack(heap: Heap, path: seq<nat>, elems: seq<Elem>, n: nat)
    requires n <= |elems|
  {
    forall k :: 0 <= k < n ==> !ComesBack(heap, path, elems[k].value)
  }

  lemma NoneComeBackStep(heap: Heap, path: seq<nat>, elems: seq<Elem>, n: nat)
    requires 0 < n <= |elems|
    ensures NoneComeBack(heap, path, elems, n)
       <==> NoneComeBack(heap, path, elems, n - 1) && !ComesBack(heap, path, elems[n - 1].value)
  {
    hide ComesBack;
  }

  lemma OnlyRecursionAppend(a: seq<Error>, b: seq<Error>)
    requires OnlyRecursion(a) && OnlyRecursion(b)
    ensures OnlyRecursion(a + b) && NonFinite !in a
  {
  }

  lemma {:induction false} ItemsPlain(s: Scene, id: nat, n: nat, p: Place, path: seq<nat>)
    requires PlainHeap(s) && PlainObjects(s) && id < |s.heap| && n <= |Contents(s.heap, id)|
    requires Route(s.heap, path) && p.marks == Marked(path) && p.remaining + |path| > |s.heap|
    ensures OnlyRecursion(WalkItems(s, Contents(s.heap, id), n, p, false).errors)
    ensures WalkItems(s, Contents(s.heap, id), n, p, false).errors == []
       <==> NoneComeBack(s.heap, path, Contents(s.heap, id), n)
    decreases p.remaining, 2, n
  {
    if n > 0 {
      hide Walk, WalkItems, ComesBack, Contents, Route, Marked, OnlyRecursion, NoneComeBack;
      var elems := Contents(s.heap, id);
      ItemsPlain(s, id, n - 1, p, path);
      WalkPlain(s, elems[n - 1].value, p, path);
      OnlyRecursionAppend(WalkItems(s, elems, n - 1, p, false).errors, Walk(s, elems[n - 1].value, p, false).errors);
      ItemsUnfolded(s, elems, n - 1, p, false);
      NoneComeBackStep(s.heap, path, elems, n);
    }
  }

  lemma {:induction false} MembersPlain(s: Scene, id: nat, n: nat, p: Place, path: seq<nat>)
    requires PlainHeap(s) && PlainObjects(s) && id < |s.heap| && n <= |Contents(s.heap, id)|
    requires Route(s.heap, path) && p.marks == Marked(path) && p.remaining + |path| > |s.heap|
    ensures OnlyRecursion(WalkMembers(s, Contents(s.heap, id), n, p, false).errors)
    ensures WalkMembers(s, Contents(s.heap, id), n, p, false).errors == []
       <==> NoneComeBack(s.heap, path, Contents(s.heap, id), n)
    decreases p.remaining, 2, n
  {
    if n > 0 {
      hide Walk, WalkMembers, WalkKey, ComesBack, Contents, Route, Marked, OnlyRecursion, NoneComeBack;
      var elems := Contents(s.heap, id);
      MembersPlain(s, id, n - 1, p, path);
      WalkPlain(s, elems[n - 1].value, p, path);
      MemberErrors(s, elems[n - 1], p);
      OnlyRecursionAppend(WalkMembers(s, elems, n - 1, p, false).errors, Walk(s, elems[n - 1].value, p, false).errors);
      MembersUnfolded(s, elems, n - 1, p, false);
      NoneComeBackStep(s.heap, path, elems, n);
    }
  }

  /** With an encodable key, a member's errors are its value's. */
  lemma MemberErrors(s: Scene, e: Elem, p: Place)
    requires WalkKey(e.key, s.o).errors == []
    ensures WalkMember(s, e.key, e.value, p, false).errors == Walk(s, e.value, p, false).errors
  {
    hide Walk, WalkKey;
  }

  // ---------------------------------------------------------------- the theorem

  /**
   * With more levels than there are containers, encoding a plain graph meets no error unless a cycle can be
   * reached, and nothing but recursion if one can. Without a cycle the tree printed is the graph unfolded,
   * however much of it is shared.
   */
  lemma RecursionIffCycle(s: Scene, v: Data, depth: nat)
    requires PlainHeap(s) && PlainObjects(s) && PlainData(s, v) && depth > |s.heap|
    ensures var w := Walk(s, v, Place(depth, {}, {}), false);
            && (w.errors == [] <==> !CycleReachable(s.heap, v))
            && (CycleReachable(s.heap, v) ==>
                Reported(w.errors) == RecursionError && LastError(NoError, w.errors) == RecursionError)
            && (!CycleReachable(s.heap, v) ==> Unfolds(s, v, w.tree))
  {
    var p := Place(depth, {}, {});
    WalkPlain(s, v, p, []);
    var w := Walk(s, v, p, false);
    assert ComesBack(s.heap, [], v) <==> CycleReachable(s.heap, v) by {
      assert forall q: seq<nat> :: [] + q == q;
    }
    if w.errors == [] {
      WalkUnfolds(s, v, p);
    } else {
      assert w.errors[0] in w.errors && w.errors[|w.errors| - 1] in w.errors;
      RecursionIsHard(w.errors);
    }
  }

  /**
   * The encoder itself, on a plain graph that leaves it levels and room enough: it reports recursion exactly
   * when a cycle can be reached, and otherwise succeeds with the text of the graph unfolded.
   */
  lemma EncodingFindsCycles(s: Scene, v: Data, depth: nat, tuning: StringWriter.Tuning, maxLen: nat, ok: bool,
                            text: Bytes, error: Error)
    requires PlainHeap(s) && PlainObjects(s) && PlainData(s, v) && depth > |s.heap|
    requires Encoder.Outcome(s.heap, v, depth, s.o, tuning, maxLen, ok, text, error)
    requires |Print(Walk(s, v, Place(depth, {}, {}), false).tree, 0, s.o.style)|
             + Encoder.Reserve(LongestRaw(s.heap, v), tuning) <= maxLen
    ensures error == if CycleReachable(s.heap, v) then RecursionError else NoError
    ensures ok <==> s.o.partial || !CycleReachable(s.heap, v)
    ensures !CycleReachable(s.heap, v) ==> exists t :: Unfolds(s, v, t) && text == Print(t, 0, s.o.style)
  {
    RecursionIffCycle(s, v, depth);
    hide PlainHeap, PlainData, CycleReachable, Unfolds, Walk, Print, FirstHard, LongestRaw;
  }

  lemma {:induction false} RecursionIsHard(errors: seq<Error>)
    requires errors != [] && OnlyRecursion(errors)
    ensures FirstHard(errors) == RecursionError
  {
    var front := errors[..|errors| - 1];
    assert errors[|errors| - 1] in errors && forall e :: e in front ==> e in errors;
    if front != [] {
      RecursionIsHard(front);
    }
  }
}
