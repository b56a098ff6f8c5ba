/** The depth test that runs before a recursive copy: an explicit stack of iterators that grows as needed. */
module DepthProbe {
  import opened Json

  function Size(v: Value): nat
    requires v.IsContainer()
  {
    if v.Arr? then |v.items| else |v.members|
  }

  function Child(v: Value, k: nat): Value
    requires v.IsContainer() && k < Size(v)
  {
    if v.Arr? then v.items[k] else v.members[k].value
  }

  lemma {:induction false} ItemsWithin(items: seq<Value>, n: nat, bound: nat)
    requires n <= |items| && bound > 0
    ensures DepthItems(items, n) < bound <==> forall k :: 0 <= k < n ==> Depth(items[k]) < bound
    decreases n
  {
    if n > 0 {
      ItemsWithin(items, n - 1, bound);
    }
  }

  lemma {:induction false} MembersWithin(members: seq<Entry<Value>>, n: nat, bound: nat)
    requires n <= |members| && bound > 0
    ensures DepthMembers(members, n) < bound <==> forall k :: 0 <= k < n ==> Depth(members[k].value) < bound
    decreases n
  {
    if n > 0 {
      MembersWithin(members, n - 1, bound);
    }
  }

  /** A container is as deep as its deepest child, and one more. */
  lemma ChildrenWithin(v: Value, bound: nat)
    requires v.IsContainer() && bound > 0
    ensures Depth(v) <= bound <==> forall k :: 0 <= k < Size(v) ==> Depth(Child(v, k)) < bound
  {
    if v.Arr? {
      ItemsWithin(v.items, |v.items|, bound);
      assert forall k :: 0 <= k < |v.items| ==> Child(v, k) == v.items[k];
    } else {
      MembersWithin(v.members, |v.members|, bound);
      assert forall k :: 0 <= k < |v.members| ==> Child(v, k) == v.members[k].value;
    }
  }

  /** `n` containers, each inside the one before. */
  ghost predicate Nested(v: Value, n: nat)
    decreases n
  {
    n == 0 || (v.IsContainer() && (n == 1 || exists k :: 0 <= k < Size(v) && Nested(Child(v, k), n - 1)))
  }

  /** Nesting depth is the length of the longest chain of containers inside one another. */
  lemma {:induction false} DepthIsLongestChain(v: Value, n: nat)
    ensures Depth(v) >= n <==> Nested(v, n)
    decreases n
  {
    if n == 1 {
      assert v.IsContainer() <==> Depth(v) >= 1;
    } else if n > 1 && v.IsContainer() {
      ChildrenWithin(v, n - 1);
      forall k | 0 <= k < Size(v) ensures Depth(Child(v, k)) >= n - 1 <==> Nested(Child(v, k), n - 1) {
        DepthIsLongestChain(Child(v, k), n - 1);
      }
      hide Depth;
    }
  }

  /** A container being iterated: the next child to look at. */
  datatype Frame = Frame(node: Value, next: nat)

  predicate FrameOk(f: Frame) {
    f.node.IsContainer() && f.next <= Size(f.node)
  }

  /** Turns left for what is below a frame's iterator: one per child, one to leave, and those of the children. */
  function FrameWork(f: Frame): nat
    requires FrameOk(f)
    decreases f.node, Size(f.node) - f.next
  {
    if f.next == Size(f.node) then 1
    else
      var child := Child(f.node, f.next);
      ChildIsSmaller(f.node, f.next);
      1 + FrameWork(Frame(f.node, f.next + 1)) + if child.IsContainer() then FrameWork(Frame(child, 0)) else 0
  }

  lemma ChildIsSmaller(v: Value, k: nat)
    requires v.IsContainer() && k < Size(v)
    ensures Child(v, k) < v
  {
    assert v.Arr? ==> v.items[k] < v;
    assert v.Obj? ==> v.members[k] < v;
  }

  function StackWork(fs: seq<Frame>): nat {
    if fs == [] || !FrameOk(fs[|fs| - 1]) then 0 else StackWork(fs[..|fs| - 1]) + FrameWork(fs[|fs| - 1])
  }

  /** The first `n` children nest less deep than `bound`. */
  predicate Shallow(v: Value, n: nat, bound: int)
    requires v.IsContainer() && n <= Size(v)
  {
    forall k :: 0 <= k < n ==> Depth(Child(v, k)) < bound
  }

  /** The frames above a container lead to it from the root, past children that are shallow enough. */
  predicate LeadsTo(fs: seq<Frame>, node: Value, root: Value, limit: nat) {
    if fs == [] then node == root
    else
      var f := fs[|fs| - 1];
      && FrameOk(f) && f.next > 0 && Child(f.node, f.next - 1) == node
      && Shallow(f.node, f.next - 1, limit - |fs|)
      && LeadsTo(fs[..|fs| - 1], f.node, root, limit)
  }

  predicate StackOk(fs: seq<Frame>, root: Value, limit: nat) {
    && 0 < |fs| < limit && FrameOk(fs[|fs| - 1])
    && Shallow(fs[|fs| - 1].node, fs[|fs| - 1].next, limit - |fs|)
    && LeadsTo(fs[..|fs| - 1], fs[|fs| - 1].node, root, limit)
  }

  lemma {:induction false} LeadIsDeep(fs: seq<Frame>, node: Value, root: Value, limit: nat)
    requires LeadsTo(fs, node, root, limit)
    ensures Depth(root) >= |fs| + Depth(node)
  {
    if fs != [] {
      var f := fs[|fs| - 1];
      LeadIsDeep(fs[..|fs| - 1], f.node, root, limit);
      ChildIsShallower(f.node, f.next - 1);
      hide Depth, Shallow;
    }
  }

  lemma ChildIsShallower(v: Value, k: nat)
    requires v.IsContainer() && k < Size(v)
    ensures Depth(Child(v, k)) < Depth(v)
  {
    assert Depth(v) > 0;
    ChildrenWithin(v, Depth(v));
  }

  function Advanced(f: Frame): Frame { f.(next := f.next + 1) }

  /** A scalar child is passed. */
  lemma Skip(fs: seq<Frame>, f: Frame, root: Value, limit: nat)
    requires StackOk(fs + [f], root, limit) && f.next < Size(f.node) && !Child(f.node, f.next).IsContainer()
    ensures StackOk(fs + [Advanced(f)], root, limit)
    ensures StackWork(fs + [Advanced(f)]) < StackWork(fs + [f])
  {
    assert (fs + [f])[..|fs|] == fs && (fs + [Advanced(f)])[..|fs|] == fs;
    assert Depth(Child(f.node, f.next)) == 0;
    hide LeadsTo, Depth;
  }

  /** A container child is entered if the limit allows, and is evidence against the limit if not. */
  lemma Descend(fs: seq<Frame>, f: Frame, root: Value, limit: nat)
    requires StackOk(fs + [f], root, limit) && f.next < Size(f.node) && Child(f.node, f.next).IsContainer()
    ensures var entered := fs + [Advanced(f)] + [Frame(Child(f.node, f.next), 0)];
            |fs| + 2 < limit ==> StackOk(entered, root, limit) && StackWork(entered) < StackWork(fs + [f])
    ensures |fs| + 2 >= limit ==> Depth(root) >= limit
  {
    var moved, child := fs + [Advanced(f)], Child(f.node, f.next);
    assert (fs + [f])[..|fs|] == fs && moved[..|fs|] == fs;
    assert (moved + [Frame(child, 0)])[..|moved|] == moved;
    assert Depth(child) > 0;
    LeadIsDeep(fs, f.node, root, limit);
    ChildIsShallower(f.node, f.next);
    hide Depth;
    assert LeadsTo(moved, child, root, limit);
  }

  /** An exhausted container is left: its parent has passed it, or the root is shallow. */
  lemma Leave(fs: seq<Frame>, f: Frame, root: Value, limit: nat)
    requires StackOk(fs + [f], root, limit) && f.next == Size(f.node)
    ensures fs == [] ==> Depth(root) < limit
    ensures fs != [] ==> StackOk(fs, root, limit) && StackWork(fs) < StackWork(fs + [f])
  {
    assert (fs + [f])[..|fs|] == fs;
    ChildrenWithin(f.node, limit - |fs| - 1);
    hide Depth;
    assert Depth(f.node) < limit - |fs|;
  }

  lemma RootIsOk(root: Value, limit: nat)
    requires root.IsContainer() && limit > 1
    ensures StackOk([Frame(root, 0)], root, limit)
  {
    assert [Frame(root, 0)][..0] == [];
    hide Depth;
  }

  lemma TopIsOk(fs: seq<Frame>, f: Frame, root: Value, limit: nat)
    requires StackOk(fs + [f], root, limit)
    ensures FrameOk(f)
  {
    hide Shallow, LeadsTo;
  }

  /** Twice the room, with the frames below `top` carried over. */
  method Grow(stack: array<Frame>, top: nat) returns (bigger: array<Frame>)
    requires 0 < top <= stack.Length
    ensures fresh(bigger) && bigger.Length == 2 * stack.Length
    ensures bigger[..top] == stack[..top]
  {
    bigger := new Frame[2 * stack.Length];
    forall i | 0 <= i < top {
      bigger[i] := stack[i];
    }
  }

  /** One frame more, in a larger stack if it has to be. */
  method Push(stack: array<Frame>, top: nat, f: Frame) returns (stack': array<Frame>)
    requires 0 < top <= stack.Length
    modifies stack
    ensures stack' == stack || fresh(stack')
    ensures top < stack'.Length && stack'[..top + 1] == old(stack[..top]) + [f]
  {
    stack' := stack;
    if top == stack.Length {
      stack' := Grow(stack, top);
    }
    stack'[top] := f;
  }

  /** Whether a tree nests at least `limit` deep, found without recursion and without visiting deeper than that. */
  method DepthReaches(root: Value, limit: nat) returns (reached: bool)
    ensures reached <==> Depth(root) >= limit
  {
    if limit == 0 {
      return true;
    }
    if !root.IsContainer() {
      return false;
    }
    if limit == 1 {
      return true;
    }
    var stack := new Frame[16];
    var top, depth := 0, 1;
    stack[0] := Frame(root, 0);
    reached := false;
    RootIsOk(root, limit);
    assert stack[..1] == [Frame(root, 0)];
    hide Depth, Shallow, LeadsTo, StackWork, FrameWork, StackOk;
    while true
      invariant depth == top + 1 < limit && top < stack.Length && !reached && fresh(stack)
      invariant StackOk(stack[..top + 1], root, limit)
      decreases StackWork(stack[..top + 1])
    {
      ghost var below := stack[..top];
      var f := stack[top];
      assert stack[..top + 1] == below + [f];
      TopIsOk(below, f, root, limit);
      if f.next == Size(f.node) {
        Leave(below, f, root, limit);
        if top == 0 {
          break;
        }
        top, depth := top - 1, depth - 1;
        assert stack[..top + 1] == below;
        continue;
      }
      var child := Child(f.node, f.next);
      stack[top] := Advanced(f);
      assert stack[..top + 1] == below + [Advanced(f)];
      if !child.IsContainer() {
        Skip(below, f, root, limit);
        continue;
      }
      Descend(below, f, root, limit);
      if depth + 1 >= limit {
        reached := true;
        break;
      }
      stack := Push(stack, top + 1, Frame(child, 0));
      top, depth := top + 1, depth + 1;
    }
  }
}
