/** Insertion-ordered maps held as member lists: a PHP array with string keys, or a JSON object without duplicates. */
module OrderedMap {
  import opened ByteStrings
  import opened Json
  import opened Wrappers

  predicate Distinct<V>(es: seq<Entry<V>>) {
    forall i, j :: 0 <= i < j < |es| ==> es[i].key != es[j].key
  }

  predicate HasKey<V>(es: seq<Entry<V>>, key: Bytes) {
    exists i :: 0 <= i < |es| && es[i].key == key
  }

  /** Where `key` first occurs, or the length. */
  function Find<V>(es: seq<Entry<V>>, key: Bytes): (i: nat)
    ensures i <= |es|
    ensures i < |es| ==> es[i].key == key
    ensures forall j :: 0 <= j < i ==> es[j].key != key
  {
    if es == [] then 0
    else
      var i := Find(es[..|es| - 1], key);
      if i < |es| - 1 || es[i].key == key then i else i + 1
  }

  function Lookup<V>(es: seq<Entry<V>>, key: Bytes): Option<V> {
    var i := Find(es, key);
    if i < |es| then Some(es[i].value) else None
  }

  /** A present key keeps its place and takes the new value; a new key goes last. */
  function Upsert<V>(es: seq<Entry<V>>, key: Bytes, value: V): seq<Entry<V>> {
    var i := Find(es, key);
    if i < |es| then es[i := Entry(key, value)] else es + [Entry(key, value)]
  }

  function Remove<V>(es: seq<Entry<V>>, key: Bytes): seq<Entry<V>> {
    var i := Find(es, key);
    if i < |es| then es[..i] + es[i + 1..] else es
  }

  /** Duplicates resolved: the first occurrence gives the place, the last one the value. */
  function Canon<V>(es: seq<Entry<V>>): (c: seq<Entry<V>>)
    ensures Distinct(c)
    ensures forall e :: e in c ==> e in es
    ensures forall key :: HasKey(c, key) <==> HasKey(es, key)
    ensures |c| <= |es|
  {
    if es == [] then []
    else
      var last := es[|es| - 1];
      var c := Canon(es[..|es| - 1]);
      UpsertKeys(c, last.key, last.value);
      UpsertMembers(c, es, last);
      Upsert(c, last.key, last.value)
  }

  lemma UpsertKeys<V>(es: seq<Entry<V>>, key: Bytes, value: V)
    requires Distinct(es)
    ensures Distinct(Upsert(es, key, value))
    ensures forall other :: HasKey(Upsert(es, key, value), other) <==> other == key || HasKey(es, other)
  {
    var i, u := Find(es, key), Upsert(es, key, value);
    assert u[i] == Entry(key, value);
    forall other | HasKey(es, other) ensures HasKey(u, other) {
      var j :| 0 <= j < |es| && es[j].key == other;
      assert u[j].key == other;
    }
  }

  lemma UpsertMembers<V>(c: seq<Entry<V>>, es: seq<Entry<V>>, last: Entry<V>)
    requires es != [] && last == es[|es| - 1]
    requires forall e :: e in c ==> e in es[..|es| - 1]
    requires forall key :: HasKey(c, key) <==> HasKey(es[..|es| - 1], key)
    ensures forall e :: e in Upsert(c, last.key, last.value) ==> e in es
    ensures forall key :: HasKey(es, key) <==> key == last.key || HasKey(c, key)
  {
    forall e | e in Upsert(c, last.key, last.value) ensures e in es {
      if e != last {
        assert e in c;
        assert e in es[..|es| - 1];
      }
    }
    forall key | HasKey(es, key) ensures key == last.key || HasKey(c, key) {
      var j :| 0 <= j < |es| && es[j].key == key;
      if j < |es| - 1 {
        assert es[..|es| - 1][j].key == key;
      }
    }
    forall key | HasKey(c, key) ensures HasKey(es, key) {
      var j :| 0 <= j < |es[..|es| - 1]| && es[..|es| - 1][j].key == key;
      assert es[j].key == key;
    }
  }

  /** A list without duplicates is its own canonical form. */
  lemma {:induction false} CanonFixes<V>(es: seq<Entry<V>>)
    requires Distinct(es)
    ensures Canon(es) == es
  {
    if es != [] {
      CanonFixes(es[..|es| - 1]);
      assert es == es[..|es| - 1] + [es[|es| - 1]];
    }
  }

  // ---------------------------------------------------------------- contents and order

  lemma UpsertHolds<V>(es: seq<Entry<V>>, key: Bytes, value: V, e: Entry<V>)
    requires Distinct(es)
    ensures e in Upsert(es, key, value) <==> e == Entry(key, value) || (e in es && e.key != key)
  {
    var i, u := Find(es, key), Upsert(es, key, value);
    assert u[i] == Entry(key, value);
    if e in es && e.key != key {
      var j :| 0 <= j < |es| && es[j] == e;
      assert u[j] == e;
    }
    if e in u && e != Entry(key, value) {
      var j :| 0 <= j < |u| && u[j] == e;
      assert j != i && es[j] == e;
    }
  }

  lemma RemoveHolds<V>(es: seq<Entry<V>>, key: Bytes, e: Entry<V>)
    requires Distinct(es)
    ensures e in Remove(es, key) <==> e in es && e.key != key
  {
    var i, u := Find(es, key), Remove(es, key);
    if e in es && e.key != key {
      var j :| 0 <= j < |es| && es[j] == e;
      assert u[if j < i then j else if i < |es| then j - 1 else j] == e;
    }
    if e in u {
      var j :| 0 <= j < |u| && u[j] == e;
      assert es[if j < i then j else j + 1] == e;
    }
  }

  /** With each key once, a lookup says no more and no less than membership. */
  lemma LookupHolds<V>(es: seq<Entry<V>>, key: Bytes, value: V)
    requires Distinct(es)
    ensures Lookup(es, key) == Some(value) <==> Entry(key, value) in es
  {
    var i := Find(es, key);
    if Entry(key, value) in es {
      var j :| 0 <= j < |es| && es[j] == Entry(key, value);
      assert i == j;
    }
  }

  /** The last member with the key is the k-th. */
  ghost predicate LastAt<V>(es: seq<Entry<V>>, key: Bytes, k: int) {
    0 <= k < |es| && es[k].key == key && forall j :: k < j < |es| ==> es[j].key != key
  }

  /** Of the members with one key the canonical form has the last one's value. */
  lemma {:induction false} CanonTakesLast<V>(es: seq<Entry<V>>, key: Bytes, k: int)
    requires LastAt(es, key, k)
    ensures Entry(key, es[k].value) in Canon(es)
  {
    var front, last := es[..|es| - 1], es[|es| - 1];
    UpsertHolds(Canon(front), last.key, last.value, Entry(key, es[k].value));
    if k < |es| - 1 {
      assert LastAt(front, key, k);
      CanonTakesLast(front, key, k);
    }
    hide Upsert, Distinct, HasKey;
  }

  /** It has them in the order in which the keys first occur. */
  lemma {:induction false} CanonKeepsOrder<V>(es: seq<Entry<V>>, i: nat, j: nat)
    requires i < j < |Canon(es)|
    ensures Find(es, Canon(es)[i].key) < Find(es, Canon(es)[j].key) < |es|
  {
    var front, last := es[..|es| - 1], es[|es| - 1];
    var c := Canon(front);
    assert es == front + [last];
    FirstStays(front, last, Canon(es)[i].key);
    FirstStays(front, last, Canon(es)[j].key);
    CanonIsUpsert(es);
    hide Canon, Find;
    if j < |c| {
      CanonKeepsOrder(front, i, j);
    } else {
      assert Canon(es)[i].key == c[i].key;
      assert HasKey(front, c[i].key) by {
        assert HasKey(c, c[i].key);
      }
    }
  }

  lemma CanonIsUpsert<V>(es: seq<Entry<V>>)
    requires es != []
    ensures var c, last := Canon(es[..|es| - 1]), es[|es| - 1];
      && |c| <= |Canon(es)| <= |c| + 1
      && (forall i :: 0 <= i < |c| ==> Canon(es)[i].key == c[i].key)
      && (|Canon(es)| > |c| ==> Canon(es)[|c|].key == last.key && !HasKey(es[..|es| - 1], last.key))
  {
    var c, last := Canon(es[..|es| - 1]), es[|es| - 1];
    if HasKey(c, last.key) {
      var i :| 0 <= i < |c| && c[i].key == last.key;
      assert Find(c, last.key) <= i;
    }
  }

  lemma FirstStays<V>(front: seq<Entry<V>>, last: Entry<V>, key: Bytes)
    ensures HasKey(front, key) ==> Find(front + [last], key) == Find(front, key) < |front|
    ensures !HasKey(front, key) && last.key == key ==> Find(front + [last], key) == |front|
  {
    var i := Find(front + [last], key);
    assert (front + [last])[|front|] == last;
    assert i < |front| ==> (front + [last])[i] == front[i];
    if HasKey(front, key) {
      FindInFront(front, [last], key);
    }
  }

  // ---------------------------------------------------------------- on concatenations

  lemma ConcatHasKey<V>(a: seq<Entry<V>>, b: seq<Entry<V>>, key: Bytes)
    ensures HasKey(a + b, key) <==> HasKey(a, key) || HasKey(b, key)
  {
    if HasKey(a, key) {
      var i :| 0 <= i < |a| && a[i].key == key;
      assert (a + b)[i].key == key;
    } else if HasKey(b, key) {
      var i :| 0 <= i < |b| && b[i].key == key;
      assert (a + b)[|a| + i].key == key;
    }
  }

  /** A non-empty list as its front and its last entry. */
  lemma Split<V>(es: seq<Entry<V>>, key: Bytes)
    requires es != []
    ensures es == es[..|es| - 1] + [es[|es| - 1]]
    ensures HasKey(es, key) <==> HasKey(es[..|es| - 1], key) || es[|es| - 1].key == key
  {
    assert [es[|es| - 1]][0].key == es[|es| - 1].key;
    assert HasKey([es[|es| - 1]], key) <==> es[|es| - 1].key == key;
    assert es == es[..|es| - 1] + [es[|es| - 1]];
    ConcatHasKey(es[..|es| - 1], [es[|es| - 1]], key);
  }

  lemma FindInFront<V>(a: seq<Entry<V>>, b: seq<Entry<V>>, key: Bytes)
    requires HasKey(a, key)
    ensures Find(a + b, key) == Find(a, key) < |a|
  {
    var i := Find(a, key);
    assert (a + b)[i] == a[i];
  }

  lemma InFront<V>(a: seq<Entry<V>>, b: seq<Entry<V>>, key: Bytes, value: V)
    requires HasKey(a, key)
    ensures Lookup(a + b, key) == Lookup(a, key) && Lookup(a, key).Some?
    ensures Upsert(a + b, key, value) == Upsert(a, key, value) + b
    ensures Remove(a + b, key) == Remove(a, key) + b
  {
    hide Find, HasKey;
    FindInFront(a, b, key);
    UpdateFront(a, b, Find(a, key), Entry(key, value));
    CutFront(a, b, Find(a, key));
  }

  lemma UpdateFront<T>(a: seq<T>, b: seq<T>, i: nat, x: T)
    requires i < |a|
    ensures (a + b)[i] == a[i] && (a + b)[i := x] == a[i := x] + b
  {
  }

  lemma CutFront<T>(a: seq<T>, b: seq<T>, i: nat)
    requires i < |a|
    ensures (a + b)[..i] + (a + b)[i + 1..] == (a[..i] + a[i + 1..]) + b
  {
    assert (a + b)[..i] == a[..i] && (a + b)[i + 1..] == a[i + 1..] + b;
  }

  lemma UpdateBack<T>(a: seq<T>, b: seq<T>, i: nat, x: T)
    requires i < |b|
    ensures (a + b)[|a| + i] == b[i] && (a + b)[|a| + i := x] == a + b[i := x]
  {
  }

  lemma CutBack<T>(a: seq<T>, b: seq<T>, i: nat)
    requires i < |b|
    ensures (a + b)[..|a| + i] + (a + b)[|a| + i + 1..] == a + (b[..i] + b[i + 1..])
  {
    assert (a + b)[..|a| + i] == a + b[..i] && (a + b)[|a| + i + 1..] == b[i + 1..];
  }

  lemma FindInBack<V>(a: seq<Entry<V>>, b: seq<Entry<V>>, key: Bytes)
    requires !HasKey(a, key)
    ensures Find(a + b, key) == |a| + Find(b, key)
  {
    var i, j := Find(b, key), Find(a + b, key);
    forall k | 0 <= k < |a| ensures (a + b)[k].key != key {
      assert a[k].key != key;
    }
    assert i < |b| ==> (a + b)[|a| + i].key == key;
    assert j < |a| + |b| ==> b[j - |a|].key == key;
  }

  lemma InBack<V>(a: seq<Entry<V>>, b: seq<Entry<V>>, key: Bytes, value: V)
    requires !HasKey(a, key)
    ensures Lookup(a + b, key) == Lookup(b, key)
    ensures Upsert(a + b, key, value) == a + Upsert(b, key, value)
    ensures Remove(a + b, key) == a + Remove(b, key)
  {
    hide Find, HasKey;
    FindInBack(a, b, key);
    if Find(b, key) < |b| {
      UpdateBack(a, b, Find(b, key), Entry(key, value));
      CutBack(a, b, Find(b, key));
    }
  }

  lemma Absent<V>(es: seq<Entry<V>>, key: Bytes, value: V)
    requires !HasKey(es, key)
    ensures Lookup(es, key) == None
    ensures Upsert(es, key, value) == es + [Entry(key, value)]
    ensures Remove(es, key) == es
  {
  }

  lemma Present<V>(es: seq<Entry<V>>, key: Bytes)
    ensures Lookup(es, key).Some? <==> HasKey(es, key)
    ensures Lookup(es, key).Some? ==> Entry(key, Lookup(es, key).value) in es
  {
    var i := Find(es, key);
    assert i < |es| ==> es[i] == Entry(key, es[i].value);
  }

  lemma RemoveKeys<V>(es: seq<Entry<V>>, key: Bytes)
    requires Distinct(es)
    ensures Distinct(Remove(es, key)) && !HasKey(Remove(es, key), key)
  {
  }
}
