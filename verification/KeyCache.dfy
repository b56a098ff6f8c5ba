/**
 * The table that lets a decode share one string per repeated object key: open addressing, a bounded
 * probe, reference counts, and a point past which it stops trying.
 */
module KeyCache {
  import opened ByteStrings

  /** A reference-counted string with its hash stored beside it. */
  class ZString {
    const text: Bytes
    const hash: nat
    var refs: nat

    constructor (text: Bytes, hash: nat)
      ensures this.text == text && this.hash == hash && refs == 1
    {
      this.text, this.hash, refs := text, hash, 1;
    }
  }

  datatype Slot = Slot(str: ZString?, hash: nat)

  const FREE := Slot(null, 0)

  /**
   * Table size, how many slots may be filled, how far a probe goes, by how much misses may exceed hits,
   * and the hash function.
   */
  datatype Config = Config(slots: nat, cap: nat, probes: nat, margin: nat, keyMax: nat, hash: Bytes -> nat) {
    ghost predicate Valid() { 0 < cap <= slots }

    /** Where the n-th probe for a key looks. */
    ghost function ProbeAt(key: Bytes, n: nat): (p: nat)
      requires Valid()
      ensures p < slots
    {
      if n == 0 then hash(key) % slots else (ProbeAt(key, n - 1) + 1) % slots
    }
  }

  // ---------------------------------------------------------------- tables as values

  /** `used` lists exactly the occupied slots, each once. */
  ghost predicate ListsOccupied(used: seq<nat>, table: seq<Slot>) {
    && (forall i :: 0 <= i < |used| ==> used[i] < |table| && table[used[i]].str != null)
    && (forall i, j :: 0 <= i < j < |used| ==> used[i] != used[j])
    && forall p :: 0 <= p < |table| && table[p].str != null ==> p in used
  }

  /** The first `n` probes for a key meet occupied slots. */
  ghost predicate Busy(table: seq<Slot>, c: Config, key: Bytes, n: nat)
    requires c.Valid() && |table| == c.slots
  {
    forall m :: 0 <= m < n ==> table[c.ProbeAt(key, m)].str != null
  }

  /** The key in slot `p` is met by probing for it. */
  ghost predicate Reached(table: seq<Slot>, c: Config, p: nat)
    requires c.Valid() && |table| == c.slots && p < |table| && table[p].str != null
  {
    exists n: nat :: n < c.probes && c.ProbeAt(table[p].str.text, n) == p && Busy(table, c, table[p].str.text, n)
  }

  ghost predicate WellPlaced(table: seq<Slot>, c: Config)
    requires c.Valid() && |table| == c.slots
  {
    forall p :: 0 <= p < |table| && table[p].str != null ==>
      table[p].hash == table[p].str.hash == c.hash(table[p].str.text) && Reached(table, c, p)
  }

  ghost predicate ResidentOnce(table: seq<Slot>) {
    forall p, q :: 0 <= p < q < |table| && table[p].str != null && table[q].str != null
      ==> table[p].str.text != table[q].str.text
  }

  ghost predicate HoldsKey(table: seq<Slot>, key: Bytes) {
    exists p :: 0 <= p < |table| && table[p].str != null && table[p].str.text == key
  }

  ghost predicate Resident(table: seq<Slot>, s: ZString) {
    exists p :: 0 <= p < |table| && table[p].str == s
  }

  /** The first `n` probes for a key meet other keys. */
  ghost predicate Unmet(table: seq<Slot>, c: Config, key: Bytes, n: nat)
    requires c.Valid() && |table| == c.slots
  {
    Busy(table, c, key, n) && forall m :: 0 <= m < n ==> table[c.ProbeAt(key, m)].str.text != key
  }

  /** A slot with another key or another hash is passed. */
  lemma NextProbe(table: seq<Slot>, c: Config, key: Bytes, n: nat)
    requires c.Valid() && |table| == c.slots && WellPlaced(table, c) && Unmet(table, c, key, n)
    requires var slot := table[c.ProbeAt(key, n)];
             slot.str != null && (slot.hash != c.hash(key) || slot.str.text != key)
    ensures Unmet(table, c, key, n + 1)
    ensures c.ProbeAt(key, n + 1) == (c.ProbeAt(key, n) + 1) % c.slots
  {
    hide Reached;
  }

  lemma FirstProbe(table: seq<Slot>, c: Config, key: Bytes)
    requires c.Valid() && |table| == c.slots
    ensures Unmet(table, c, key, 0) && c.ProbeAt(key, 0) == c.hash(key) % c.slots
  {
  }

  /** A key that its probe does not meet is not in the table. */
  lemma Absent(table: seq<Slot>, c: Config, key: Bytes, n: nat)
    requires c.Valid() && |table| == c.slots && WellPlaced(table, c) && n <= c.probes && Unmet(table, c, key, n)
    requires n == c.probes || table[c.ProbeAt(key, n)].str == null
    ensures !HoldsKey(table, key)
  {
    forall p | 0 <= p < |table| && table[p].str != null
      ensures table[p].str.text != key
    {
      assert Reached(table, c, p);
    }
  }

  lemma StillReached(table: seq<Slot>, c: Config, p: nat, at: nat, slot: Slot)
    requires c.Valid() && |table| == c.slots && p < |table| && table[p].str != null && Reached(table, c, p)
    requires at < |table| && table[at].str == null && slot.str != null
    ensures Reached(table[at := slot], c, p)
  {
    var n: nat :| n < c.probes && c.ProbeAt(table[p].str.text, n) == p && Busy(table, c, table[p].str.text, n);
    assert Busy(table[at := slot], c, table[p].str.text, n);
  }

  /** Filling the free slot a probe ends at keeps every key reachable and resident once. */
  lemma Filled(table: seq<Slot>, c: Config, s: ZString, n: nat)
    requires s.hash == c.hash(s.text)
    requires c.Valid() && |table| == c.slots && WellPlaced(table, c) && ResidentOnce(table)
    requires n < c.probes && Busy(table, c, s.text, n) && table[c.ProbeAt(s.text, n)].str == null
    requires !HoldsKey(table, s.text)
    ensures var after := table[c.ProbeAt(s.text, n) := Slot(s, c.hash(s.text))];
            WellPlaced(after, c) && ResidentOnce(after)
  {
    var at := c.ProbeAt(s.text, n);
    var after := table[at := Slot(s, c.hash(s.text))];
    assert Busy(after, c, s.text, n);
    assert Reached(after, c, at);
    forall p | 0 <= p < |after| && after[p].str != null && p != at
      ensures Reached(after, c, p)
    {
      StillReached(table, c, p, at, Slot(s, c.hash(s.text)));
    }
    hide Reached, Busy;
    forall p, q | 0 <= p < q < |after| && after[p].str != null && after[q].str != null
      ensures after[p].str.text != after[q].str.text
    {
      assert p != at && q != at ==> table[p].str.text != table[q].str.text;
    }
  }

  lemma FilledList(table: seq<Slot>, used: seq<nat>, p: nat, slot: Slot)
    requires ListsOccupied(used, table) && p < |table| && table[p].str == null && slot.str != null
    ensures ListsOccupied(used + [p], table[p := slot])
  {
    forall q | 0 <= q < |table| && table[p := slot][q].str != null
      ensures q in used + [p]
    {
      assert q == p || q in used;
    }
  }

  ghost predicate HoldsExactly(table: seq<Slot>, resident: set<ZString>) {
    && (forall p :: 0 <= p < |table| && table[p].str != null ==> table[p].str in resident)
    && forall s :: s in resident ==> Resident(table, s)
  }

  /** A table of at most `cap` resident strings, each where a probe for its key finds it and nowhere else. */
  ghost predicate TableOk(table: seq<Slot>, used: seq<nat>, c: Config, resident: set<ZString>) {
    && c.Valid() && |table| == c.slots && |used| <= c.cap
    && ListsOccupied(used, table) && WellPlaced(table, c) && ResidentOnce(table)
    && HoldsExactly(table, resident)
  }

  lemma EmptyTable(table: seq<Slot>, c: Config)
    requires c.Valid() && |table| == c.slots && forall p :: 0 <= p < |table| ==> table[p] == FREE
    ensures TableOk(table, [], c, {})
  {
  }

  lemma FilledTable(table: seq<Slot>, used: seq<nat>, c: Config, resident: set<ZString>, s: ZString, n: nat)
    requires TableOk(table, used, c, resident) && |used| < c.cap && s.hash == c.hash(s.text)
    requires n < c.probes && Busy(table, c, s.text, n) && table[c.ProbeAt(s.text, n)].str == null
    requires !HoldsKey(table, s.text)
    ensures var p, slot := c.ProbeAt(s.text, n), Slot(s, c.hash(s.text));
            TableOk(table[p := slot], used + [p], c, resident + {s})
  {
    var p, slot := c.ProbeAt(s.text, n), Slot(s, c.hash(s.text));
    hide WellPlaced, ResidentOnce, ListsOccupied, HoldsKey, Busy, HoldsExactly;
    Filled(table, c, s, n);
    FilledList(table, used, p, slot);
    FilledResidents(table, resident, p, slot);
  }

  lemma FilledResidents(table: seq<Slot>, resident: set<ZString>, p: nat, slot: Slot)
    requires HoldsExactly(table, resident) && p < |table| && table[p].str == null && slot.str != null
    ensures HoldsExactly(table[p := slot], resident + {slot.str})
  {
    var after := table[p := slot];
    assert after[p].str == slot.str;
    forall other | other in resident ensures Resident(after, other) {
      var q :| 0 <= q < |table| && table[q].str == other;
      assert after[q].str == other;
    }
  }

  /** A resident key has one string, with its hash. */
  lemma ResidentString(table: seq<Slot>, used: seq<nat>, c: Config, resident: set<ZString>, key: Bytes, p: nat)
    requires TableOk(table, used, c, resident) && p < |table| && table[p].str != null && table[p].str.text == key
    ensures table[p].str in resident && table[p].str.hash == c.hash(key)
    ensures forall s :: s in resident && s.text == key ==> s == table[p].str
  {
    hide Reached;
    forall s | s in resident && s.text == key
      ensures s == table[p].str
    {
      var q :| 0 <= q < |table| && table[q].str == s;
    }
  }

  lemma NoResidentString(table: seq<Slot>, used: seq<nat>, c: Config, resident: set<ZString>, key: Bytes)
    requires TableOk(table, used, c, resident) && !HoldsKey(table, key)
    ensures forall s :: s in resident ==> s.text != key
  {
    hide WellPlaced;
    forall s | s in resident
      ensures s.text != key
    {
      var q :| 0 <= q < |table| && table[q].str == s;
    }
  }

  /** The occupied slots, in the order they were filled, hold each resident string once. */
  lemma ListedOnce(table: seq<Slot>, used: seq<nat>, c: Config, resident: set<ZString>) returns (listed: seq<ZString>)
    requires TableOk(table, used, c, resident)
    ensures |listed| == |used|
    ensures forall i :: 0 <= i < |used| ==> used[i] < |table| && table[used[i]].str == listed[i]
    ensures forall i, j :: 0 <= i < j < |listed| ==> listed[i] != listed[j]
    ensures forall s :: s in resident <==> s in listed
  {
    hide WellPlaced;
    listed := seq(|used|, i requires 0 <= i < |used| => table[used[i]].str);
    forall s | s in resident
      ensures s in listed
    {
      var p :| 0 <= p < |table| && table[p].str == s;
      var i :| 0 <= i < |used| && used[i] == p;
      assert listed[i] == s;
    }
    forall i, j | 0 <= i < j < |listed|
      ensures listed[i] != listed[j]
    {
      assert used[i] < used[j] || used[j] < used[i];
    }
  }

  // ---------------------------------------------------------------- the cache

  class Cache {
    const c: Config
    const slots: array<Slot>
    const used: array<nat>
    var count: nat
    var fullHits: nat
    var fullMisses: nat
    var off: bool
    /** Every string this cache made that is still alive. */
    ghost var strings: set<ZString>
    /** The strings in the table. */
    ghost var resident: set<ZString>
    /** The references callers hold. */
    ghost var held: multiset<ZString>

    ghost function Repr(): set<object>
      reads this
    {
      {this, slots, used} + strings
    }

    /** Every key is where a probe finds it, and nowhere else. */
    ghost predicate Placed()
      reads `count, `resident, slots, used
    {
      && c.Valid() && slots.Length == c.slots && used.Length == c.cap && count <= c.cap
      && TableOk(slots[..], used[..count], c, resident)
    }

    /** A live string counts one reference for its slot and one for each a caller holds. */
    ghost predicate Balanced()
      reads `strings, `resident, `held, strings
    {
      && resident <= strings
      && (forall s :: s in strings ==> s.refs > 0 && s.refs == held[s] + if s in resident then 1 else 0)
      && forall s :: s in held ==> s in strings
    }

    ghost predicate Valid()
      reads Repr()
    {
      Placed() && Balanced()
    }

    constructor (c: Config)
      requires c.Valid()
      ensures Valid() && fresh(Repr()) && held == multiset{} && strings == resident == {}
      ensures this.c == c && count == 0 && !off
    {
      this.c := c;
      slots := new Slot[c.slots](_ => FREE);
      used := new nat[c.cap];
      count, fullHits, fullMisses, off := 0, 0, 0, false;
      strings, resident, held := {}, {}, multiset{};
      new;
      EmptyTable(slots[..], c);
      assert used[..count] == [];
    }

    /** Probes for a key until it is met, a free slot is met, or the probe limit is reached. */
    method Probe(key: Bytes, h: nat) returns (p: nat, met: bool, open: bool, ghost n: nat)
      requires Placed() && h == c.hash(key)
      ensures p < slots.Length && !(met && open)
      ensures met ==> slots[p].str != null && slots[p].str.text == key
      ensures open ==> slots[p].str == null && n < c.probes && c.ProbeAt(key, n) == p && Unmet(slots[..], c, key, n)
      ensures !met ==> !HoldsKey(slots[..], key)
      ensures !met && !open ==> Unmet(slots[..], c, key, c.probes)
    {
      p := h % slots.Length;
      var k := 0;
      ghost var table := slots[..];
      assert WellPlaced(table, c);
      FirstProbe(table, c, key);
      hide *;
      while k < c.probes
        invariant k <= c.probes && p == c.ProbeAt(key, k) && Unmet(table, c, key, k)
      {
        var slot := slots[p];
        assert slot == table[p];
        if slot.str == null {
          Absent(table, c, key, k);
          return p, false, true, k;
        }
        if slot.hash == h && |slot.str.text| == |key| && slot.str.text == key {
          return p, true, false, k;
        }
        NextProbe(table, c, key, k);
        p, k := (p + 1) % slots.Length, k + 1;
      }
      Absent(table, c, key, k);
      return p, false, false, k;
    }

    /** A new string in the free slot its probe ends at: one reference for the slot, one for the caller. */
    method Occupy(p: nat, s: ZString, ghost n: nat)
      requires Valid() && count < c.cap && p < slots.Length && slots[p].str == null
      requires n < c.probes && c.ProbeAt(s.text, n) == p && Busy(slots[..], c, s.text, n)
      requires !HoldsKey(slots[..], s.text)
      requires s !in strings && s.refs == 1 && s.hash == c.hash(s.text)
      modifies this`count, this`strings, this`held, this`resident, slots, used, s
      ensures Valid() && strings == old(strings) + {s} && held == old(held) + multiset{s}
      ensures resident == old(resident) + {s}
    {
      hide TableOk, Busy, HoldsKey;
      Fill(p, s, n);
      s.refs := s.refs + 1;
      strings, held := strings + {s}, held + multiset{s};
    }

    method Fill(p: nat, s: ZString, ghost n: nat)
      requires Placed() && count < c.cap && p < slots.Length && slots[p].str == null
      requires n < c.probes && c.ProbeAt(s.text, n) == p && Busy(slots[..], c, s.text, n)
      requires !HoldsKey(slots[..], s.text) && s.hash == c.hash(s.text)
      modifies this`count, this`resident, slots, used
      ensures Placed() && resident == old(resident) + {s}
      ensures count == old(count) + 1 && slots[..] == old(slots[..])[p := Slot(s, s.hash)]
    {
      ghost var table, listed := slots[..], used[..count];
      FilledTable(table, listed, c, resident, s, n);
      hide TableOk, Busy, HoldsKey;
      slots[p] := Slot(s, s.hash);
      used[count] := p;
      count := count + 1;
      resident := resident + {s};
      assert slots[..] == table[p := Slot(s, s.hash)];
      assert used[..count] == listed + [p];
    }

    /** A caller takes one more reference to a live string. */
    method AddRef(s: ZString)
      requires Valid() && s in strings
      modifies this`held, s
      ensures Valid() && held == old(held) + multiset{s}
    {
      hide TableOk;
      s.refs := s.refs + 1;
      held := held + multiset{s};
    }

    /** A caller drops a reference; the last one frees the string. */
    method Release(s: ZString)
      requires Valid() && s in held
      modifies this`held, this`strings, s
      ensures Valid() && held == old(held) - multiset{s}
      ensures strings == if s.refs == 0 then old(strings) - {s} else old(strings)
    {
      hide Placed, Balanced;
      Unhold(s);
    }

    method Unhold(s: ZString)
      requires Balanced() && s in held
      modifies this`held, this`strings, s
      ensures Balanced() && held == old(held) - multiset{s}
      ensures strings == if s.refs == 0 then old(strings) - {s} else old(strings)
    {
      s.refs := s.refs - 1;
      held := held - multiset{s};
      assert held[s] == old(held)[s] - 1 && forall other :: other != s ==> held[other] == old(held)[other];
      if s.refs == 0 {
        strings := strings - {s};
      }
    }

    /** A string no slot holds. */
    method MakeUnshared(key: Bytes, h: nat) returns (s: ZString)
      requires Valid() && h == c.hash(key)
      modifies this`strings, this`held
      ensures Valid() && fresh(s) && s.text == key && s.hash == h
      ensures strings == old(strings) + {s} && held == old(held) + multiset{s}
    {
      hide TableOk;
      s := new ZString(key, h);
      strings, held := strings + {s}, held + multiset{s};
    }

    /** A reference to a new string, resident if the probe found room for it. */
    method Miss(key: Bytes, h: nat, full: bool, p: nat, open: bool, ghost n: nat) returns (r: ZString)
      requires Valid() && full == (count >= c.cap) && h == c.hash(key) && !HoldsKey(slots[..], key)
      requires p < slots.Length
      requires open ==> slots[p].str == null && n < c.probes && c.ProbeAt(key, n) == p && Busy(slots[..], c, key, n)
      modifies Repr()
      ensures Valid() && strings == old(strings) + {r} && fresh(r)
      ensures resident == old(resident) + if open && !full then {r} else {}
      ensures fullHits == old(fullHits) && fullMisses == old(fullMisses) + if full then 1 else 0
      ensures r.text == key && r.hash == h && held == old(held) + multiset{r} && off == old(off)
    {
      hide Placed, Balanced, HoldsKey, Busy;
      if open && !full {
        r := new ZString(key, h);
        Occupy(p, r, n);
      } else {
        if full {
          fullMisses := fullMisses + 1;
        }
        r := MakeUnshared(key, h);
      }
    }

    /** A key that is not resident afterwards found the table full, or every probe for it taken. */
    ghost predicate Shared(before: seq<Slot>, key: Bytes, r: ZString, full: bool)
      requires c.Valid() && |before| == c.slots
      reads `resident
    {
      r in resident || full || Busy(before, c, key, c.probes)
    }

    /** A reference to the resident string for `key` if there is one, to a new one otherwise. */
    method Acquire(key: Bytes, full: bool) returns (r: ZString)
      requires Valid() && full == (count >= c.cap)
      modifies Repr()
      ensures Valid() && fresh(strings - old(strings)) && old(resident) <= resident
      ensures r.text == key && r.hash == c.hash(key) && r in strings
      ensures held == old(held) + multiset{r} && off == old(off)
      ensures forall s :: s in old(resident) && s.text == key ==> r == s
      ensures Shared(old(slots[..]), key, r, full)
      ensures fullHits == old(fullHits) + if full && HoldsKey(old(slots[..]), key) then 1 else 0
      ensures fullMisses == old(fullMisses) + if full && !HoldsKey(old(slots[..]), key) then 1 else 0
    {
      hide TableOk;
      var h := c.hash(key);
      var p, met, open, n := Probe(key, h);
      if met {
        ResidentString(slots[..], used[..count], c, resident, key, p);
        r := slots[p].str;
        if full {
          fullHits := fullHits + 1;
        }
        AddRef(r);
      } else {
        NoResidentString(slots[..], used[..count], c, resident, key);
        r := Miss(key, h, full, p, open, n);
      }
    }

    /**
     * A reference to a string spelled like `key`, or null once sharing has stopped. A resident string
     * is the one returned, and no string ever leaves the table.
     */
    method Share(key: Bytes) returns (r: ZString?)
      requires Valid()
      modifies Repr()
      ensures Valid() && fresh(strings - old(strings)) && old(resident) <= resident
      ensures r == null <==> off || |key| > c.keyMax
      ensures r == null ==> held == old(held)
      ensures r != null ==> r.text == key && r.hash == c.hash(key) && r in strings
      ensures r != null ==> held == old(held) + multiset{r}
      ensures r != null ==> forall s :: s in old(resident) && s.text == key ==> r == s
      ensures r != null ==> Shared(old(slots[..]), key, r, old(count) >= c.cap)
      ensures r != null && old(count) >= c.cap ==>
                if HoldsKey(old(slots[..]), key) then fullHits == old(fullHits) + 1 && fullMisses == old(fullMisses)
                else fullHits == old(fullHits) && fullMisses == old(fullMisses) + 1
      ensures r == null || old(count) < c.cap ==> fullHits == old(fullHits) && fullMisses == old(fullMisses)
      ensures off <==>
                old(off) || (|key| <= c.keyMax && old(count) >= c.cap && old(fullMisses) > old(fullHits) + c.margin)
    {
      if off || |key| > c.keyMax {
        return null;
      }
      var full := count >= c.cap;
      if full && fullMisses > fullHits + c.margin {
        off := true;
        return null;
      }
      hide Placed, Balanced;
      r := Acquire(key, full);
    }

    /** The table's reference to its i-th string goes. */
    method Drop(i: nat)
      requires Balanced() && i < count <= used.Length && used[i] < slots.Length
      requires slots[used[i]].str != null && slots[used[i]].str in resident
      modifies this`resident, this`strings, slots[used[i]].str
      ensures Balanced() && resident == old(resident) - {slots[used[i]].str}
      ensures strings <= old(strings) && forall s :: s in old(strings) && s !in strings ==> s.refs == 0
    {
      var s := slots[used[i]].str;
      s.refs := s.refs - 1;
      resident := resident - {s};
      if s.refs == 0 {
        strings := strings - {s};
      }
    }

    /** The table gives up its references: what is left is what callers hold. */
    method Pop()
      requires Valid()
      modifies Repr()
      ensures Balanced() && resident == {} && held == old(held)
      ensures strings == (set s | s in held) && strings <= old(strings)
      ensures forall s :: s in strings ==> s.refs == held[s]
      ensures forall s :: s in old(strings) && s !in strings ==> s.refs == 0
    {
      ghost var listed := ListedOnce(slots[..], used[..count], c, resident);
      assert forall i :: 0 <= i < count ==> used[..count][i] == used[i] && slots[..][used[i]] == slots[used[i]];
      hide *;
      DropAll(listed);
      Remaining();
    }

    method DropAll(ghost listed: seq<ZString>)
      requires Balanced() && |listed| == count <= used.Length
      requires forall i :: 0 <= i < count ==> used[i] < slots.Length && slots[used[i]].str == listed[i]
      requires forall i, j :: 0 <= i < j < |listed| ==> listed[i] != listed[j]
      requires forall s :: s in resident <==> s in listed
      modifies `resident, `strings, strings
      ensures Balanced() && resident == {} && strings <= old(strings)
      ensures forall s :: s in old(strings) && s !in strings ==> s.refs == 0
    {
      var i := 0;
      assert listed[0..] == listed;
      hide Balanced;
      while i < count
        invariant i <= count && Balanced() && strings <= old(strings)
        invariant forall s :: s in resident <==> s in listed[i..]
        invariant forall s :: s in old(strings) && s !in strings ==> s.refs == 0
      {
        assert listed[i..] == [listed[i]] + listed[i + 1..];
        BalancedIncludes();
        Drop(i);
        i := i + 1;
      }
      assert resident == {};
    }

    lemma BalancedIncludes()
      requires Balanced()
      ensures resident <= strings
    {
    }

    lemma HeldIsAlive(s: ZString)
      requires Balanced() && s in held
      ensures s in strings
    {
    }

    lemma Remaining()
      requires Balanced() && resident == {}
      ensures strings == (set s | s in held) && forall s :: s in strings ==> s.refs == held[s]
    {
    }
  }

  /** The cache the running decode shares keys through, if any. */
  class Runtime {
    var keyShare: Cache?

    constructor ()
      ensures keyShare == null
    {
      keyShare := null;
    }

    /** Starts a decode: small inputs share nothing. */
    method Push(c: Config, inputLen: nat, minInput: nat) returns (cache: Cache, prev: Cache?)
      requires c.Valid()
      modifies this
      ensures fresh(cache.Repr()) && cache.Valid() && cache.held == multiset{} && cache.resident == {} && cache.c == c
      ensures prev == old(keyShare) && keyShare == if inputLen < minInput then null else cache
    {
      prev := keyShare;
      cache := new Cache(c);
      keyShare := if inputLen < minInput then null else cache;
    }

    /** Ends a decode: the enclosing one's cache is current again, and this one's strings are the callers' alone. */
    method Pop(cache: Cache, prev: Cache?)
      requires cache.Valid() && this !in cache.Repr()
      modifies this, cache.Repr()
      ensures keyShare == prev && cache.held == old(cache.held)
      ensures cache.Balanced() && cache.strings <= old(cache.strings)
      ensures old(keyShare) != cache ==> cache.resident == old(cache.resident)
      ensures old(keyShare) == cache ==>
                cache.resident == {} && forall s :: s in cache.strings ==> s.refs == cache.held[s]
    {
      if keyShare != cache {
        keyShare := prev;
        return;
      }
      cache.Pop();
      keyShare := prev;
    }
  }
}
