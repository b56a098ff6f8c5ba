/** The walk from a parsed document to a PHP value, and what it makes of merged documents. */
module Decoding {
  import opened ByteStrings
  import DepthProbe
  import opened Json
  import opened KeyCache
  import opened OrderedMap
  import opened Sanitizer
  import opened Utf8

  /** A decoded value; a map has each key once. */
  datatype Zval =
    | ZNull
    | ZBool(b: bool)
    | ZNum(lexeme: Bytes, finite: bool)
    | ZStr(s: Bytes)
    | ZList(items: seq<Zval>)
    | ZMap(entries: seq<Entry<Zval>>)

  // ---------------------------------------------------------------- what decoding means

  function DecodeText(s: Bytes, f: Utf8Flags): Bytes {
    if f.Handles() then SanitizeFor(s, f, ForDecode) else s
  }

  function Decode(v: Value, f: Utf8Flags): Zval
    decreases v, 0
  {
    match v
    case Null => ZNull
    case Bool(b) => ZBool(b)
    case Num(lexeme, finite) => ZNum(lexeme, finite)
    case Str(s) => ZStr(DecodeText(s, f))
    case Arr(items) => ZList(DecodeItems(items, |items|, f))
    case Obj(members) => ZMap(DecodeMembers(members, |members|, f))
  }

  function DecodeItems(items: seq<Value>, n: nat, f: Utf8Flags): (r: seq<Zval>)
    requires n <= |items|
    ensures |r| == n && forall k :: 0 <= k < n ==> r[k] == Decode(items[k], f)
    decreases items, n
  {
    if n == 0 then [] else DecodeItems(items, n - 1, f) + [Decode(items[n - 1], f)]
  }

  /** The first `n` members: a repeated key keeps its place and takes the last value. */
  function DecodeMembers(members: seq<Entry<Value>>, n: nat, f: Utf8Flags): (r: seq<Entry<Zval>>)
    requires n <= |members|
    ensures Distinct(r)
    decreases members, n
  {
    if n == 0 then []
    else
      var before := DecodeMembers(members, n - 1, f);
      var key, value := DecodeText(members[n - 1].key, f), Decode(members[n - 1].value, f);
      UpsertKeys(before, key, value);
      Upsert(before, key, value)
  }

  // ---------------------------------------------------------------- a decoded value read as a document

  /** The document a decoded value stands for. */
  function Document(z: Zval): Value
    decreases z, 0
  {
    match z
    case ZNull => Null
    case ZBool(b) => Bool(b)
    case ZNum(lexeme, finite) => Num(lexeme, finite)
    case ZStr(s) => Str(s)
    case ZList(items) => Arr(DocumentItems(items, |items|))
    case ZMap(entries) => Obj(DocumentMembers(entries, |entries|))
  }

  function DocumentItems(items: seq<Zval>, n: nat): (r: seq<Value>)
    requires n <= |items|
    ensures |r| == n && forall k :: 0 <= k < n ==> r[k] == Document(items[k])
    decreases items, n
  {
    if n == 0 then [] else DocumentItems(items, n - 1) + [Document(items[n - 1])]
  }

  function DocumentMembers(entries: seq<Entry<Zval>>, n: nat): (r: seq<Entry<Value>>)
    requires n <= |entries|
    ensures |r| == n
    decreases entries, n
  {
    if n == 0 then []
    else DocumentMembers(entries, n - 1) + [Entry(entries[n - 1].key, Document(entries[n - 1].value))]
  }

  /** The document with the repeated names of its objects resolved, at every level. */
  function Resolved(v: Value): Value
    decreases v, 0
  {
    match v
    case Arr(items) => Arr(ResolvedItems(items, |items|))
    case Obj(members) => Obj(Canon(ResolvedMembers(members, |members|)))
    case _ => v
  }

  function ResolvedItems(items: seq<Value>, n: nat): (r: seq<Value>)
    requires n <= |items|
    ensures |r| == n && forall k :: 0 <= k < n ==> r[k] == Resolved(items[k])
    decreases items, n
  {
    if n == 0 then [] else ResolvedItems(items, n - 1) + [Resolved(items[n - 1])]
  }

  function ResolvedMembers(members: seq<Entry<Value>>, n: nat): (r: seq<Entry<Value>>)
    requires n <= |members|
    ensures |r| == n
    decreases members, n
  {
    if n == 0 then []
    else ResolvedMembers(members, n - 1) + [Entry(members[n - 1].key, Resolved(members[n - 1].value))]
  }

  /** Every string and every name of the document sanitised, if a flag asks for it. */
  function Sanitised(v: Value, f: Utf8Flags): Value
    decreases v, 0
  {
    match v
    case Str(s) => Str(if f.ignore || f.substitute then SanitizeFor(s, f, ForDecode) else s)
    case Arr(items) => Arr(SanitisedItems(items, |items|, f))
    case Obj(members) => Obj(SanitisedMembers(members, |members|, f))
    case _ => v
  }

  function SanitisedItems(items: seq<Value>, n: nat, f: Utf8Flags): (r: seq<Value>)
    requires n <= |items|
    ensures |r| == n && forall k :: 0 <= k < n ==> r[k] == Sanitised(items[k], f)
    decreases items, n
  {
    if n == 0 then [] else SanitisedItems(items, n - 1, f) + [Sanitised(items[n - 1], f)]
  }

  function SanitisedMembers(members: seq<Entry<Value>>, n: nat, f: Utf8Flags): (r: seq<Entry<Value>>)
    requires n <= |members|
    ensures |r| == n
    ensures forall k :: 0 <= k < n ==> r[k] == SanitisedMember(members[k], f)
    decreases members, n
  {
    if n == 0 then [] else SanitisedMembers(members, n - 1, f) + [SanitisedMember(members[n - 1], f)]
  }

  function SanitisedMember(m: Entry<Value>, f: Utf8Flags): Entry<Value>
    decreases m, 0
  {
    Entry(if f.ignore || f.substitute then SanitizeFor(m.key, f, ForDecode) else m.key, Sanitised(m.value, f))
  }

  /** Without flags, decoding loses nothing but the repetitions of a name. */
  lemma {:induction false} DecodeSays(v: Value)
    ensures Document(Decode(v, NO_FLAGS)) == Resolved(v)
    decreases v, 0
  {
    match v
    case Arr(items) =>
      forall k | 0 <= k < |items| ensures Document(Decode(items[k], NO_FLAGS)) == Resolved(items[k]) {
        DecodeSays(items[k]);
      }
      ArraySays(items);
    case Obj(members) =>
      DecodeSaysMembers(members, |members|);
      ObjectSays(members);
    case _ =>
  }

  lemma ArraySays(items: seq<Value>)
    requires forall k :: 0 <= k < |items| ==> Document(Decode(items[k], NO_FLAGS)) == Resolved(items[k])
    ensures Document(Decode(Arr(items), NO_FLAGS)) == Resolved(Arr(items))
  {
    var decoded := DecodeItems(items, |items|, NO_FLAGS);
    assert Decode(Arr(items), NO_FLAGS) == ZList(decoded);
    assert Document(ZList(decoded)) == Arr(DocumentItems(decoded, |decoded|));
    hide DecodeItems, DocumentItems, ResolvedItems, Decode, Document;
    assert Resolved(Arr(items)) == Arr(ResolvedItems(items, |items|));
    hide Resolved;
    assert DocumentItems(decoded, |decoded|) == ResolvedItems(items, |items|);
  }

  lemma ObjectSays(members: seq<Entry<Value>>)
    requires DocumentOf(DecodeMembers(members, |members|, NO_FLAGS)) == Canon(ResolvedMembers(members, |members|))
    ensures Document(Decode(Obj(members), NO_FLAGS)) == Resolved(Obj(members))
  {
    hide *;
    ObjectDecodes(members);
    DocumentObject(DecodeMembers(members, |members|, NO_FLAGS));
    ResolvedObject(members);
  }

  lemma ObjectDecodes(members: seq<Entry<Value>>)
    ensures Decode(Obj(members), NO_FLAGS) == ZMap(DecodeMembers(members, |members|, NO_FLAGS))
  {
    assert Obj(members).members == members;
    hide DecodeMembers;
  }

  lemma DocumentObject(entries: seq<Entry<Zval>>)
    ensures Document(ZMap(entries)) == Obj(DocumentOf(entries))
  {
    assert ZMap(entries).entries == entries;
    hide DocumentMembers;
  }

  lemma ResolvedObject(members: seq<Entry<Value>>)
    ensures Resolved(Obj(members)) == Obj(Canon(ResolvedMembers(members, |members|)))
  {
    assert Obj(members).members == members;
    hide ResolvedMembers, Canon;
  }

  function DocumentOf(entries: seq<Entry<Zval>>): (r: seq<Entry<Value>>)
    ensures |r| == |entries|
  {
    DocumentMembers(entries, |entries|)
  }

  lemma {:induction false} DocumentAt(entries: seq<Entry<Zval>>, n: nat, k: nat)
    requires k < n <= |entries|
    ensures DocumentMembers(entries, n)[k] == Entry(entries[k].key, Document(entries[k].value))
  {
    hide Document;
    if k < n - 1 {
      DocumentAt(entries, n - 1, k);
    }
  }

  lemma DocumentEach(entries: seq<Entry<Zval>>)
    ensures forall k :: 0 <= k < |entries|
                        ==> DocumentOf(entries)[k] == Entry(entries[k].key, Document(entries[k].value))
  {
    hide Document, DocumentMembers;
    forall k | 0 <= k < |entries|
      ensures DocumentOf(entries)[k] == Entry(entries[k].key, Document(entries[k].value))
    {
      DocumentAt(entries, |entries|, k);
    }
  }

  lemma DocumentUpsert(entries: seq<Entry<Zval>>, key: Bytes, z: Zval)
    ensures DocumentOf(Upsert(entries, key, z)) == Upsert(DocumentOf(entries), key, Document(z))
  {
    DocumentEach(entries);
    DocumentEach(Upsert(entries, key, z));
    hide Document, DocumentOf, Find;
    var i, j := Find(entries, key), Find(DocumentOf(entries), key);
    assert i < |entries| ==> DocumentOf(entries)[i].key == key;
    assert j < |entries| ==> entries[j].key == key;
  }

  lemma {:induction false} DecodeSaysMembers(members: seq<Entry<Value>>, n: nat)
    requires n <= |members|
    ensures DocumentOf(DecodeMembers(members, n, NO_FLAGS)) == Canon(ResolvedMembers(members, n))
    decreases members, n
  {
    hide *;
    if n == 0 {
      NothingSaid(members);
    } else {
      var m, before := members[n - 1], DecodeMembers(members, n - 1, NO_FLAGS);
      DecodeSaysMembers(members, n - 1);
      DecodeSays(m.value);
      MemberDecoded(members, n - 1, NO_FLAGS);
      PlainText(m.key);
      DocumentUpsert(before, m.key, Decode(m.value, NO_FLAGS));
      MemberResolved(members, n - 1);
      CanonStep(ResolvedMembers(members, n - 1), m.key, Resolved(m.value));
    }
  }

  lemma NothingSaid(members: seq<Entry<Value>>)
    ensures DocumentOf(DecodeMembers(members, 0, NO_FLAGS)) == Canon(ResolvedMembers(members, 0))
  {
  }

  lemma PlainText(s: Bytes)
    ensures DecodeText(s, NO_FLAGS) == s
  {
  }

  lemma MemberResolved(members: seq<Entry<Value>>, n: nat)
    requires n < |members|
    ensures ResolvedMembers(members, n + 1)
         == ResolvedMembers(members, n) + [Entry(members[n].key, Resolved(members[n].value))]
  {
    hide Resolved;
  }

  lemma CanonStep(es: seq<Entry<Value>>, key: Bytes, value: Value)
    ensures Canon(es + [Entry(key, value)]) == Upsert(Canon(es), key, value)
  {
    assert (es + [Entry(key, value)])[..|es|] == es;
    hide Upsert;
  }

  /** With flags, decoding is decoding without them of the document sanitised beforehand. */
  lemma {:induction false} FlagsSanitise(v: Value, f: Utf8Flags)
    ensures Decode(v, f) == Decode(Sanitised(v, f), NO_FLAGS)
    decreases v, 0
  {
    match v
    case Arr(items) =>
      forall k | 0 <= k < |items| ensures Decode(items[k], f) == Decode(Sanitised(items[k], f), NO_FLAGS) {
        FlagsSanitise(items[k], f);
      }
      FlagsSanitiseArray(items, f);
    case Obj(members) =>
      FlagsSanitiseMembers(members, |members|, f);
      DecodeMembersPrefix(SanitisedMembers(members, |members|, f), Sanitised(v, f).members, |members|);
    case _ =>
  }

  lemma FlagsSanitiseArray(items: seq<Value>, f: Utf8Flags)
    requires forall k :: 0 <= k < |items| ==> Decode(items[k], f) == Decode(Sanitised(items[k], f), NO_FLAGS)
    ensures Decode(Arr(items), f) == Decode(Sanitised(Arr(items), f), NO_FLAGS)
  {
    var all := SanitisedItems(items, |items|, f);
    assert Sanitised(Arr(items), f) == Arr(all);
    assert Decode(Arr(all), NO_FLAGS) == ZList(DecodeItems(all, |all|, NO_FLAGS));
    assert Decode(Arr(items), f) == ZList(DecodeItems(items, |items|, f));
    hide Decode, Sanitised, DecodeItems, SanitisedItems;
    assert DecodeItems(all, |all|, NO_FLAGS) == DecodeItems(items, |items|, f);
  }

  lemma {:induction false} DecodeMembersPrefix(a: seq<Entry<Value>>, b: seq<Entry<Value>>, n: nat)
    requires n <= |a| && n <= |b| && forall k :: 0 <= k < n ==> a[k] == b[k]
    ensures DecodeMembers(a, n, NO_FLAGS) == DecodeMembers(b, n, NO_FLAGS)
  {
    hide Decode, Upsert;
    if n > 0 {
      DecodeMembersPrefix(a, b, n - 1);
    }
  }

  lemma {:induction false} FlagsSanitiseMembers(members: seq<Entry<Value>>, n: nat, f: Utf8Flags)
    requires n <= |members|
    ensures DecodeMembers(members, n, f) == DecodeMembers(SanitisedMembers(members, n, f), n, NO_FLAGS)
    decreases members, n
  {
    hide *;
    if n == 0 {
      NothingDecoded(members, SanitisedMembers(members, 0, f), f);
    } else {
      var m, all := members[n - 1], SanitisedMembers(members, n, f);
      FlagsSanitise(m.value, f);
      FlagsSanitiseMembers(members, n - 1, f);
      MemberSanitised(members, n - 1, f);
      DecodeMembersPrefix(SanitisedMembers(members, n - 1, f), all, n - 1);
      MemberDecoded(members, n - 1, f);
      MemberDecoded(all, n - 1, NO_FLAGS);
    }
  }

  lemma NothingDecoded(a: seq<Entry<Value>>, b: seq<Entry<Value>>, f: Utf8Flags)
    ensures DecodeMembers(a, 0, f) == DecodeMembers(b, 0, NO_FLAGS) == []
  {
  }

  lemma MemberSanitised(members: seq<Entry<Value>>, n: nat, f: Utf8Flags)
    requires n < |members|
    ensures var all := SanitisedMembers(members, n + 1, f);
            && all[..n] == SanitisedMembers(members, n, f)
            && all[n].value == Sanitised(members[n].value, f)
            && DecodeText(all[n].key, NO_FLAGS) == DecodeText(members[n].key, f)
  {
    hide Sanitised, SanitizeFor;
  }

  // ---------------------------------------------------------------- values as the engine holds them

  /** A table's key: a string it shares with the cache, or one of its own. */
  datatype Name = Shared(str: ZString) | Owned(s: Bytes) {
    function Text(): Bytes {
      if Shared? then str.text else s
    }

    function Refs(): multiset<ZString> {
      if Shared? then multiset{str} else multiset{}
    }
  }

  datatype Cell<V> = Cell(name: Name, value: V)

  datatype Live =
    | LNull
    | LBool(b: bool)
    | LNum(lexeme: Bytes, finite: bool)
    | LStr(s: Bytes)
    | LList(items: seq<Live>)
    | LTable(cells: seq<Cell<Live>>)

  /** The value itself, whoever owns its strings. */
  function View(v: Live): Zval
    decreases v, 0
  {
    match v
    case LNull => ZNull
    case LBool(b) => ZBool(b)
    case LNum(lexeme, finite) => ZNum(lexeme, finite)
    case LStr(s) => ZStr(s)
    case LList(items) => ZList(ViewItems(items, |items|))
    case LTable(cells) => ZMap(ViewCells(cells, |cells|))
  }

  function ViewItems(items: seq<Live>, n: nat): (r: seq<Zval>)
    requires n <= |items|
    ensures |r| == n && forall k :: 0 <= k < n ==> r[k] == View(items[k])
    decreases items, n
  {
    if n == 0 then [] else ViewItems(items, n - 1) + [View(items[n - 1])]
  }

  function ViewCells(cells: seq<Cell<Live>>, n: nat): (r: seq<Entry<Zval>>)
    requires n <= |cells|
    ensures |r| == n && forall k :: 0 <= k < n ==> r[k] == ViewCell(cells[k])
    decreases cells, n
  {
    if n == 0 then [] else ViewCells(cells, n - 1) + [ViewCell(cells[n - 1])]
  }

  function ViewCell(cell: Cell<Live>): Entry<Zval>
    decreases cell, 0
  {
    Entry(cell.name.Text(), View(cell.value))
  }

  /** The references to shared strings that a value's tables hold. */
  function Refs(v: Live): multiset<ZString>
    decreases v, 0
  {
    match v
    case LList(items) => RefsOfItems(items, |items|)
    case LTable(cells) => RefsOfCells(cells, |cells|)
    case _ => multiset{}
  }

  function RefsOfItems(items: seq<Live>, n: nat): multiset<ZString>
    requires n <= |items|
    decreases items, n
  {
    if n == 0 then multiset{} else RefsOfItems(items, n - 1) + Refs(items[n - 1])
  }

  function RefsOfCells(cells: seq<Cell<Live>>, n: nat): multiset<ZString>
    requires n <= |cells|
    decreases cells, n
  {
    if n == 0 then multiset{}
    else RefsOfCells(cells, n - 1) + CellRefs(cells[n - 1])
  }

  function CellRefs(cell: Cell<Live>): multiset<ZString>
    decreases cell, 0
  {
    cell.name.Refs() + Refs(cell.value)
  }

  lemma {:induction false} ItemsPrefix(a: seq<Live>, b: seq<Live>, n: nat)
    requires n <= |a| && n <= |b| && forall k :: 0 <= k < n ==> a[k] == b[k]
    ensures ViewItems(a, n) == ViewItems(b, n) && RefsOfItems(a, n) == RefsOfItems(b, n)
  {
    hide View, Refs;
    if n > 0 {
      ItemsPrefix(a, b, n - 1);
    }
  }

  lemma {:induction false} CellsRefsPrefix(a: seq<Cell<Live>>, b: seq<Cell<Live>>, n: nat)
    requires n <= |a| && n <= |b| && forall k :: 0 <= k < n ==> a[k] == b[k]
    ensures RefsOfCells(a, n) == RefsOfCells(b, n)
  {
    hide Refs;
    if n > 0 {
      CellsRefsPrefix(a, b, n - 1);
    }
  }

  lemma ListHolds(items: seq<Live>)
    ensures View(LList(items)) == ZList(ViewItems(items, |items|))
    ensures Refs(LList(items)) == RefsOfItems(items, |items|)
  {
    assert LList(items).items == items;
    hide ViewItems, RefsOfItems;
  }

  lemma TableHolds(cells: seq<Cell<Live>>)
    ensures View(LTable(cells)) == ZMap(ViewCells(cells, |cells|))
    ensures Refs(LTable(cells)) == RefsOfCells(cells, |cells|)
  {
    assert LTable(cells).cells == cells;
    hide ViewCells, RefsOfCells;
  }

  lemma ItemsUnfolded(items: seq<Live>, n: nat)
    requires 0 < n <= |items|
    ensures ViewItems(items, n) == ViewItems(items, n - 1) + [View(items[n - 1])]
    ensures RefsOfItems(items, n) == RefsOfItems(items, n - 1) + Refs(items[n - 1])
  {
    hide View, Refs;
  }

  lemma CellsUnfolded(cells: seq<Cell<Live>>, n: nat)
    requires 0 < n <= |cells|
    ensures RefsOfCells(cells, n) == RefsOfCells(cells, n - 1) + (cells[n - 1].name.Refs() + Refs(cells[n - 1].value))
  {
    hide Refs;
  }

  lemma ItemAdded(items: seq<Live>, item: Live)
    ensures ViewItems(items + [item], |items| + 1) == ViewItems(items, |items|) + [View(item)]
    ensures RefsOfItems(items + [item], |items| + 1) == RefsOfItems(items, |items|) + Refs(item)
  {
    var all := items + [item];
    assert all[|items|] == item;
    ItemsPrefix(items, all, |items|);
    ItemsUnfolded(all, |items| + 1);
    hide *;
  }

  // ---------------------------------------------------------------- counting references

  lemma Trade<T>(a: multiset<T>, b: multiset<T>, c: multiset<T>, x: multiset<T>, y: multiset<T>)
    requires a + x == b + y
    ensures (a + c) + x == (b + c) + y
  {
    forall s ensures ((a + c) + x)[s] == ((b + c) + y)[s] {
      assert (a + x)[s] == (b + y)[s];
    }
  }

  lemma Cancel<T>(base: multiset<T>, before: multiset<T>, after: multiset<T>, now: multiset<T>)
    requires now + before == base + before + after
    ensures now == base + after
  {
    forall s ensures now[s] == (base + after)[s] {
      assert (now + before)[s] == (base + before + after)[s];
    }
  }

  lemma Swap<T>(a: multiset<T>, c: multiset<T>, x: multiset<T>, y: multiset<T>)
    ensures (a + (c + y)) + x == (a + (c + x)) + y
  {
  }

  lemma Part<T>(a: multiset<T>, b: multiset<T>, c: multiset<T>)
    requires a + b <= c
    ensures a <= c && b <= c
  {
    forall s ensures a[s] <= c[s] && b[s] <= c[s] {
      assert (a + b)[s] <= c[s];
    }
  }

  lemma ConcatRefs<T>(a: multiset<T>, b: multiset<T>, c: multiset<T>)
    ensures a + (b + c) == (a + b) + c
  {
  }

  /** Of two parts that are held, the first is still held once the second is gone. */
  lemma Left<T>(a: multiset<T>, b: multiset<T>, before: multiset<T>, after: multiset<T>)
    requires a + b <= before && after + b == before
    ensures a <= after
  {
    forall s ensures a[s] <= after[s] {
      assert (a + b)[s] <= (after + b)[s];
    }
  }

  /** Replacing the value of a cell trades the references of the one for those of the other. */
  lemma {:induction false} CellReplaced(cells: seq<Cell<Live>>, i: nat, value: Live, n: nat)
    requires i < n <= |cells|
    ensures RefsOfCells(cells[i := Cell(cells[i].name, value)], n) + Refs(cells[i].value)
         == RefsOfCells(cells, n) + Refs(value)
  {
    hide Refs, RefsOfCells, Name.Refs;
    var after := cells[i := Cell(cells[i].name, value)];
    CellsUnfolded(cells, n);
    CellsUnfolded(after, n);
    if i == n - 1 {
      CellsRefsPrefix(cells, after, n - 1);
      Swap(RefsOfCells(cells, n - 1), cells[i].name.Refs(), Refs(cells[i].value), Refs(value));
    } else {
      CellReplaced(cells, i, value, n - 1);
      Trade(RefsOfCells(after, n - 1), RefsOfCells(cells, n - 1), cells[n - 1].name.Refs() + Refs(cells[n - 1].value),
            Refs(cells[i].value), Refs(value));
    }
  }

  lemma CellAdded(cells: seq<Cell<Live>>, cell: Cell<Live>)
    ensures RefsOfCells(cells + [cell], |cells| + 1)
         == RefsOfCells(cells, |cells|) + (cell.name.Refs() + Refs(cell.value))
  {
    hide Refs, RefsOfCells, Name.Refs;
    CellsRefsPrefix(cells, cells + [cell], |cells|);
    CellsUnfolded(cells + [cell], |cells| + 1);
  }

  lemma CellHolds(cells: seq<Cell<Live>>, i: nat)
    requires i < |cells|
    ensures Refs(cells[i].value) <= RefsOfCells(cells, |cells|)
  {
    assert Refs(LNull) == multiset{};
    hide Refs, RefsOfCells;
    CellReplaced(cells, i, LNull, |cells|);
    var rest := RefsOfCells(cells[i := Cell(cells[i].name, LNull)], |cells|);
    assert rest + Refs(cells[i].value) == RefsOfCells(cells, |cells|);
    Part(rest, Refs(cells[i].value), RefsOfCells(cells, |cells|));
  }

  /** The cell at `i` takes the value, or a new one goes last. */
  function Put(ht: seq<Cell<Live>>, i: nat, name: Name, child: Live): seq<Cell<Live>>
    requires i <= |ht|
  {
    if i < |ht| then ht[i := Cell(ht[i].name, child)] else ht + [Cell(name, child)]
  }

  lemma PutShows(ht: seq<Cell<Live>>, key: Bytes, name: Name, child: Live)
    requires var i := Find(ViewCells(ht, |ht|), key); i == |ht| ==> name.Text() == key
    ensures var r := Put(ht, Find(ViewCells(ht, |ht|), key), name, child);
            ViewCells(r, |r|) == Upsert(ViewCells(ht, |ht|), key, View(child))
  {
    hide View;
    var i := Find(ViewCells(ht, |ht|), key);
    var r := Put(ht, i, name, child);
    assert ViewCells(r, |r|) == Upsert(ViewCells(ht, |ht|), key, View(child));
  }

  lemma PutHolds(ht: seq<Cell<Live>>, i: nat, name: Name, child: Live)
    requires i <= |ht|
    ensures var r := Put(ht, i, name, child);
            if i < |ht| then RefsOfCells(r, |r|) + Refs(ht[i].value) == RefsOfCells(ht, |ht|) + Refs(child)
            else RefsOfCells(r, |r|) == RefsOfCells(ht, |ht|) + (name.Refs() + Refs(child))
  {
    hide Refs, RefsOfCells, Name.Refs;
    if i < |ht| {
      CellReplaced(ht, i, child, |ht|);
    } else {
      CellAdded(ht, Cell(name, child));
    }
  }

  // ---------------------------------------------------------------- the walker

  /** What a walk may change: the cache it shares keys through. */
  ghost function Footprint(share: Cache?): set<object>
    reads share
  {
    if share == null then {} else share.Repr()
  }

  ghost predicate Usable(share: Cache?)
    reads share, Footprint(share)
  {
    share != null ==> share.Valid()
  }

  /** Exactly `refs` more references are held, and the cache touched only strings it already had or made. */
  twostate predicate Holds(share: Cache?, new refs: multiset<ZString>)
    reads share
  {
    if share == null then refs == multiset{}
    else share.held == old(share.held) + refs && fresh(share.strings - old(share.strings))
  }

  /** References held for one value are now held for another. */
  twostate predicate Passed(share: Cache?, new before: multiset<ZString>, new after: multiset<ZString>)
    reads share
  {
    if share == null then before == after == multiset{}
    else share.held + before == old(share.held) + after && fresh(share.strings - old(share.strings))
  }

  ghost predicate Covered(share: Cache?, refs: multiset<ZString>)
    reads share
  {
    if share == null then refs == multiset{} else refs <= share.held
  }

  /** `zval_ptr_dtor`: a value that goes gives back every reference its tables hold. */
  method Destroy(v: Live, share: Cache)
    requires share.Balanced() && Refs(v) <= share.held
    modifies share`held, share`strings, share.strings
    ensures share.Balanced() && share.strings <= old(share.strings)
    ensures share.held + Refs(v) == old(share.held)
    decreases v, 1
  {
    hide Cache.Balanced;
    match v
    case LList(items) => DestroyItems(items, |items|, share);
    case LTable(cells) => DestroyCells(cells, |cells|, share);
    case _ =>
  }

  /** The last of the first `n` items goes first. */
  method DestroyItems(items: seq<Live>, n: nat, share: Cache)
    requires n <= |items| && share.Balanced() && RefsOfItems(items, n) <= share.held
    modifies share`held, share`strings, share.strings
    ensures share.Balanced() && share.strings <= old(share.strings)
    ensures share.held + RefsOfItems(items, n) == old(share.held)
    decreases items, 0, n
  {
    hide Refs, Cache.Balanced;
    if n > 0 {
      ItemsUnfolded(items, n);
      ghost var held, rest, last := share.held, RefsOfItems(items, n - 1), Refs(items[n - 1]);
      Part(rest, last, held);
      Destroy(items[n - 1], share);
      Left(rest, last, held, share.held);
      DestroyItems(items, n - 1, share);
      ConcatRefs(share.held, rest, last);
    }
  }

  method DestroyCells(cells: seq<Cell<Live>>, n: nat, share: Cache)
    requires n <= |cells| && share.Balanced() && RefsOfCells(cells, n) <= share.held
    modifies share`held, share`strings, share.strings
    ensures share.Balanced() && share.strings <= old(share.strings)
    ensures share.held + RefsOfCells(cells, n) == old(share.held)
    decreases cells, 0, n
  {
    hide Refs, Cache.Balanced, Name.Refs;
    if n > 0 {
      CellsUnfolded(cells, n);
      ghost var rest, last := RefsOfCells(cells, n - 1), cells[n - 1].name.Refs() + Refs(cells[n - 1].value);
      ghost var held := share.held;
      Part(rest, last, held);
      DestroyCell(cells[n - 1], share);
      Left(rest, last, held, share.held);
      DestroyCells(cells, n - 1, share);
      ConcatRefs(share.held, rest, last);
    }
  }

  method DestroyCell(cell: Cell<Live>, share: Cache)
    requires share.Balanced() && cell.name.Refs() + Refs(cell.value) <= share.held
    modifies share`held, share`strings, share.strings
    ensures share.Balanced() && share.strings <= old(share.strings)
    ensures share.held + (cell.name.Refs() + Refs(cell.value)) == old(share.held)
    decreases cell, 0, 0
  {
    hide Refs, Cache.Balanced, Name.Refs;
    ghost var held, name, value := share.held, cell.name.Refs(), Refs(cell.value);
    Part(name, value, held);
    Destroy(cell.value, share);
    Left(name, value, held, share.held);
    DestroyName(cell.name, share);
    ConcatRefs(share.held, name, value);
  }

  method DestroyName(name: Name, share: Cache)
    requires share.Balanced() && name.Refs() <= share.held
    modifies share`held, share`strings, share.strings
    ensures share.Balanced() && share.strings <= old(share.strings)
    ensures share.held + name.Refs() == old(share.held)
  {
    if name.Shared? {
      assert name.str in name.Refs();
      share.Unhold(name.str);
    }
  }

  /** The same, where there is a cache; without one there is nothing to give back. */
  method Drop(v: Live, share: Cache?)
    requires Usable(share) && Covered(share, Refs(v))
    modifies Footprint(share)
    ensures Usable(share) && Passed(share, Refs(v), multiset{})
  {
    if share != null {
      hide Cache.Placed, Cache.Balanced;
      Destroy(v, share);
    }
  }

  /** The table takes a reference to a key it did not have; the caller's own reference goes. */
  method HandOver(share: Cache, zk: ZString, added: bool)
    requires share.Valid() && zk in share.held && zk in share.strings
    modifies share`held, share`strings, zk
    ensures share.Valid() && share.strings <= old(share.strings)
    ensures share.held + (if added then multiset{} else multiset{zk}) == old(share.held)
  {
    hide Cache.Placed, Cache.Balanced;
    if added {
      share.AddRef(zk);
    }
    share.Release(zk);
  }

  /**
   * One table update, through a shared key when there is one. A key already there keeps its string and its
   * place, and the value it had goes.
   */
  method UpdateTable(ht: seq<Cell<Live>>, key: Bytes, child: Live, share: Cache?) returns (r: seq<Cell<Live>>)
    requires Usable(share) && Covered(share, RefsOfCells(ht, |ht|) + Refs(child))
    modifies Footprint(share)
    ensures ViewCells(r, |r|) == Upsert(ViewCells(ht, |ht|), key, View(child))
    ensures Usable(share) && Passed(share, RefsOfCells(ht, |ht|) + Refs(child), RefsOfCells(r, |r|))
  {
    hide Cache.Placed, Cache.Balanced, View, Refs, RefsOfCells, Name.Refs, Upsert, ViewCells;
    if share == null {
      r := PutName(ht, key, Owned(key), child);
      NoRefs(RefsOfCells(ht, |ht|), Refs(child), Owned(key));
    } else {
      r := UpdateShared(ht, key, child, share);
    }
  }

  method UpdateShared(ht: seq<Cell<Live>>, key: Bytes, child: Live, share: Cache) returns (r: seq<Cell<Live>>)
    requires share.Valid() && RefsOfCells(ht, |ht|) + Refs(child) <= share.held
    modifies share.Repr()
    ensures ViewCells(r, |r|) == Upsert(ViewCells(ht, |ht|), key, View(child))
    ensures share.Valid() && fresh(share.strings - old(share.strings))
    ensures share.held + (RefsOfCells(ht, |ht|) + Refs(child)) == old(share.held) + RefsOfCells(r, |r|)
  {
    hide Cache.Placed, Cache.Balanced, View, Refs, RefsOfCells, Name.Refs, Upsert, ViewCells;
    ghost var held, mine := share.held, RefsOfCells(ht, |ht|) + Refs(child);
    var zk := share.Share(key);
    assert share.held == held + KeyRefs(zk);
    r := PutName(ht, key, NameOf(zk, key), child);
    hide KeyRefs, NameOf;
    OneMore(mine, KeyRefs(zk), held);
    Settle(ht, key, child, zk, share, r);
    Cancelled(share.held, mine, KeyRefs(zk), held, RefsOfCells(r, |r|));
  }

  lemma OneMore<T>(mine: multiset<T>, own: multiset<T>, held: multiset<T>)
    requires mine <= held
    ensures mine + own <= held + own
  {
  }

  lemma Cancelled<T>(now: multiset<T>, mine: multiset<T>, own: multiset<T>, held: multiset<T>, after: multiset<T>)
    requires now + mine + own == held + own + after
    ensures now + mine == held + after
  {
    forall s ensures (now + mine)[s] == (held + after)[s] {
      assert (now + mine + own)[s] == (held + own + after)[s];
    }
  }

  /** The references once a table has taken a value: the value replaced gives back its own. */
  method Settle(ht: seq<Cell<Live>>, key: Bytes, child: Live, zk: ZString?, share: Cache, ghost r: seq<Cell<Live>>)
    requires share.Valid() && RefsOfCells(ht, |ht|) + Refs(child) + KeyRefs(zk) <= share.held
    requires var i := Find(ViewCells(ht, |ht|), key);
             if i < |ht| then RefsOfCells(r, |r|) + Refs(ht[i].value) == RefsOfCells(ht, |ht|) + Refs(child)
             else RefsOfCells(r, |r|) == RefsOfCells(ht, |ht|) + (KeyRefs(zk) + Refs(child))
    modifies share`held, share`strings, share.strings
    ensures share.Valid() && share.strings <= old(share.strings)
    ensures share.held + (RefsOfCells(ht, |ht|) + Refs(child)) + KeyRefs(zk) == old(share.held) + RefsOfCells(r, |r|)
  {
    hide Cache.Placed, Cache.Balanced, View, Refs, RefsOfCells, Name.Refs, KeyRefs, ViewCells;
    ghost var held, table, own := share.held, RefsOfCells(ht, |ht|), KeyRefs(zk);
    var i := Find(ViewCells(ht, |ht|), key);
    if i < |ht| {
      CellHolds(ht, i);
      HeldStill(table, Refs(child), Refs(ht[i].value), own, held);
      DropReplaced(ht[i].value, zk, share);
      Replaced(held, own, table, Refs(child), Refs(ht[i].value), RefsOfCells(r, |r|), share.held);
    } else {
      if zk != null {
        HeldKey(table + Refs(child), zk, share);
        HandOver(share, zk, true);
      }
      Added(held, own, table, Refs(child), RefsOfCells(r, |r|));
    }
  }

  lemma HeldKey(others: multiset<ZString>, zk: ZString, share: Cache)
    requires share.Balanced() && others + KeyRefs(zk) <= share.held
    ensures zk in share.held && zk in share.strings
  {
    Part(others, KeyRefs(zk), share.held);
    assert KeyRefs(zk)[zk] == 1;
  }

  /** The name a table uses for a key: the shared string if there is one. */
  function NameOf(zk: ZString?, key: Bytes): (name: Name)
    requires zk != null ==> zk.text == key
    ensures name.Text() == key && name.Refs() == KeyRefs(zk)
  {
    if zk == null then Owned(key) else Shared(zk)
  }

  function KeyRefs(zk: ZString?): multiset<ZString> {
    if zk == null then multiset{} else multiset{zk}
  }

  /** The value a key had, and the reference that found the key there. */
  method DropReplaced(gone: Live, zk: ZString?, share: Cache)
    requires share.Valid() && KeyRefs(zk) + Refs(gone) <= share.held
    modifies share`held, share`strings, share.strings
    ensures share.Valid() && share.strings <= old(share.strings)
    ensures share.held + KeyRefs(zk) + Refs(gone) == old(share.held)
  {
    hide Cache.Placed, Cache.Balanced, Refs;
    ghost var held := share.held;
    Part(KeyRefs(zk), Refs(gone), held);
    Destroy(gone, share);
    Left(KeyRefs(zk), Refs(gone), held, share.held);
    if zk != null {
      assert KeyRefs(zk)[zk] == 1;
      share.HeldIsAlive(zk);
      HandOver(share, zk, false);
    }
  }

  lemma NoRefs(a: multiset<ZString>, b: multiset<ZString>, name: Name)
    requires a + b == multiset{} && name.Owned?
    ensures a == b == name.Refs() == multiset{}
  {
    forall s ensures a[s] == b[s] == 0 {
      assert (a + b)[s] == 0;
    }
  }

  lemma HeldStill<T>(table: multiset<T>, child: multiset<T>, gone: multiset<T>, own: multiset<T>, held: multiset<T>)
    requires table + child + own <= held && gone <= table
    ensures own + gone <= held
  {
    forall s ensures (own + gone)[s] <= held[s] {
      assert (table + child + own)[s] <= held[s] && gone[s] <= table[s];
    }
  }

  lemma Replaced<T>(held: multiset<T>, own: multiset<T>, table: multiset<T>, child: multiset<T>, gone: multiset<T>,
                    after: multiset<T>, now: multiset<T>)
    requires after + gone == table + child && now + own + gone == held
    ensures now + (table + child) + own == held + after
  {
    forall s ensures (now + (table + child) + own)[s] == (held + after)[s] {
      assert (after + gone)[s] == (table + child)[s] && (now + own + gone)[s] == held[s];
    }
  }

  lemma Added<T>(held: multiset<T>, own: multiset<T>, table: multiset<T>, child: multiset<T>, after: multiset<T>)
    requires after == table + (own + child)
    ensures held + (table + child) + own == held + after
  {
  }

  /** Puts a value under a key: where the key is, or last. */
  method PutName(ht: seq<Cell<Live>>, key: Bytes, name: Name, child: Live) returns (r: seq<Cell<Live>>)
    requires name.Text() == key
    ensures ViewCells(r, |r|) == Upsert(ViewCells(ht, |ht|), key, View(child))
    ensures var i := Find(ViewCells(ht, |ht|), key);
            if i < |ht| then RefsOfCells(r, |r|) + Refs(ht[i].value) == RefsOfCells(ht, |ht|) + Refs(child)
            else RefsOfCells(r, |r|) == RefsOfCells(ht, |ht|) + (name.Refs() + Refs(child))
  {
    hide View, Refs, RefsOfCells, Name.Refs;
    var i := Find(ViewCells(ht, |ht|), key);
    r := Put(ht, i, name, child);
    PutShows(ht, key, name, child);
    PutHolds(ht, i, name, child);
  }

  /** A string, sanitised if the flags ask for it and the parser tagged it as malformed. */
  method TakeText(s: Bytes, f: Utf8Flags) returns (text: Bytes)
    ensures text == DecodeText(s, f)
  {
    text := s;
    SanitizeFixesExactlyTheIllFormed(s, Substitutes(f, ForDecode), false);
    hide WellFormed, Sanitize;
    if f.Handles() && !WellFormed(s) {
      var out, n := SanitizeUtf8(s, f, ForDecode);
      text := out[..n];
    }
  }

  lemma HeldNow(share: Cache?, before: multiset<ZString>, after: multiset<ZString>, base: multiset<ZString>)
    requires share != null ==> share.held + before == base + before + after
    ensures share != null ==> share.held == base + after
  {
    if share != null {
      Cancel(base, before, after, share.held);
    }
  }

  lemma CoveredWith(share: Cache?, a: multiset<ZString>, b: multiset<ZString>, base: multiset<ZString>)
    requires if share == null then a == b == multiset{} else a <= base && share.held == base + b
    ensures Covered(share, a + b) && Covered(share, b)
  {
  }

  lemma HeldSince(share: Cache?, before: multiset<ZString>, b: multiset<ZString>, after: multiset<ZString>,
                  base: multiset<ZString>)
    requires share != null ==> share.held + (before + b) == base + b + after
    ensures share != null ==> share.held + before == base + after
  {
    if share != null {
      forall s ensures (share.held + before)[s] == (base + after)[s] {
        assert (share.held + (before + b))[s] == (base + b + after)[s];
      }
    }
  }

  /** A literal or a number is held as it stands in the document. */
  predicate KeepsScalar(v: Value, out: Live) {
    && (v.Null? <==> out.LNull?)
    && (v.Bool? ==> out == LBool(v.b))
    && (v.Num? ==> out == LNum(v.lexeme, v.finite))
  }

  /**
   * The value stands for the document: read back as one, it is the document with its text sanitised and its repeated
   * names resolved, and where no flag is set the document itself with its repeated names resolved.
   */
  predicate StandsFor(out: Live, root: Value, f: Utf8Flags) {
    && View(out) == Decode(Sanitised(root, f), NO_FLAGS)
    && Document(View(out)) == Resolved(Sanitised(root, f))
    && (!f.ignore && !f.substitute ==> Document(View(out)) == Resolved(root))
    && KeepsScalar(root, out)
  }

  lemma DecodedStandsFor(root: Value, f: Utf8Flags, out: Live)
    requires View(out) == Decode(root, f) && KeepsScalar(root, out)
    ensures StandsFor(out, root, f)
  {
    hide Document, Resolved, Sanitised, View, KeepsScalar;
    FlagsSanitise(root, f);
    DecodeSays(Sanitised(root, f));
    DecodeSays(root);
  }

  /** The walk. Successful or not, the value it leaves holds exactly the references that have been added. */
  method Walk(v: Value, remaining: nat, f: Utf8Flags, share: Cache?) returns (ok: bool, out: Live)
    requires Usable(share)
    modifies Footprint(share)
    ensures ok <==> Depth(v) < remaining
    ensures ok ==> View(out) == Decode(v, f) && StandsFor(out, v, f)
    ensures Usable(share) && Holds(share, Refs(out))
    decreases v, 0
  {
    if remaining == 0 {
      return false, LNull;
    }
    hide StandsFor;
    match v {
      case Null => ok, out := true, LNull;
      case Bool(b) => ok, out := true, LBool(b);
      case Num(lexeme, finite) => ok, out := true, LNum(lexeme, finite);
      case Str(s) =>
        var text := TakeText(s, f);
        ok, out := true, LStr(text);
      case Arr(items) =>
        if remaining <= 1 {
          return false, LNull;
        }
        ok, out := WalkArray(items, remaining, f, share);
      case Obj(members) =>
        if remaining <= 1 {
          return false, LNull;
        }
        ok, out := WalkObject(members, remaining, f, share);
    }
    if ok {
      DecodedStandsFor(v, f, out);
    }
  }

  method WalkArray(items: seq<Value>, remaining: nat, f: Utf8Flags, share: Cache?) returns (ok: bool, out: Live)
    requires Usable(share) && remaining > 1
    modifies Footprint(share)
    ensures ok <==> DepthItems(items, |items|) < remaining - 1
    ensures ok ==> View(out) == ZList(DecodeItems(items, |items|, f))
    ensures Usable(share) && Holds(share, Refs(out))
    decreases items, 0
  {
    var filled: seq<Live> := [];
    hide Decode, Depth, Usable, View, Refs, RefsOfItems;
    NothingHeld();
    ok := true;
    for n := 0 to |items|
      invariant ok && DepthItems(items, n) < remaining - 1
      invariant ViewItems(filled, |filled|) == DecodeItems(items, n, f)
      invariant Usable(share) && Holds(share, RefsOfItems(filled, |filled|))
    {
      ghost var before := RefsOfItems(filled, |filled|);
      ok, filled := WalkItem(items[n], filled, remaining - 1, f, share);
      HeldNow(share, before, RefsOfItems(filled, |filled|), if share == null then multiset{} else old(share.held));
      if !ok {
        DeepItem(items, n, remaining - 1);
        break;
      }
    }
    ListHolds(filled);
    out := LList(filled);
  }

  lemma NothingHeld()
    ensures RefsOfItems([], 0) == RefsOfCells([], 0) == multiset{}
  {
  }

  /** One more element; a partial one goes again. */
  method WalkItem(v: Value, filled: seq<Live>, remaining: nat, f: Utf8Flags, share: Cache?)
    returns (ok: bool, filled': seq<Live>)
    requires Usable(share) && Covered(share, RefsOfItems(filled, |filled|))
    modifies Footprint(share)
    ensures ok <==> Depth(v) < remaining
    ensures ok ==> ViewItems(filled', |filled'|) == ViewItems(filled, |filled|) + [Decode(v, f)]
    ensures !ok ==> filled' == filled
    ensures Usable(share) && Passed(share, RefsOfItems(filled, |filled|), RefsOfItems(filled', |filled'|))
    decreases v, 1
  {
    hide Decode, Depth, Usable, View, Refs, RefsOfItems, ViewItems;
    var child;
    ok, child := Walk(v, remaining, f, share);
    if ok {
      ItemAdded(filled, child);
      filled' := filled + [child];
    } else {
      ghost var held := Refs(child);
      Drop(child, share);
      HeldNow(share, held, multiset{}, if share == null then multiset{} else old(share.held));
      filled' := filled;
    }
  }

  lemma {:induction false} DeepItem(items: seq<Value>, k: nat, bound: nat)
    requires k < |items| && Depth(items[k]) >= bound && bound > 0
    ensures DepthItems(items, |items|) >= bound
  {
    DepthProbe.ItemsWithin(items, |items|, bound);
  }

  lemma {:induction false} DeepMember(members: seq<Entry<Value>>, k: nat, bound: nat)
    requires k < |members| && Depth(members[k].value) >= bound && bound > 0
    ensures DepthMembers(members, |members|) >= bound
  {
    DepthProbe.MembersWithin(members, |members|, bound);
  }

  method WalkObject(members: seq<Entry<Value>>, remaining: nat, f: Utf8Flags, share: Cache?)
    returns (ok: bool, out: Live)
    requires Usable(share) && remaining > 1
    modifies Footprint(share)
    ensures ok <==> DepthMembers(members, |members|) < remaining - 1
    ensures ok ==> View(out) == ZMap(DecodeMembers(members, |members|, f))
    ensures Usable(share) && Holds(share, Refs(out))
    decreases members, 0
  {
    var ht: seq<Cell<Live>> := [];
    hide Decode, Depth, DecodeText, Upsert, View, Refs, RefsOfCells, Usable;
    NothingHeld();
    ok := true;
    for n := 0 to |members|
      invariant ok && DepthMembers(members, n) < remaining - 1
      invariant ViewCells(ht, |ht|) == DecodeMembers(members, n, f)
      invariant Usable(share) && Holds(share, RefsOfCells(ht, |ht|))
    {
      ghost var before := RefsOfCells(ht, |ht|);
      hide ViewCells, DecodeMembers;
      ok, ht := WalkMember(members[n].key, members[n].value, ht, remaining - 1, f, share);
      HeldNow(share, before, RefsOfCells(ht, |ht|), if share == null then multiset{} else old(share.held));
      MemberDecoded(members, n, f);
      if !ok {
        DeepMember(members, n, remaining - 1);
        break;
      }
    }
    TableHolds(ht);
    out := LTable(ht);
  }

  lemma MemberDecoded(members: seq<Entry<Value>>, n: nat, f: Utf8Flags)
    requires n < |members|
    ensures DecodeMembers(members, n + 1, f)
         == Upsert(DecodeMembers(members, n, f), DecodeText(members[n].key, f), Decode(members[n].value, f))
  {
    hide Decode, DecodeText, Upsert;
  }

  /** One more member; a partial value goes again. */
  method WalkMember(key: Bytes, v: Value, ht: seq<Cell<Live>>, remaining: nat, f: Utf8Flags, share: Cache?)
    returns (ok: bool, ht': seq<Cell<Live>>)
    requires Usable(share) && Covered(share, RefsOfCells(ht, |ht|))
    modifies Footprint(share)
    ensures ok <==> Depth(v) < remaining
    ensures ok ==> ViewCells(ht', |ht'|) == Upsert(ViewCells(ht, |ht|), DecodeText(key, f), Decode(v, f))
    ensures !ok ==> ht' == ht
    ensures Usable(share) && Passed(share, RefsOfCells(ht, |ht|), RefsOfCells(ht', |ht'|))
    decreases v, 1
  {
    hide Decode, Depth, DecodeText, Usable, View, Refs, RefsOfCells, ViewCells, Upsert;
    var child;
    var name := TakeText(key, f);
    ok, child := Walk(v, remaining, f, share);
    ghost var base, held := if share == null then multiset{} else old(share.held), Refs(child);
    CoveredWith(share, RefsOfCells(ht, |ht|), held, base);
    if ok {
      ht' := UpdateTable(ht, name, child, share);
      HeldSince(share, RefsOfCells(ht, |ht|), held, RefsOfCells(ht', |ht'|), base);
    } else {
      Drop(child, share);
      HeldNow(share, held, multiset{}, base);
      ht' := ht;
    }
  }

  /** The sizes a decode runs with. */
  datatype Sharing = Sharing(config: Config, minInput: nat)

  /**
   * A whole decode: the cache is installed, used and dropped, and the enclosing decode's cache is current
   * again. Neither the result nor the depth test depends on any of it. Afterwards the strings the cache made
   * count exactly the references the result's tables hold; a failed decode leaves none.
   */
  method DecodeShared(rt: Runtime, root: Value, inputLen: nat, depth: nat, f: Utf8Flags, sharing: Sharing)
    returns (ok: bool, out: Live, ghost cache: Cache)
    requires sharing.config.Valid()
    modifies rt
    ensures ok <==> Depth(root) < depth
    ensures ok ==> View(out) == Decode(root, f) && StandsFor(out, root, f)
    ensures !ok ==> out == LNull
    ensures rt.keyShare == old(rt.keyShare)
    ensures fresh(cache) && cache.Balanced() && cache.resident == {} && cache.held == Refs(out)
  {
    assert Refs(LNull) == multiset{};
    hide Cache.Placed, Cache.Balanced, Decode, Depth, View, Refs, StandsFor;
    var local, prev := rt.Push(sharing.config, inputLen, sharing.minInput);
    var share := rt.keyShare;
    cache := local;
    ok, out := Walk(root, depth, f, share);
    rt.Pop(local, prev);
    if !ok {
      if share != null {
        Destroy(out, share);
      }
      out := LNull;
    }
  }
}
