/**
 * What encoding a PHP value means: one left-to-right depth-first traversal that collects every error it
 * meets and the document it would print, substitutes included.
 */
module Encoding {
  import opened ByteStrings
  import opened Escape
  import opened Json
  import opened PhpHeap
  import opened PointerText
  import opened Sanitizer
  import opened Utf8
  import opened Wrappers

  datatype Error =
    | NoError
    | DepthError
    | RecursionError
    | Utf8Error
    | NonFinite
    | NonBackedEnum
    | Unsupported
    | TooLarge

  /** Numbers come spelled as `preserveZero` asks; the other flags are acted on here. */
  datatype Options = Options(style: Style, utf8: Utf8Flags, numericCheck: bool, forceObject: bool, preserveZero: bool,
                             partial: bool)

  datatype Scene = Scene(heap: Heap, o: Options)

  /** Where a traversal stands: levels left, containers being walked, objects being serialised. */
  datatype Place = Place(remaining: nat, marks: set<nat>, guards: set<nat>)

  /** The errors met, in order, and the document printed for what was walked. */
  datatype Walked<T> = Walked(errors: seq<Error>, tree: T)

  const ZERO: Value := Num([DIGIT_0], true)

  // ---------------------------------------------------------------- scalars

  /** The string actually encoded: sanitised if it has to be and the flags allow it. */
  function Spelled(s: Bytes, o: Options): Option<Bytes> {
    if WellFormed(s) then Some(s)
    else if o.utf8.Handles() then Some(SanitizeFor(s, o.utf8, ForEncode))
    else None
  }

  function WalkText(s: Bytes, o: Options): Walked<Value> {
    match Spelled(s, o)
    case Some(t) => Walked([], Str(t))
    case None => Walked([Utf8Error], Null)
  }

  function WalkKey(key: Key, o: Options): Walked<Bytes> {
    match key
    case Index(i) => Walked([], IntText(i))
    case Name(s) =>
      match Spelled(s, o)
      case Some(t) => Walked([], t)
      case None => Walked([Utf8Error], [])
  }

  /** Everything but arrays and objects. */
  function WalkScalar(v: Data, o: Options): Walked<Value>
    requires !v.Array? && !v.Object?
  {
    match v
    case Nil => Walked([], Null)
    case Truth(b) => Walked([], Bool(b))
    case Long(n) => Walked([], Num(IntText(n), true))
    case Double(lexeme, finite) => if finite then Walked([], Num(lexeme, true)) else Walked([NonFinite], ZERO)
    case Text(s, numeric) =>
      if o.numericCheck && numeric.Some? then Walked([], Num(numeric.value, true)) else WalkText(s, o)
    case Resource => Walked([Unsupported], Null)
  }

  // ---------------------------------------------------------------- containers

  predicate AsList(s: Scene, id: nat) {
    !s.o.forceObject && IsList(Elems(s.heap, id))
  }

  /** One container further in. */
  function Inside(p: Place, id: nat): Place
    requires p.remaining > 0
  {
    Place(p.remaining - 1, p.marks + {id}, p.guards)
  }

  /** The objects whose serializers are not running. */
  function Free(heap: Heap, guards: set<nat>): set<nat> {
    Ids(heap) - guards
  }

  /**
   * `quiet` holds once a non-finite number has been met and output is lost: serializers and getters are
   * not called any more, so what they would return is not looked at.
   */
  function Walk(s: Scene, v: Data, p: Place, quiet: bool): Walked<Value>
    decreases p.remaining, Free(s.heap, p.guards), 3
  {
    match v
    case Array(id) =>
      if p.remaining == 0 then Walked([DepthError], Null)
      else if id in p.marks then Walked([RecursionError], Null)
      else WalkElems(s, id, Inside(p, id), quiet)
    case Object(id) =>
      (match KindOf(s.heap, id)
       case Serializable(result) =>
         if quiet then Walked([], Null)
         else if id in p.guards then Walked([RecursionError], Null)
         else if result == v then WalkObject(s, id, p, quiet)
         else
           assert id in Free(s.heap, p.guards) && id !in Free(s.heap, p.guards + {id});
           Walk(s, result, p.(guards := p.guards + {id}), quiet)
       case Enum(Unbacked) => Walked([NonBackedEnum], ZERO)
       case Enum(BackedByInt(n)) => WalkScalar(Long(n), s.o)
       case Enum(BackedByString(t, numeric)) => WalkScalar(Text(t, numeric), s.o)
       case Plain => WalkObject(s, id, p, quiet))
    case _ => WalkScalar(v, s.o)
  }

  /** An array's elements, as a list or as an object. */
  function WalkElems(s: Scene, id: nat, p: Place, quiet: bool): Walked<Value>
    decreases p.remaining, Free(s.heap, p.guards), 6
  {
    var elems := Elems(s.heap, id);
    if AsList(s, id) then
      var items := WalkItems(s, elems, |elems|, p, quiet);
      Walked(items.errors, Arr(items.tree))
    else
      var members := WalkMembers(s, elems, |elems|, p, quiet);
      Walked(members.errors, Obj(members.tree))
  }

  /** An object's property view. */
  function WalkObject(s: Scene, id: nat, p: Place, quiet: bool): Walked<Value>
    decreases p.remaining, Free(s.heap, p.guards), 2
  {
    if p.remaining == 0 then Walked([DepthError], Null)
    else if Props(s.heap, id).None? then Walked([], Obj([]))
    else if id in p.marks then Walked([RecursionError], Null)
    else
      var props := Props(s.heap, id).value;
      var members := WalkProps(s, props, |props|, Inside(p, id), quiet);
      Walked(members.errors, Obj(members.tree))
  }

  /** Whether what follows `errors` is walked quietly. */
  predicate Quiet(o: Options, quiet: bool, errors: seq<Error>) {
    quiet || (!o.partial && NonFinite in errors)
  }

  function WalkItems(s: Scene, elems: seq<Elem>, n: nat, p: Place, quiet: bool): (r: Walked<seq<Value>>)
    requires n <= |elems|
    ensures |r.tree| == n
    decreases p.remaining, Free(s.heap, p.guards), 5, n
  {
    if n == 0 then Walked([], [])
    else
      var before := WalkItems(s, elems, n - 1, p, quiet);
      var item := Walk(s, elems[n - 1].value, p, Quiet(s.o, quiet, before.errors));
      Walked(before.errors + item.errors, before.tree + [item.tree])
  }

  /** One member: its key, then its value. */
  function WalkMember(s: Scene, key: Key, value: Data, p: Place, quiet: bool): Walked<Entry<Value>>
    decreases p.remaining, Free(s.heap, p.guards), 4
  {
    var k, v := WalkKey(key, s.o), Walk(s, value, p, quiet);
    Walked(k.errors + v.errors, Entry(k.tree, v.tree))
  }

  function WalkMembers(s: Scene, elems: seq<Elem>, n: nat, p: Place, quiet: bool): (r: Walked<seq<Entry<Value>>>)
    requires n <= |elems|
    ensures |r.tree| == n
    decreases p.remaining, Free(s.heap, p.guards), 5, n
  {
    if n == 0 then Walked([], [])
    else
      var before := WalkMembers(s, elems, n - 1, p, quiet);
      var member := WalkMember(s, elems[n - 1].key, elems[n - 1].value, p, Quiet(s.o, quiet, before.errors));
      Walked(before.errors + member.errors, before.tree + [member.tree])
  }

  /** The value a property shows, if it shows one. A getter is not called quietly. */
  function Shown(prop: Prop, quiet: bool): Option<Data> {
    if Mangled(prop.key) then None
    else match prop.slot
      case Held(value) => Some(value)
      case Hooked(returned) => if quiet then None else returned
      case _ => None
  }

  function WalkProps(s: Scene, props: seq<Prop>, n: nat, p: Place, quiet: bool): (r: Walked<seq<Entry<Value>>>)
    requires n <= |props|
    decreases p.remaining, Free(s.heap, p.guards), 5, n
  {
    if n == 0 then Walked([], [])
    else
      var before := WalkProps(s, props, n - 1, p, quiet);
      var hush := Quiet(s.o, quiet, before.errors);
      match Shown(props[n - 1], hush)
      case None => before
      case Some(value) =>
        var member := WalkMember(s, props[n - 1].key, value, p, hush);
        Walked(before.errors + member.errors, before.tree + [member.tree])
  }

  // ---------------------------------------------------------------- which error is reported

  /** The first error other than a non-finite number. */
  function FirstHard(errors: seq<Error>): (e: Error)
    ensures e == NoError || (e in errors && e != NonFinite)
  {
    if errors == [] then NoError
    else
      var e := FirstHard(errors[..|errors| - 1]);
      if e != NoError then e
      else if errors[|errors| - 1] == NonFinite then NoError
      else errors[|errors| - 1]
  }

  /** Without partial output: the first error other than a non-finite number if there is one, that one else. */
  function Reported(errors: seq<Error>): Error {
    if errors == [] then NoError else if FirstHard(errors) != NoError then FirstHard(errors) else NonFinite
  }

  /** With partial output: the last error met. */
  function LastError(before: Error, errors: seq<Error>): Error {
    if errors == [] then before else errors[|errors| - 1]
  }

  lemma {:induction false} FirstHardAppend(a: seq<Error>, b: seq<Error>)
    ensures FirstHard(a + b) == if FirstHard(a) != NoError then FirstHard(a) else FirstHard(b)
  {
    if b == [] {
      assert a + b == a;
    } else {
      assert (a + b)[..|a + b| - 1] == a + b[..|b| - 1];
      FirstHardAppend(a, b[..|b| - 1]);
    }
  }

  /** The reported error is the first that is not a non-finite number, wherever that one comes. */
  lemma {:induction false} ReportedIsFirst(errors: seq<Error>, k: nat)
    requires k < |errors| && errors[k] != NonFinite && errors[k] != NoError
    requires forall j :: 0 <= j < k ==> errors[j] == NonFinite
    ensures Reported(errors) == errors[k]
  {
    AllNonFinite(errors[..k]);
    assert FirstHard(errors[..k + 1]) == errors[k] by {
      assert errors[..k + 1][..k] == errors[..k];
    }
    PrefixDecides(errors[..k + 1], errors);
  }

  /** A non-finite number is reported only where nothing else is wrong. */
  lemma {:induction false} AllNonFinite(errors: seq<Error>)
    requires forall j :: 0 <= j < |errors| ==> errors[j] == NonFinite
    ensures FirstHard(errors) == NoError
    ensures errors != [] ==> Reported(errors) == NonFinite
  {
    if errors != [] {
      AllNonFinite(errors[..|errors| - 1]);
    }
  }

  /** What a prefix of the errors already decides. */
  lemma {:induction false} PrefixDecides(a: seq<Error>, all: seq<Error>)
    requires a <= all && a != []
    ensures all[0] == a[0]
    ensures FirstHard(a) != NoError ==> FirstHard(all) == FirstHard(a)
  {
    FirstHardAppend(a, all[|a|..]);
    assert a + all[|a|..] == all;
  }

  // ---------------------------------------------------------------- traversals grow

  lemma ItemsUnfolded(s: Scene, elems: seq<Elem>, k: nat, p: Place, quiet: bool)
    requires k < |elems|
    ensures var before := WalkItems(s, elems, k, p, quiet);
            var item := Walk(s, elems[k].value, p, Quiet(s.o, quiet, before.errors));
            WalkItems(s, elems, k + 1, p, quiet) == Walked(before.errors + item.errors, before.tree + [item.tree])
  {
    hide Walk, Quiet;
  }

  lemma MembersUnfolded(s: Scene, elems: seq<Elem>, k: nat, p: Place, quiet: bool)
    requires k < |elems|
    ensures var before := WalkMembers(s, elems, k, p, quiet);
            var m := WalkMember(s, elems[k].key, elems[k].value, p, Quiet(s.o, quiet, before.errors));
            WalkMembers(s, elems, k + 1, p, quiet) == Walked(before.errors + m.errors, before.tree + [m.tree])
  {
    hide WalkMember, Quiet;
  }

  lemma PropsUnfolded(s: Scene, props: seq<Prop>, k: nat, p: Place, quiet: bool)
    requires k < |props|
    ensures var before := WalkProps(s, props, k, p, quiet);
            var hush := Quiet(s.o, quiet, before.errors);
            WalkProps(s, props, k + 1, p, quiet)
            == match Shown(props[k], hush)
               case None => before
               case Some(value) =>
                 var m := WalkMember(s, props[k].key, value, p, hush);
                 Walked(before.errors + m.errors, before.tree + [m.tree])
  {
    hide WalkMember, Quiet, Shown;
  }

  lemma PrefixOfPrefix<T>(a: seq<T>, b: seq<T>, c: seq<T>)
    requires a <= b <= c
    ensures a <= c
  {
  }

  lemma ItemsOneMore(s: Scene, elems: seq<Elem>, k: nat, p: Place, quiet: bool)
    requires k < |elems|
    ensures WalkItems(s, elems, k, p, quiet).errors <= WalkItems(s, elems, k + 1, p, quiet).errors
    ensures WalkItems(s, elems, k, p, quiet).tree <= WalkItems(s, elems, k + 1, p, quiet).tree
  {
    hide WalkItems, Walk, Quiet;
    ItemsUnfolded(s, elems, k, p, quiet);
  }

  lemma {:induction false} ItemsExtend(s: Scene, elems: seq<Elem>, m: nat, n: nat, p: Place, quiet: bool)
    requires m <= n <= |elems|
    ensures WalkItems(s, elems, m, p, quiet).errors <= WalkItems(s, elems, n, p, quiet).errors
    ensures WalkItems(s, elems, m, p, quiet).tree <= WalkItems(s, elems, n, p, quiet).tree
    decreases n - m
  {
    if m < n {
      hide *;
      ItemsExtend(s, elems, m, n - 1, p, quiet);
      ItemsOneMore(s, elems, n - 1, p, quiet);
      var a, b, c := WalkItems(s, elems, m, p, quiet), WalkItems(s, elems, n - 1, p, quiet),
          WalkItems(s, elems, n, p, quiet);
      PrefixOfPrefix(a.errors, b.errors, c.errors);
      PrefixOfPrefix(a.tree, b.tree, c.tree);
    }
  }

  lemma MembersOneMore(s: Scene, elems: seq<Elem>, k: nat, p: Place, quiet: bool)
    requires k < |elems|
    ensures WalkMembers(s, elems, k, p, quiet).errors <= WalkMembers(s, elems, k + 1, p, quiet).errors
    ensures WalkMembers(s, elems, k, p, quiet).tree <= WalkMembers(s, elems, k + 1, p, quiet).tree
  {
    hide WalkMembers, WalkMember, Quiet;
    MembersUnfolded(s, elems, k, p, quiet);
  }

  lemma {:induction false} MembersExtend(s: Scene, elems: seq<Elem>, m: nat, n: nat, p: Place, quiet: bool)
    requires m <= n <= |elems|
    ensures WalkMembers(s, elems, m, p, quiet).errors <= WalkMembers(s, elems, n, p, quiet).errors
    ensures WalkMembers(s, elems, m, p, quiet).tree <= WalkMembers(s, elems, n, p, quiet).tree
    decreases n - m
  {
    if m < n {
      hide *;
      MembersExtend(s, elems, m, n - 1, p, quiet);
      MembersOneMore(s, elems, n - 1, p, quiet);
      var a, b, c := WalkMembers(s, elems, m, p, quiet), WalkMembers(s, elems, n - 1, p, quiet),
          WalkMembers(s, elems, n, p, quiet);
      PrefixOfPrefix(a.errors, b.errors, c.errors);
      PrefixOfPrefix(a.tree, b.tree, c.tree);
    }
  }

  lemma PropsOneMore(s: Scene, props: seq<Prop>, k: nat, p: Place, quiet: bool)
    requires k < |props|
    ensures WalkProps(s, props, k, p, quiet).errors <= WalkProps(s, props, k + 1, p, quiet).errors
    ensures WalkProps(s, props, k, p, quiet).tree <= WalkProps(s, props, k + 1, p, quiet).tree
  {
    hide WalkProps, WalkMember, Quiet, Shown;
    PropsUnfolded(s, props, k, p, quiet);
  }

  lemma {:induction false} PropsExtend(s: Scene, props: seq<Prop>, m: nat, n: nat, p: Place, quiet: bool)
    requires m <= n <= |props|
    ensures WalkProps(s, props, m, p, quiet).errors <= WalkProps(s, props, n, p, quiet).errors
    ensures WalkProps(s, props, m, p, quiet).tree <= WalkProps(s, props, n, p, quiet).tree
    decreases n - m
  {
    if m < n {
      hide *;
      PropsExtend(s, props, m, n - 1, p, quiet);
      PropsOneMore(s, props, n - 1, p, quiet);
      var a, b, c := WalkProps(s, props, m, p, quiet), WalkProps(s, props, n - 1, p, quiet),
          WalkProps(s, props, n, p, quiet);
      PrefixOfPrefix(a.errors, b.errors, c.errors);
      PrefixOfPrefix(a.tree, b.tree, c.tree);
    }
  }

  // ---------------------------------------------------------------- text

  predicate DigitOrSign(c: Byte) {
    Digit(c) || c == MINUS
  }

  lemma DigitHead(s: Bytes, f: WriteFlags, h: HexFlags)
    requires s != [] && DigitOrSign(s[0])
    ensures Body(s, f, h) == [s[0]] + Body(s[1..], f, h)
  {
    assert ValidAt(s, 0) && SeqLen(s[0]) == 1;
    assert EscapeScalar(DecodeHead(s), f, h) == [s[0]] by { hide Body; }
    hide ValidAt, EscapeScalar, DecodeHead;
  }

  /** Digits and signs need no escaping. */
  lemma {:induction false} DigitsBody(s: Bytes, f: WriteFlags, h: HexFlags)
    requires forall k :: 0 <= k < |s| ==> DigitOrSign(s[k])
    ensures Body(s, f, h) == s
  {
    hide ValidAt, EscapeScalar, DecodeHead, DigitOrSign;
    if s != [] {
      DigitHead(s, f, h);
      hide Body;
      DigitsBody(s[1..], f, h);
      assert s == [s[0]] + s[1..];
    }
  }

  lemma IntKeyText(n: int, st: Style)
    ensures Quoted(IntText(n), st.write, st.hex) == [QUOTE] + IntText(n) + [QUOTE]
  {
    DecimalIsNumeral(if n < 0 then -n else n);
    DigitsBody(IntText(n), st.write, st.hex);
  }

  /** A printed list grows at its end. */
  lemma {:induction false} PrintItemsPrefix(a: seq<Value>, b: seq<Value>, n: nat, level: nat, st: Style)
    requires n <= |a| && n <= |b| && forall k :: 0 <= k < n ==> a[k] == b[k]
    ensures PrintItems(a, n, level, st) == PrintItems(b, n, level, st)
  {
    hide Print, Lead;
    if n > 0 {
      PrintItemsPrefix(a, b, n - 1, level, st);
    }
  }

  lemma {:induction false} PrintMembersPrefix(a: seq<Entry<Value>>, b: seq<Entry<Value>>, n: nat, level: nat, st: Style)
    requires n <= |a| && n <= |b| && forall k :: 0 <= k < n ==> a[k] == b[k]
    ensures PrintMembers(a, n, level, st) == PrintMembers(b, n, level, st)
  {
    hide Print, Lead, KeyText;
    if n > 0 {
      PrintMembersPrefix(a, b, n - 1, level, st);
    }
  }

  lemma ItemAppended(items: seq<Value>, item: Value, level: nat, st: Style)
    ensures PrintItems(items, |items|, level, st) + (Lead(|items|, level, st) + Print(item, level, st))
         == PrintItems(items + [item], |items| + 1, level, st)
  {
    var all := items + [item];
    hide *;
    PrintItemsPrefix(items, all, |items|, level, st);
    ItemsGrow([], all, |items|, level, st);
    assert [] + PrintItems(all, |items|, level, st) == PrintItems(all, |items|, level, st);
    assert [] + PrintItems(all, |items| + 1, level, st) == PrintItems(all, |items| + 1, level, st);
  }

  /** The n-th member of a container, with what separates it. */
  function PieceText(m: Entry<Value>, n: nat, level: nat, st: Style): Bytes {
    Lead(n, level, st) + KeyText(m.key, st) + Print(m.value, level, st)
  }

  lemma MemberAppended(members: seq<Entry<Value>>, m: Entry<Value>, level: nat, st: Style)
    ensures PrintMembers(members, |members|, level, st) + PieceText(m, |members|, level, st)
         == PrintMembers(members + [m], |members| + 1, level, st)
  {
    var all := members + [m];
    var piece := PieceText(m, |members|, level, st);
    assert piece == Lead(|members|, level, st) + KeyText(m.key, st) + Print(m.value, level, st);
    hide *;
    PrintMembersPrefix(members, all, |members|, level, st);
    MembersGrow([], all, |members|, level, st);
    assert [] + PrintMembers(all, |members|, level, st) == PrintMembers(all, |members|, level, st);
    assert [] + PrintMembers(all, |members| + 1, level, st) == PrintMembers(all, |members| + 1, level, st);
  }

  // ---------------------------------------------------------------- a part takes no more room than the whole

  lemma PrintItemsFit(a: seq<Value>, b: seq<Value>, level: nat, st: Style)
    requires a <= b
    ensures |PrintItems(a, |a|, level, st)| <= |PrintItems(b, |b|, level, st)|
  {
    hide *;
    PrintItemsPrefix(a, b, |a|, level, st);
    ItemsTakeRoom(b, |a|, |b|, level, st);
  }

  lemma PrintMembersFit(a: seq<Entry<Value>>, b: seq<Entry<Value>>, level: nat, st: Style)
    requires a <= b
    ensures |PrintMembers(a, |a|, level, st)| <= |PrintMembers(b, |b|, level, st)|
  {
    hide *;
    PrintMembersPrefix(a, b, |a|, level, st);
    MembersTakeRoom(b, |a|, |b|, level, st);
  }

  // ---------------------------------------------------------------- one step of a quiet traversal

  /** Nothing but non-finite numbers so far, and at least one of them. */
  predicate Hushed(o: Options, quiet: bool, errors: seq<Error>) {
    FirstHard(errors) == NoError && Quiet(o, quiet, errors)
  }

  lemma HushedStep(o: Options, quiet: bool, before: seq<Error>, e: seq<Error>, all: seq<Error>)
    requires Hushed(o, quiet, before) && before + e <= all
    ensures FirstHard(e) == NoError ==> Hushed(o, quiet, before + e)
    ensures FirstHard(e) != NoError ==> FirstHard(all) == FirstHard(e)
  {
    FirstHardAppend(before, e);
    if before + e != [] {
      PrefixDecides(before + e, all);
    }
    hide FirstHard;
  }

  lemma HushedItem(s: Scene, elems: seq<Elem>, k: nat, p: Place, quiet: bool)
    requires k < |elems| && Hushed(s.o, quiet, WalkItems(s, elems, k, p, quiet).errors)
    ensures var e := Walk(s, elems[k].value, p, true).errors;
            && (FirstHard(e) == NoError ==> Hushed(s.o, quiet, WalkItems(s, elems, k + 1, p, quiet).errors))
            && (FirstHard(e) != NoError ==> FirstHard(WalkItems(s, elems, |elems|, p, quiet).errors) == FirstHard(e))
  {
    hide Walk, WalkMember, WalkItems, FirstHard;
    var before, e := WalkItems(s, elems, k, p, quiet).errors, Walk(s, elems[k].value, p, true).errors;
    ItemsUnfolded(s, elems, k, p, quiet);
    ItemsExtend(s, elems, k + 1, |elems|, p, quiet);
    HushedStep(s.o, quiet, before, e, WalkItems(s, elems, |elems|, p, quiet).errors);
  }

  lemma HushedMember(s: Scene, elems: seq<Elem>, k: nat, p: Place, quiet: bool)
    requires k < |elems| && Hushed(s.o, quiet, WalkMembers(s, elems, k, p, quiet).errors)
    ensures var e := WalkMember(s, elems[k].key, elems[k].value, p, true).errors;
            && (FirstHard(e) == NoError ==> Hushed(s.o, quiet, WalkMembers(s, elems, k + 1, p, quiet).errors))
            && (FirstHard(e) != NoError ==> FirstHard(WalkMembers(s, elems, |elems|, p, quiet).errors) == FirstHard(e))
  {
    hide Walk, WalkMember, WalkMembers, FirstHard;
    var before, e := WalkMembers(s, elems, k, p, quiet).errors,
        WalkMember(s, elems[k].key, elems[k].value, p, true).errors;
    MembersUnfolded(s, elems, k, p, quiet);
    MembersExtend(s, elems, k + 1, |elems|, p, quiet);
    HushedStep(s.o, quiet, before, e, WalkMembers(s, elems, |elems|, p, quiet).errors);
  }

  lemma HushedProp(s: Scene, props: seq<Prop>, k: nat, p: Place, quiet: bool)
    requires k < |props| && Hushed(s.o, quiet, WalkProps(s, props, k, p, quiet).errors)
    ensures Shown(props[k], true).None? ==> WalkProps(s, props, k + 1, p, quiet) == WalkProps(s, props, k, p, quiet)
    ensures Shown(props[k], true).Some? ==>
              var e := WalkMember(s, props[k].key, Shown(props[k], true).value, p, true).errors;
              && (FirstHard(e) == NoError ==> Hushed(s.o, quiet, WalkProps(s, props, k + 1, p, quiet).errors))
              && (FirstHard(e) != NoError ==> FirstHard(WalkProps(s, props, |props|, p, quiet).errors) == FirstHard(e))
  {
    hide Walk, WalkMember, WalkProps, FirstHard, Shown;
    var before := WalkProps(s, props, k, p, quiet).errors;
    PropsUnfolded(s, props, k, p, quiet);
    if Shown(props[k], true).Some? {
      var e := WalkMember(s, props[k].key, Shown(props[k], true).value, p, true).errors;
      PropsExtend(s, props, k + 1, |props|, p, quiet);
      HushedStep(s.o, quiet, before, e, WalkProps(s, props, |props|, p, quiet).errors);
    }
  }

  /** A quiet traversal starts with nothing found. */
  lemma HushedStart(o: Options)
    ensures Hushed(o, true, [])
  {
  }

  // ---------------------------------------------------------------- one step of a traversal that goes well

  lemma ItemsStep(s: Scene, elems: seq<Elem>, k: nat, p: Place)
    requires k < |elems|
    ensures var w, item := WalkItems(s, elems, k, p, false), Walk(s, elems[k].value, p, false);
            w.errors == [] || s.o.partial
            ==> WalkItems(s, elems, k + 1, p, false) == Walked(w.errors + item.errors, w.tree + [item.tree])
  {
    hide WalkItems, Walk;
    ItemsUnfolded(s, elems, k, p, false);
  }

  lemma MembersStep(s: Scene, elems: seq<Elem>, k: nat, p: Place)
    requires k < |elems|
    ensures var w, m := WalkMembers(s, elems, k, p, false), WalkMember(s, elems[k].key, elems[k].value, p, false);
            w.errors == [] || s.o.partial
            ==> WalkMembers(s, elems, k + 1, p, false) == Walked(w.errors + m.errors, w.tree + [m.tree])
  {
    hide WalkMembers, WalkMember;
    MembersUnfolded(s, elems, k, p, false);
  }

  lemma PropsStep(s: Scene, props: seq<Prop>, k: nat, p: Place)
    requires k < |props|
    ensures var w, shown := WalkProps(s, props, k, p, false), Shown(props[k], false);
            w.errors == [] || s.o.partial
            ==> WalkProps(s, props, k + 1, p, false)
                == if shown.None? then w
                   else var m := WalkMember(s, props[k].key, shown.value, p, false);
                        Walked(w.errors + m.errors, w.tree + [m.tree])
  {
    hide WalkProps, WalkMember, Shown;
    PropsUnfolded(s, props, k, p, false);
  }

  lemma NoPropsYet(s: Scene, props: seq<Prop>, p: Place)
    ensures Hushed(s.o, true, WalkProps(s, props, 0, p, true).errors)
  {
  }

  lemma ArrayWalk(s: Scene, id: nat, p: Place, quiet: bool)
    ensures Walk(s, Array(id), p, quiet)
         == if p.remaining == 0 then Walked([DepthError], Null)
            else if id in p.marks then Walked([RecursionError], Null)
            else WalkElems(s, id, Inside(p, id), quiet)
  {
    hide WalkElems;
  }

  lemma ObjectWalk(s: Scene, id: nat, p: Place, quiet: bool)
    ensures WalkObject(s, id, p, quiet)
         == if p.remaining == 0 then Walked([DepthError], Null)
            else if Props(s.heap, id).None? then Walked([], Obj([]))
            else if id in p.marks then Walked([RecursionError], Null)
            else
              var props := Props(s.heap, id).value;
              var members := WalkProps(s, props, |props|, Inside(p, id), quiet);
              Walked(members.errors, Obj(members.tree))
  {
    hide WalkProps;
  }

  lemma MemberWalk(s: Scene, key: Key, value: Data, p: Place, quiet: bool)
    ensures var k, v := WalkKey(key, s.o), Walk(s, value, p, quiet);
            WalkMember(s, key, value, p, quiet) == Walked(k.errors + v.errors, Entry(k.tree, v.tree))
  {
    hide Walk, WalkKey;
  }

  /** The scalars that are answered without a traversal. */
  lemma SimpleWalk(s: Scene, v: Data, p: Place)
    ensures v.Nil? ==> Walk(s, v, p, false) == Walked([], Null)
    ensures v.Truth? ==> Walk(s, v, p, false) == Walked([], Bool(v.b))
    ensures v.Long? ==> Walk(s, v, p, false) == Walked([], Num(IntText(v.n), true))
  {
    hide IntText;
  }

  lemma SerializableWalk(s: Scene, id: nat, result: Data, p: Place)
    requires KindOf(s.heap, id) == Serializable(result)
    ensures Walk(s, Object(id), p, false)
         == if id in p.guards then Walked([RecursionError], Null)
            else if result == Object(id) then WalkObject(s, id, p, false)
            else Walk(s, result, p.(guards := p.guards + {id}), false)
  {
  }
}
