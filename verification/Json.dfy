/** JSON documents as the parser leaves them, their nesting depth, and the text they are printed as. */
module Json {
  import opened ByteStrings
  import opened Utf8
  import opened Escape

  datatype Entry<V> = Entry(key: Bytes, value: V)

  /** Objects keep their members in order, duplicates included; numbers keep their spelling. */
  datatype Value =
    | Null
    | Bool(b: bool)
    | Num(lexeme: Bytes, finite: bool)
    | Str(s: Bytes)
    | Arr(items: seq<Value>)
    | Obj(members: seq<Entry<Value>>)
  {
    predicate IsContainer() { Arr? || Obj? }
  }

  // ---------------------------------------------------------------- nesting

  /** How many containers are nested in one another; a scalar has none. */
  function Depth(v: Value): nat
    decreases v, 0
  {
    match v
    case Arr(items) => 1 + DepthItems(items, |items|)
    case Obj(members) => 1 + DepthMembers(members, |members|)
    case _ => 0
  }

  /** The greatest depth among the first `n` items. */
  function DepthItems(items: seq<Value>, n: nat): nat
    requires n <= |items|
    decreases items, n
  {
    if n == 0 then 0 else Max(DepthItems(items, n - 1), Depth(items[n - 1]))
  }

  function DepthMembers(members: seq<Entry<Value>>, n: nat): nat
    requires n <= |members|
    decreases members, n
  {
    if n == 0 then 0 else Max(DepthMembers(members, n - 1), Depth(members[n - 1].value))
  }

  // ---------------------------------------------------------------- printing

  /** Everything the flags decide about the text. */
  datatype Style = Style(pretty: bool, write: WriteFlags, hex: HexFlags)

  const NULL_TEXT: Bytes := [0x6E, 0x75, 0x6C, 0x6C]
  const TRUE_TEXT: Bytes := [0x74, 0x72, 0x75, 0x65]
  const FALSE_TEXT: Bytes := [0x66, 0x61, 0x6C, 0x73, 0x65]

  function NewlineIndent(level: nat): Bytes {
    [NEWLINE] + Spaces(4 * level)
  }

  /** What separates the n-th element of a container from what comes before it. */
  function Lead(n: nat, level: nat, st: Style): Bytes {
    (if n == 0 then [] else [COMMA]) + if st.pretty then NewlineIndent(level) else []
  }

  /** What precedes the closing bracket of a container at `level` with `n` elements. */
  function Trail(n: nat, level: nat, st: Style): Bytes {
    if st.pretty && n > 0 then NewlineIndent(level) else []
  }

  /** The level of a container's elements. Compact output has no levels. */
  function Inner(level: nat, st: Style): nat {
    if st.pretty then level + 1 else level
  }

  function KeyText(key: Bytes, st: Style): Bytes {
    Quoted(key, st.write, st.hex) + [COLON] + if st.pretty then [SPACE] else []
  }

  function Print(v: Value, level: nat, st: Style): Bytes
    decreases v, 0
  {
    match v
    case Null => NULL_TEXT
    case Bool(b) => if b then TRUE_TEXT else FALSE_TEXT
    case Num(lexeme, _) => lexeme
    case Str(s) => Quoted(s, st.write, st.hex)
    case Arr(items) =>
      [LEFT_BRACKET] + PrintItems(items, |items|, Inner(level, st), st) + Trail(|items|, level, st) + [RIGHT_BRACKET]
    case Obj(members) =>
      [LEFT_BRACE] + PrintMembers(members, |members|, Inner(level, st), st) + Trail(|members|, level, st)
      + [RIGHT_BRACE]
  }

  function PrintItems(items: seq<Value>, n: nat, level: nat, st: Style): Bytes
    requires n <= |items|
    decreases items, n
  {
    if n == 0 then []
    else PrintItems(items, n - 1, level, st) + Lead(n - 1, level, st) + Print(items[n - 1], level, st)
  }

  function PrintMembers(members: seq<Entry<Value>>, n: nat, level: nat, st: Style): Bytes
    requires n <= |members|
    decreases members, n
  {
    if n == 0 then []
    else PrintMembers(members, n - 1, level, st) + Lead(n - 1, level, st)
         + KeyText(members[n - 1].key, st) + Print(members[n - 1].value, level, st)
  }

  // ---------------------------------------------------------------- what can go wrong

  /** The reasons a tree has no text within a depth budget. */
  datatype Fault = NoFault | TooDeep | BadUtf8 | NotFinite

  /** The first thing that stops a left-to-right printing with `budget` levels left (a scalar needs one). */
  function FirstFault(v: Value, budget: nat): Fault
    decreases v, 0
  {
    if budget == 0 then TooDeep
    else match v
      case Num(_, finite) => if finite then NoFault else NotFinite
      case Str(s) => if WellFormed(s) then NoFault else BadUtf8
      case Arr(items) => if budget == 1 then TooDeep else FirstFaultItems(items, |items|, budget - 1)
      case Obj(members) => if budget == 1 then TooDeep else FirstFaultMembers(members, |members|, budget - 1)
      case _ => NoFault
  }

  function FirstFaultItems(items: seq<Value>, n: nat, budget: nat): Fault
    requires n <= |items|
    decreases items, n
  {
    if n == 0 then NoFault
    else
      var before := FirstFaultItems(items, n - 1, budget);
      if before != NoFault then before else FirstFault(items[n - 1], budget)
  }

  function FirstFaultMembers(members: seq<Entry<Value>>, n: nat, budget: nat): Fault
    requires n <= |members|
    decreases members, n
  {
    if n == 0 then NoFault
    else
      var before := FirstFaultMembers(members, n - 1, budget);
      if before != NoFault then before
      else if !WellFormed(members[n - 1].key) then BadUtf8
      else FirstFault(members[n - 1].value, budget)
  }

  /** Every key and string is well-formed and every number finite. */
  predicate Encodable(v: Value)
    decreases v, 0
  {
    match v
    case Num(_, finite) => finite
    case Str(s) => WellFormed(s)
    case Arr(items) => forall k :: 0 <= k < |items| ==> Encodable(items[k])
    case Obj(members) => forall k :: 0 <= k < |members| ==> WellFormed(members[k].key) && Encodable(members[k].value)
    case _ => true
  }

  /** A tree prints within `budget` levels iff it is encodable and nests less deep than that. */
  lemma {:induction false} FaultFree(v: Value, budget: nat)
    ensures FirstFault(v, budget) == NoFault <==> Depth(v) < budget && Encodable(v)
    ensures FirstFault(v, budget) == TooDeep ==> Depth(v) >= budget
    decreases v, 0
  {
    hide WellFormed;
    match v
    case Arr(items) =>
      if budget > 1 {
        FaultFreeItems(items, |items|, budget - 1);
      }
    case Obj(members) =>
      if budget > 1 {
        FaultFreeMembers(members, |members|, budget - 1);
      }
    case _ =>
  }

  lemma {:induction false} FaultFreeItems(items: seq<Value>, n: nat, budget: nat)
    requires n <= |items| && budget > 0
    ensures FirstFaultItems(items, n, budget) == NoFault
       <==> DepthItems(items, n) < budget && forall k :: 0 <= k < n ==> Encodable(items[k])
    ensures FirstFaultItems(items, n, budget) == TooDeep ==> DepthItems(items, n) >= budget
    decreases items, n
  {
    hide WellFormed;
    if n > 0 {
      FaultFreeItems(items, n - 1, budget);
      FaultFree(items[n - 1], budget);
    }
  }

  lemma {:induction false} FaultFreeMembers(members: seq<Entry<Value>>, n: nat, budget: nat)
    requires n <= |members| && budget > 0
    ensures FirstFaultMembers(members, n, budget) == NoFault
       <==> DepthMembers(members, n) < budget
            && forall k :: 0 <= k < n ==> WellFormed(members[k].key) && Encodable(members[k].value)
    ensures FirstFaultMembers(members, n, budget) == TooDeep ==> DepthMembers(members, n) >= budget
    decreases members, n
  {
    hide WellFormed;
    if n > 0 {
      FaultFreeMembers(members, n - 1, budget);
      FaultFree(members[n - 1].value, budget);
    }
  }

  /** Where every leaf has a text, only depth can stop a printing, and it does exactly when it should. */
  lemma {:induction false} OnlyDepthStops(v: Value, budget: nat)
    requires Encodable(v)
    ensures FirstFault(v, budget) == if Depth(v) < budget then NoFault else TooDeep
    decreases v, 0
  {
    FaultFree(v, budget);
    hide WellFormed, Depth;
    if budget > 1 {
      match v
      case Arr(items) => OnlyDepthStopsItems(items, |items|, budget - 1);
      case Obj(members) => OnlyDepthStopsMembers(members, |members|, budget - 1);
      case _ =>
    }
  }

  lemma {:induction false} OnlyDepthStopsItems(items: seq<Value>, n: nat, budget: nat)
    requires n <= |items| && forall k :: 0 <= k < |items| ==> Encodable(items[k])
    ensures FirstFaultItems(items, n, budget) == NoFault || FirstFaultItems(items, n, budget) == TooDeep
    decreases items, n
  {
    hide FirstFault, Depth;
    if n > 0 {
      OnlyDepthStopsItems(items, n - 1, budget);
      OnlyDepthStops(items[n - 1], budget);
    }
  }

  lemma {:induction false} OnlyDepthStopsMembers(members: seq<Entry<Value>>, n: nat, budget: nat)
    requires n <= |members| && forall k :: 0 <= k < |members| ==>
             WellFormed(members[k].key) && Encodable(members[k].value)
    ensures FirstFaultMembers(members, n, budget) == NoFault || FirstFaultMembers(members, n, budget) == TooDeep
    decreases members, n
  {
    hide FirstFault, Depth, WellFormed;
    if n > 0 {
      OnlyDepthStopsMembers(members, n - 1, budget);
      OnlyDepthStops(members[n - 1].value, budget);
    }
  }

  /** Some string or key is ill-formed. */
  predicate HasBadText(v: Value)
    decreases v, 0
  {
    match v
    case Str(s) => !WellFormed(s)
    case Arr(items) => exists k :: 0 <= k < |items| && HasBadText(items[k])
    case Obj(members) =>
      exists k :: 0 <= k < |members| && (!WellFormed(members[k].key) || HasBadText(members[k].value))
    case _ => false
  }

  predicate HasNonFinite(v: Value)
    decreases v, 0
  {
    match v
    case Num(_, finite) => !finite
    case Arr(items) => exists k :: 0 <= k < |items| && HasNonFinite(items[k])
    case Obj(members) => exists k :: 0 <= k < |members| && HasNonFinite(members[k].value)
    case _ => false
  }

  /** Each fault is what it says: bad text is there, or a non-finite number, or too many levels. */
  lemma {:induction false} FaultHasCause(v: Value, budget: nat)
    ensures FirstFault(v, budget) == BadUtf8 ==> HasBadText(v)
    ensures FirstFault(v, budget) == NotFinite ==> HasNonFinite(v)
    ensures FirstFault(v, budget) == TooDeep ==> Depth(v) >= budget
    decreases v, 0
  {
    FaultFree(v, budget);
    hide WellFormed, Depth;
    if budget > 1 {
      match v
      case Arr(items) =>
        if FirstFaultItems(items, |items|, budget - 1) != NoFault {
          var k := FirstFaultyItem(items, |items|, budget - 1);
          FaultHasCause(items[k], budget - 1);
        }
      case Obj(members) =>
        if FirstFaultMembers(members, |members|, budget - 1) != NoFault {
          var k := FirstFaultyMember(members, |members|, budget - 1);
          FaultHasCause(members[k].value, budget - 1);
        }
      case _ =>
    }
  }

  /** The fault of an array is that of its first faulty element. */
  lemma {:induction false} FirstFaultyItem(items: seq<Value>, n: nat, budget: nat) returns (k: nat)
    requires n <= |items| && FirstFaultItems(items, n, budget) != NoFault
    ensures k < n && FirstFaultItems(items, n, budget) == FirstFault(items[k], budget) != NoFault
    ensures forall i :: 0 <= i < k ==> FirstFault(items[i], budget) == NoFault
    decreases n
  {
    hide FirstFault;
    if FirstFaultItems(items, n - 1, budget) != NoFault {
      k := FirstFaultyItem(items, n - 1, budget);
    } else {
      k := n - 1;
      NoneFaulty(items, [], k, budget);
    }
  }

  /** The fault of an object is that of its first faulty member: of its key, and if that is fine, of its value. */
  lemma {:induction false} FirstFaultyMember(members: seq<Entry<Value>>, n: nat, budget: nat) returns (k: nat)
    requires n <= |members| && FirstFaultMembers(members, n, budget) != NoFault
    ensures k < n && FirstFaultMembers(members, n, budget) == MemberFault(members[k], budget) != NoFault
    ensures forall i :: 0 <= i < k ==> MemberFault(members[i], budget) == NoFault
    decreases n
  {
    hide FirstFault, WellFormed;
    if FirstFaultMembers(members, n - 1, budget) != NoFault {
      k := FirstFaultyMember(members, n - 1, budget);
    } else {
      k := n - 1;
      NoneFaulty([], members, k, budget);
    }
  }

  function MemberFault(m: Entry<Value>, budget: nat): Fault {
    if !WellFormed(m.key) then BadUtf8 else FirstFault(m.value, budget)
  }

  lemma {:induction false} NoneFaulty(items: seq<Value>, members: seq<Entry<Value>>, n: nat, budget: nat)
    ensures n <= |items| && FirstFaultItems(items, n, budget) == NoFault ==>
              forall i :: 0 <= i < n ==> FirstFault(items[i], budget) == NoFault
    ensures n <= |members| && FirstFaultMembers(members, n, budget) == NoFault ==>
              forall i :: 0 <= i < n ==> MemberFault(members[i], budget) == NoFault
    decreases n
  {
    hide FirstFault, WellFormed;
    if n > 0 {
      NoneFaulty(items, members, n - 1, budget);
    }
  }

  // ---------------------------------------------------------------- re-indenting

  /** No number is spelled with a newline in it. */
  predicate PlainNumbers(v: Value)
    decreases v, 0
  {
    match v
    case Num(lexeme, _) => NEWLINE !in lexeme
    case Arr(items) => forall k :: 0 <= k < |items| ==> PlainNumbers(items[k])
    case Obj(members) => forall k :: 0 <= k < |members| ==> PlainNumbers(members[k].value)
    case _ => true
  }

  /** `4 * shift` spaces after every newline. */
  function Reindent(t: Bytes, shift: nat): Bytes {
    if t == [] then []
    else Reindent(t[..|t| - 1], shift)
         + if t[|t| - 1] == NEWLINE then NewlineIndent(shift) else [t[|t| - 1]]
  }

  lemma {:induction false} ReindentAppend(a: Bytes, b: Bytes, shift: nat)
    ensures Reindent(a + b, shift) == Reindent(a, shift) + Reindent(b, shift)
  {
    if b == [] {
      assert a + b == a;
    } else {
      assert (a + b)[..|a + b| - 1] == a + b[..|b| - 1];
      ReindentAppend(a, b[..|b| - 1], shift);
    }
  }

  lemma {:induction false} ReindentFixes(t: Bytes, shift: nat)
    requires NEWLINE !in t
    ensures Reindent(t, shift) == t
  {
    if t != [] {
      ReindentFixes(t[..|t| - 1], shift);
      assert t == t[..|t| - 1] + [t[|t| - 1]];
    }
  }

  lemma ReindentLead(level: nat, shift: nat)
    ensures Reindent(NewlineIndent(level), shift) == NewlineIndent(level + shift)
  {
    assert Reindent([NEWLINE], shift) == Reindent([], shift) + NewlineIndent(shift) by { hide NewlineIndent; }
    assert NewlineIndent(shift) + Spaces(4 * level) == NewlineIndent(level + shift);
    hide Reindent;
    ReindentAppend([NEWLINE], Spaces(4 * level), shift);
    ReindentFixes(Spaces(4 * level), shift);
  }

  lemma EscapeHasNoNewline(cp: Scalar, f: WriteFlags, h: HexFlags)
    ensures NEWLINE !in EscapeScalar(cp, f, h)
  {
  }

  lemma {:induction false} BodyHasNoNewline(s: Bytes, f: WriteFlags, h: HexFlags)
    ensures NEWLINE !in Body(s, f, h)
  {
    if s != [] && ValidAt(s, 0) {
      ValidFits(s, 0);
      EscapeHasNoNewline(DecodeHead(s), f, h);
      hide ValidAt, EscapeScalar, DecodeHead;
      BodyHasNoNewline(s[SeqLen(s[0])..], f, h);
    }
  }

  lemma ReindentQuoted(s: Bytes, f: WriteFlags, h: HexFlags, shift: nat)
    ensures Reindent(Quoted(s, f, h), shift) == Quoted(s, f, h)
  {
    BodyHasNoNewline(s, f, h);
    hide Body;
    ReindentFixes(Quoted(s, f, h), shift);
  }

  lemma ReindentKey(key: Bytes, st: Style, shift: nat)
    ensures Reindent(KeyText(key, st), shift) == KeyText(key, st)
  {
    BodyHasNoNewline(key, st.write, st.hex);
    hide Body;
    ReindentFixes(KeyText(key, st), shift);
  }

  lemma ReindentSeparators(n: nat, level: nat, st: Style, shift: nat)
    ensures Reindent(Lead(n, level, st), shift) == Lead(n, level + shift, st)
    ensures Reindent(Trail(n, level, st), shift) == Trail(n, level + shift, st)
  {
    var comma: Bytes := if n == 0 then [] else [COMMA];
    ReindentLead(level, shift);
    ReindentFixes(comma, shift);
    hide NewlineIndent;
    ReindentAppend(comma, if st.pretty then NewlineIndent(level) else [], shift);
  }

  lemma ReindentBracketed(open: Byte, a: Bytes, b: Bytes, close: Byte, shift: nat)
    requires open != NEWLINE && close != NEWLINE
    ensures Reindent([open] + a + b + [close], shift) == [open] + Reindent(a, shift) + Reindent(b, shift) + [close]
  {
    ReindentFixes([open], shift);
    ReindentFixes([close], shift);
    hide Reindent;
    ReindentAppend([open] + a + b, [close], shift);
    ReindentAppend([open] + a, b, shift);
    ReindentAppend([open], a, shift);
  }

  /** Shifting a finished print right is printing it at a deeper level. */
  lemma {:induction false} ReindentPrint(v: Value, level: nat, st: Style, shift: nat)
    requires PlainNumbers(v)
    ensures Reindent(Print(v, level, st), shift) == Print(v, level + shift, st)
    decreases v, 0
  {
    hide Reindent, Lead, Trail, Quoted;
    match v
    case Null => ReindentFixes(NULL_TEXT, shift);
    case Bool(b) =>
      ReindentFixes(TRUE_TEXT, shift);
      ReindentFixes(FALSE_TEXT, shift);
    case Num(lexeme, _) => ReindentFixes(lexeme, shift);
    case Str(s) => ReindentQuoted(s, st.write, st.hex, shift);
    case Arr(items) =>
      ReindentItems(items, |items|, Inner(level, st), st, shift);
      ReindentSeparators(|items|, level, st, shift);
      ReindentBracketed(LEFT_BRACKET, PrintItems(items, |items|, Inner(level, st), st), Trail(|items|, level, st),
                        RIGHT_BRACKET, shift);
    case Obj(members) =>
      ReindentMembers(members, |members|, Inner(level, st), st, shift);
      ReindentSeparators(|members|, level, st, shift);
      ReindentBracketed(LEFT_BRACE, PrintMembers(members, |members|, Inner(level, st), st), Trail(|members|, level, st),
                        RIGHT_BRACE, shift);
  }

  lemma {:induction false} ReindentItems(items: seq<Value>, n: nat, level: nat, st: Style, shift: nat)
    requires n <= |items| && forall k :: 0 <= k < |items| ==> PlainNumbers(items[k])
    ensures Reindent(PrintItems(items, n, level, st), shift) == PrintItems(items, n, level + shift, st)
    decreases items, n
  {
    hide Lead, Print;
    if n > 0 {
      ReindentItems(items, n - 1, level, st, shift);
      ReindentPrint(items[n - 1], level, st, shift);
      ReindentSeparators(n - 1, level, st, shift);
      var a, b, c := PrintItems(items, n - 1, level, st), Lead(n - 1, level, st), Print(items[n - 1], level, st);
      ReindentAppend(a + b, c, shift);
      ReindentAppend(a, b, shift);
    }
  }

  lemma {:induction false} ReindentMembers(members: seq<Entry<Value>>, n: nat, level: nat, st: Style, shift: nat)
    requires n <= |members| && forall k :: 0 <= k < |members| ==> PlainNumbers(members[k].value)
    ensures Reindent(PrintMembers(members, n, level, st), shift) == PrintMembers(members, n, level + shift, st)
    decreases members, n
  {
    hide Lead, Print, KeyText;
    if n > 0 {
      ReindentMembers(members, n - 1, level, st, shift);
      ReindentPrint(members[n - 1].value, level, st, shift);
      ReindentSeparators(n - 1, level, st, shift);
      ReindentKey(members[n - 1].key, st, shift);
      var a, b := PrintMembers(members, n - 1, level, st), Lead(n - 1, level, st);
      var c, d := KeyText(members[n - 1].key, st), Print(members[n - 1].value, level, st);
      ReindentAppend(a + b + c, d, shift);
      ReindentAppend(a + b, c, shift);
      ReindentAppend(a, b, shift);
    }
  }

  /** Compact output looks the same at every level. */
  lemma {:induction false} CompactIgnoresLevel(v: Value, a: nat, b: nat, st: Style)
    requires !st.pretty
    ensures Print(v, a, st) == Print(v, b, st)
    decreases v, 0
  {
    match v
    case Arr(items) => CompactItems(items, |items|, a, b, st);
    case Obj(members) => CompactMembers(members, |members|, a, b, st);
    case _ =>
  }

  lemma {:induction false} CompactItems(items: seq<Value>, n: nat, a: nat, b: nat, st: Style)
    requires !st.pretty && n <= |items|
    ensures PrintItems(items, n, a, st) == PrintItems(items, n, b, st)
    decreases items, n
  {
    if n > 0 {
      CompactItems(items, n - 1, a, b, st);
      CompactIgnoresLevel(items[n - 1], a, b, st);
      hide Print;
    }
  }

  lemma {:induction false} CompactMembers(members: seq<Entry<Value>>, n: nat, a: nat, b: nat, st: Style)
    requires !st.pretty && n <= |members|
    ensures PrintMembers(members, n, a, st) == PrintMembers(members, n, b, st)
    decreases members, n
  {
    if n > 0 {
      CompactMembers(members, n - 1, a, b, st);
      CompactIgnoresLevel(members[n - 1].value, a, b, st);
      hide Print;
    }
  }

  // ---------------------------------------------------------------- growing a print element by element

  lemma ItemsGrow(before: Bytes, items: seq<Value>, k: nat, level: nat, st: Style)
    requires k < |items|
    ensures before + PrintItems(items, k, level, st) + (Lead(k, level, st) + Print(items[k], level, st))
         == before + PrintItems(items, k + 1, level, st)
  {
    hide Print, Lead;
  }

  lemma MembersGrow(before: Bytes, members: seq<Entry<Value>>, k: nat, level: nat, st: Style)
    requires k < |members|
    ensures before + PrintMembers(members, k, level, st)
            + (Lead(k, level, st) + KeyText(members[k].key, st) + Print(members[k].value, level, st))
         == before + PrintMembers(members, k + 1, level, st)
  {
    hide Print, Lead, KeyText;
  }

  /** The first fault among some elements is the first fault among more of them. */
  lemma {:induction false} ItemsFaultStays(items: seq<Value>, m: nat, n: nat, budget: nat)
    requires m <= n <= |items| && FirstFaultItems(items, m, budget) != NoFault
    ensures FirstFaultItems(items, n, budget) == FirstFaultItems(items, m, budget)
    decreases n - m
  {
    if m < n {
      ItemsFaultStays(items, m, n - 1, budget);
    }
  }

  lemma {:induction false} MembersFaultStays(members: seq<Entry<Value>>, m: nat, n: nat, budget: nat)
    requires m <= n <= |members| && FirstFaultMembers(members, m, budget) != NoFault
    ensures FirstFaultMembers(members, n, budget) == FirstFaultMembers(members, m, budget)
    decreases n - m
  {
    hide WellFormed;
    if m < n {
      MembersFaultStays(members, m, n - 1, budget);
    }
  }

  lemma ArrayText(before: Bytes, items: seq<Value>, level: nat, st: Style)
    ensures before + [LEFT_BRACKET] + PrintItems(items, |items|, Inner(level, st), st)
            + (Trail(|items|, level, st) + [RIGHT_BRACKET])
         == before + Print(Arr(items), level, st)
  {
    hide Trail;
    assert PrintItems(Arr(items).items, |items|, Inner(level, st), st)
        == PrintItems(items, |items|, Inner(level, st), st);
  }

  lemma ObjectText(before: Bytes, members: seq<Entry<Value>>, level: nat, st: Style)
    ensures before + [LEFT_BRACE] + PrintMembers(members, |members|, Inner(level, st), st)
            + (Trail(|members|, level, st) + [RIGHT_BRACE])
         == before + Print(Obj(members), level, st)
  {
    hide Trail;
    assert PrintMembers(Obj(members).members, |members|, Inner(level, st), st)
        == PrintMembers(members, |members|, Inner(level, st), st);
  }

  // ---------------------------------------------------------------- how much room a print needs

  /** The length of the longest string or key in a document. */
  function LongestText(v: Value): nat
    decreases v, 0
  {
    match v
    case Str(s) => |s|
    case Arr(items) => LongestOfItems(items, |items|)
    case Obj(members) => LongestOfMembers(members, |members|)
    case _ => 0
  }

  function LongestOfItems(items: seq<Value>, n: nat): nat
    requires n <= |items|
    decreases items, n
  {
    if n == 0 then 0 else Max(LongestOfItems(items, n - 1), LongestText(items[n - 1]))
  }

  function LongestOfMembers(members: seq<Entry<Value>>, n: nat): nat
    requires n <= |members|
    decreases members, n
  {
    if n == 0 then 0
    else Max(LongestOfMembers(members, n - 1), Max(|members[n - 1].key|, LongestText(members[n - 1].value)))
  }

  /** No string or key has more than `n` bytes. */
  predicate ShortTexts(v: Value, n: nat)
    decreases v, 0
  {
    match v
    case Str(s) => |s| <= n
    case Arr(items) => forall k :: 0 <= k < |items| ==> ShortTexts(items[k], n)
    case Obj(members) => forall k :: 0 <= k < |members| ==> |members[k].key| <= n && ShortTexts(members[k].value, n)
    case _ => true
  }

  lemma {:induction false} LongestTextIsLeast(v: Value, n: nat)
    ensures LongestText(v) <= n <==> ShortTexts(v, n)
    decreases v, 0
  {
    match v
    case Arr(items) => LongestItemIsLeast(items, |items|, n);
    case Obj(members) => LongestMemberIsLeast(members, |members|, n);
    case _ =>
  }

  lemma {:induction false} LongestItemIsLeast(items: seq<Value>, m: nat, n: nat)
    requires m <= |items|
    ensures LongestOfItems(items, m) <= n <==> forall k :: 0 <= k < m ==> ShortTexts(items[k], n)
    decreases items, m
  {
    hide LongestText, ShortTexts;
    if m > 0 {
      LongestItemIsLeast(items, m - 1, n);
      LongestTextIsLeast(items[m - 1], n);
    }
  }

  lemma {:induction false} LongestMemberIsLeast(members: seq<Entry<Value>>, m: nat, n: nat)
    requires m <= |members|
    ensures LongestOfMembers(members, m) <= n
       <==> forall k :: 0 <= k < m ==> |members[k].key| <= n && ShortTexts(members[k].value, n)
    decreases members, m
  {
    hide LongestText, ShortTexts;
    if m > 0 {
      LongestMemberIsLeast(members, m - 1, n);
      LongestTextIsLeast(members[m - 1].value, n);
    }
  }

  /** More elements take no less room. */
  lemma {:induction false} ItemsTakeRoom(items: seq<Value>, m: nat, n: nat, level: nat, st: Style)
    requires m <= n <= |items|
    ensures |PrintItems(items, m, level, st)| <= |PrintItems(items, n, level, st)|
    ensures m < n ==> LongestText(items[m]) <= LongestOfItems(items, n)
    decreases n - m
  {
    hide Print, Lead, LongestText;
    if m < n {
      ItemsTakeRoom(items, m, n - 1, level, st);
    }
  }

  lemma {:induction false} MembersTakeRoom(members: seq<Entry<Value>>, m: nat, n: nat, level: nat, st: Style)
    requires m <= n <= |members|
    ensures |PrintMembers(members, m, level, st)| <= |PrintMembers(members, n, level, st)|
    ensures m < n ==> |members[m].key| <= LongestOfMembers(members, n)
    ensures m < n ==> LongestText(members[m].value) <= LongestOfMembers(members, n)
    decreases n - m
  {
    hide Print, Lead, KeyText, LongestText;
    if m < n {
      MembersTakeRoom(members, m, n - 1, level, st);
    }
  }

  lemma {:induction false} LongestGrows(members: seq<Entry<Value>>, m: nat, n: nat)
    requires m <= n <= |members|
    ensures LongestOfMembers(members, m) <= LongestOfMembers(members, n)
    decreases n - m
  {
    hide LongestText;
    if m < n {
      LongestGrows(members, m, n - 1);
    }
  }

  lemma SizesAdd(a: Bytes, b: Bytes, c: Bytes)
    requires [] + a + b == [] + c
    ensures |a| + |b| == |c|
  {
    assert |[] + a + b| == |a| + |b|;
  }

  /** An element takes no more room than its array leaves it. */
  lemma ItemRoom(items: seq<Value>, k: nat, level: nat, st: Style)
    requires k < |items|
    ensures |PrintItems(items, k, level, st)| + |Lead(k, level, st) + Print(items[k], level, st)|
         <= |PrintItems(items, |items|, level, st)|
    ensures LongestText(items[k]) <= LongestOfItems(items, |items|)
  {
    hide *;
    ItemsGrow([], items, k, level, st);
    SizesAdd(PrintItems(items, k, level, st), Lead(k, level, st) + Print(items[k], level, st),
             PrintItems(items, k + 1, level, st));
    ItemsTakeRoom(items, k, |items|, level, st);
    ItemsTakeRoom(items, k + 1, |items|, level, st);
  }

  lemma MemberRoom(members: seq<Entry<Value>>, k: nat, n: nat, level: nat, st: Style)
    requires k < n <= |members|
    ensures |PrintMembers(members, k, level, st)|
            + |Lead(k, level, st) + KeyText(members[k].key, st) + Print(members[k].value, level, st)|
         <= |PrintMembers(members, n, level, st)|
    ensures |members[k].key| <= LongestOfMembers(members, n)
    ensures LongestText(members[k].value) <= LongestOfMembers(members, n)
  {
    hide *;
    MembersGrow([], members, k, level, st);
    SizesAdd(PrintMembers(members, k, level, st),
             Lead(k, level, st) + KeyText(members[k].key, st) + Print(members[k].value, level, st),
             PrintMembers(members, k + 1, level, st));
    MembersTakeRoom(members, k, n, level, st);
    MembersTakeRoom(members, k + 1, n, level, st);
  }
}
