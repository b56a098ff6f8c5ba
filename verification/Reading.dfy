/**
 * Reading JSON text back: the grammar of RFC 8259, sections 2 to 7, written in literal bytes, and the proof that
 * it reads the text of every document as that document.
 */
module Reading {
  import opened ByteStrings
  import opened Utf8
  import opened Escape
  import opened Json
  import opened Wrappers

  // ---------------------------------------------------------------- white space and numbers

  predicate Blank(c: Byte) {
    c == 0x20 || c == 0x09 || c == 0x0A || c == 0x0D
  }

  function SkipBlanks(t: Bytes): (r: Bytes)
    ensures |r| <= |t|
    ensures r != [] ==> !Blank(r[0])
  {
    if t != [] && Blank(t[0]) then SkipBlanks(t[1..]) else t
  }

  /** How many digits `t` begins with. */
  function DigitRun(t: Bytes): (n: nat)
    ensures n <= |t| && forall k :: 0 <= k < n ==> 0x30 <= t[k] <= 0x39
    ensures n < |t| ==> !(0x30 <= t[n] <= 0x39)
  {
    if t != [] && 0x30 <= t[0] <= 0x39 then 1 + DigitRun(t[1..]) else 0
  }

  /** An optional `-`, an integer without leading zeros, an optional fraction and an optional exponent. */
  predicate IsNumber(s: Bytes) {
    IsUnsigned(if s != [] && s[0] == 0x2D then s[1..] else s)
  }

  predicate IsUnsigned(u: Bytes) {
    var n := DigitRun(u);
    n > 0 && (u[0] == 0x30 ==> n == 1) && IsFraction(u[n..])
  }

  predicate IsFraction(u: Bytes) {
    if u != [] && u[0] == 0x2E then
      var n := DigitRun(u[1..]);
      n > 0 && IsExponent(u[1..][n..])
    else IsExponent(u)
  }

  predicate IsExponent(u: Bytes) {
    || u == []
    || ((u[0] == 0x65 || u[0] == 0x45)
        && var w := if |u| > 1 && (u[1] == 0x2B || u[1] == 0x2D) then u[2..] else u[1..];
           w != [] && DigitRun(w) == |w|)
  }

  /** The bytes numbers are spelled with. */
  predicate NumberByte(c: Byte) {
    0x30 <= c <= 0x39 || c == 0x2B || c == 0x2D || c == 0x2E || c == 0x45 || c == 0x65
  }

  function NumberRun(t: Bytes): (n: nat)
    ensures n <= |t|
  {
    if t != [] && NumberByte(t[0]) then 1 + NumberRun(t[1..]) else 0
  }

  // ---------------------------------------------------------------- strings and values

  /** How many bytes come before the first quote that no backslash escapes. */
  function StringBody(t: Bytes): (n: nat)
    ensures n <= |t|
  {
    if t == [] || t[0] == 0x22 then 0
    else if t[0] == 0x5C then (if |t| == 1 then 1 else 2 + StringBody(t[2..]))
    else 1 + StringBody(t[1..])
  }

  /** A string at the very front, and what follows it. */
  function ReadString(t: Bytes): (r: Option<(Bytes, Bytes)>)
    ensures r.Some? ==> |r.value.1| < |t|
  {
    if t == [] || t[0] != 0x22 then None
    else
      var n := StringBody(t[1..]);
      if n + 2 > |t| then None
      else match ReadQuoted(t[..n + 2])
        case None => None
        case Some(s) => Some((s, t[n + 2..]))
  }

  predicate StartsWith(t: Bytes, word: Bytes) {
    word <= t
  }

  /** One of the three words or a number at the very front, and what follows it. */
  function ReadAtom(t: Bytes): (r: Option<(Value, Bytes)>)
    ensures r.Some? ==> |r.value.1| < |t|
  {
    if StartsWith(t, [0x6E, 0x75, 0x6C, 0x6C]) then Some((Null, t[4..]))
    else if StartsWith(t, [0x74, 0x72, 0x75, 0x65]) then Some((Bool(true), t[4..]))
    else if StartsWith(t, [0x66, 0x61, 0x6C, 0x73, 0x65]) then Some((Bool(false), t[5..]))
    else
      var n := NumberRun(t);
      if n > 0 && IsNumber(t[..n]) then Some((Num(t[..n], true), t[n..])) else None
  }

  /** A value, and what follows it. */
  function ReadValue(t: Bytes): (r: Option<(Value, Bytes)>)
    ensures r.Some? ==> |r.value.1| < |t|
    decreases |t|, 0
  {
    var u := SkipBlanks(t);
    if u == [] then None
    else if u[0] == 0x5B then
      var w := SkipBlanks(u[1..]);
      if w != [] && w[0] == 0x5D then Some((Arr([]), w[1..]))
      else match ReadItems(u[1..])
        case None => None
        case Some((items, rest)) => Some((Arr(items), rest))
    else if u[0] == 0x7B then
      var w := SkipBlanks(u[1..]);
      if w != [] && w[0] == 0x7D then Some((Obj([]), w[1..]))
      else match ReadMembers(u[1..])
        case None => None
        case Some((members, rest)) => Some((Obj(members), rest))
    else if u[0] == 0x22 then
      match ReadString(u)
      case None => None
      case Some((s, rest)) => Some((Str(s), rest))
    else ReadAtom(u)
  }

  /** The rest of an array that has at least one element more. */
  function ReadItems(t: Bytes): (r: Option<(seq<Value>, Bytes)>)
    ensures r.Some? ==> |r.value.1| < |t|
    decreases |t|, 1
  {
    match ReadValue(t)
    case None => None
    case Some((v, rest)) =>
      var w := SkipBlanks(rest);
      if w == [] then None
      else if w[0] == 0x5D then Some(([v], w[1..]))
      else if w[0] != 0x2C then None
      else match ReadItems(w[1..])
        case None => None
        case Some((items, last)) => Some(([v] + items, last))
  }

  /** A name and the colon after it. */
  function ReadName(t: Bytes): (r: Option<(Bytes, Bytes)>)
    ensures r.Some? ==> |r.value.1| < |t|
  {
    match ReadString(SkipBlanks(t))
    case None => None
    case Some((key, rest)) =>
      var c := SkipBlanks(rest);
      if c == [] || c[0] != 0x3A then None else Some((key, c[1..]))
  }

  /** The rest of an object that has at least one member more. */
  function ReadMembers(t: Bytes): (r: Option<(seq<Entry<Value>>, Bytes)>)
    ensures r.Some? ==> |r.value.1| < |t|
    decreases |t|, 1
  {
    match ReadName(t)
    case None => None
    case Some((key, after)) =>
      match ReadValue(after)
      case None => None
      case Some((v, rest)) =>
        var w := SkipBlanks(rest);
        if w == [] then None
        else if w[0] == 0x7D then Some(([Entry(key, v)], w[1..]))
        else if w[0] != 0x2C then None
        else match ReadMembers(w[1..])
          case None => None
          case Some((members, last)) => Some(([Entry(key, v)] + members, last))
  }

  /** A whole text: one value and nothing but white space after it. */
  function ReadDocument(t: Bytes): Option<Value> {
    match ReadValue(t)
    case None => None
    case Some((v, rest)) => if SkipBlanks(rest) == [] then Some(v) else None
  }

  /** Every number is spelled as the grammar spells numbers. */
  predicate Grammatical(v: Value)
    decreases v, 0
  {
    match v
    case Num(lexeme, _) => IsNumber(lexeme)
    case Arr(items) => forall k :: 0 <= k < |items| ==> Grammatical(items[k])
    case Obj(members) => forall k :: 0 <= k < |members| ==> Grammatical(members[k].value)
    case _ => true
  }

  // ---------------------------------------------------------------- pieces of text, read back

  predicate Blanks(ws: Bytes) {
    forall k :: 0 <= k < |ws| ==> Blank(ws[k])
  }

  lemma {:induction false} BlanksSkipped(ws: Bytes, t: Bytes)
    requires Blanks(ws) && (t == [] || !Blank(t[0]))
    ensures SkipBlanks(ws + t) == t
  {
    if ws == [] {
      assert ws + t == t;
    } else {
      BlanksSkipped(ws[1..], t);
      assert (ws + t)[1..] == ws[1..] + t;
    }
  }

  /** Text after which a number has certainly ended. */
  predicate Ends(t: Bytes) {
    t == [] || !NumberByte(t[0])
  }

  predicate NumberText(t: Bytes) {
    forall k :: 0 <= k < |t| ==> NumberByte(t[k])
  }

  lemma NumberTextJoin(a: Bytes, b: Bytes)
    requires NumberText(a) && NumberText(b)
    ensures NumberText(a + b)
  {
    hide NumberByte;
  }

  lemma DigitsAreNumberText(t: Bytes)
    ensures NumberText(t[..DigitRun(t)])
  {
    hide DigitRun;
  }

  lemma ExponentText(u: Bytes)
    requires IsExponent(u)
    ensures NumberText(u)
  {
    if u != [] {
      var n := if |u| > 1 && (u[1] == 0x2B || u[1] == 0x2D) then 2 else 1;
      DigitsAreNumberText(u[n..]);
      assert u[n..][..|u| - n] == u[n..];
      assert NumberText(u[..n]);
      hide NumberText, DigitRun;
      NumberTextJoin(u[..n], u[n..]);
      assert u == u[..n] + u[n..];
    }
  }

  lemma FractionText(u: Bytes)
    requires IsFraction(u)
    ensures NumberText(u)
  {
    hide DigitRun, IsExponent;
    if u != [] && u[0] == 0x2E {
      var d := u[1..];
      var n := DigitRun(d);
      assert NumberText([u[0]]);
      hide NumberText;
      DigitsAreNumberText(d);
      ExponentText(d[n..]);
      NumberTextJoin(d[..n], d[n..]);
      assert d == d[..n] + d[n..] && u == [u[0]] + d;
      NumberTextJoin([u[0]], d);
    } else {
      ExponentText(u);
    }
  }

  lemma UnsignedText(u: Bytes)
    requires IsUnsigned(u)
    ensures u != [] && 0x30 <= u[0] <= 0x39 && NumberText(u)
  {
    var n := DigitRun(u);
    hide DigitRun, IsFraction, NumberText;
    DigitsAreNumberText(u);
    FractionText(u[n..]);
    NumberTextJoin(u[..n], u[n..]);
    assert u == u[..n] + u[n..];
  }

  lemma NumberBytes(s: Bytes)
    requires IsNumber(s)
    ensures s != [] && (s[0] == 0x2D || 0x30 <= s[0] <= 0x39) && NumberText(s)
  {
    hide IsUnsigned;
    if s != [] && s[0] == 0x2D {
      assert NumberText([s[0]]);
      hide NumberText;
      UnsignedText(s[1..]);
      NumberTextJoin([s[0]], s[1..]);
      assert s == [s[0]] + s[1..];
    } else {
      UnsignedText(s);
    }
  }

  lemma {:induction false} RunIs(s: Bytes, rest: Bytes)
    requires NumberText(s) && Ends(rest)
    ensures NumberRun(s + rest) == |s|
  {
    if s == [] {
      assert s + rest == rest;
    } else {
      RunIs(s[1..], rest);
      assert (s + rest)[1..] == s[1..] + rest;
    }
  }

  lemma NumberReads(s: Bytes, rest: Bytes)
    requires IsNumber(s) && Ends(rest)
    ensures ReadValue(s + rest) == Some((Num(s, true), rest))
  {
    NumberBytes(s);
    RunIs(s, rest);
    var t := s + rest;
    assert t[0] == s[0] && t[..|s|] == s && t[|s|..] == rest;
    hide NumberByte, IsNumber, NumberRun, SkipBlanks, ReadValue, StartsWith;
    AtomUnfolds(t);
    OtherWord(t, [0x6E, 0x75, 0x6C, 0x6C]);
    OtherWord(t, [0x74, 0x72, 0x75, 0x65]);
    OtherWord(t, [0x66, 0x61, 0x6C, 0x73, 0x65]);
  }

  lemma OtherWord(t: Bytes, word: Bytes)
    requires t != [] && word != [] && t[0] != word[0]
    ensures !StartsWith(t, word)
  {
  }

  /** Neither white space nor what opens a string or a container. */
  lemma AtomUnfolds(t: Bytes)
    requires t != [] && !Blank(t[0]) && t[0] != 0x5B && t[0] != 0x7B && t[0] != 0x22
    ensures ReadValue(t) == ReadAtom(t)
  {
    hide ReadItems, ReadMembers, ReadString, ReadAtom;
    assert SkipBlanks(t) == t;
  }

  lemma WordReads(v: Value, rest: Bytes)
    requires v.Null? || v.Bool?
    ensures ReadValue((if v.Null? then NULL_TEXT else if v.b then TRUE_TEXT else FALSE_TEXT) + rest) == Some((v, rest))
  {
    var word := if v.Null? then NULL_TEXT else if v.b then TRUE_TEXT else FALSE_TEXT;
    var t := word + rest;
    assert t[0] == word[0] && word <= t && t[|word|..] == rest;
    hide NumberRun, IsNumber, ReadValue, SkipBlanks;
    AtomUnfolds(t);
  }

  /** What stands for one character never ends a string. */
  lemma PointInBody(cp: Scalar, f: WriteFlags, h: HexFlags, rest: Bytes)
    ensures StringBody(EscapeScalar(cp, f, h) + rest) == |EscapeScalar(cp, f, h)| + StringBody(rest)
  {
    hide HexEscape, EscapeScalar, StringBody, Encode;
    HexTable(cp, h);
    if HexEscape(cp, h) != [] {
      UnitInBody(HexEscape(cp, h), rest);
    } else if cp < 0x80 {
      AsciiEscapes(cp, f);
      AsciiInBody(EscapeScalar(cp, f, h), rest, cp);
    } else if !f.escapeUnicode {
      UnicodeEscapes(cp, f);
      HighScalarIsHighBytes(cp);
      EncodedInBody(Encode(cp), rest);
    } else {
      UnicodeEscapes(cp, f);
      var e := EscapeScalar(cp, f, h);
      if cp < 0x10000 {
        UnitInBody(e, rest);
      } else {
        UnitInBody(e[6..], rest);
        UnitInBody(e[..6], e[6..] + rest);
        assert e + rest == e[..6] + (e[6..] + rest);
      }
    }
  }

  /** Six bytes that begin with a backslash and then hold neither a quote nor a backslash. */
  lemma UnitInBody(e: Bytes, rest: Bytes)
    requires |e| == 6 && e[0] == 0x5C && forall k :: 2 <= k < 6 ==> e[k] != 0x22 && e[k] != 0x5C
    ensures StringBody(e + rest) == 6 + StringBody(rest)
  {
    assert (e + rest)[2..] == e[2..] + rest;
    EncodedInBody(e[2..], rest);
  }

  lemma {:induction false} EncodedInBody(e: Bytes, rest: Bytes)
    requires forall k :: 0 <= k < |e| ==> e[k] != 0x22 && e[k] != 0x5C
    ensures StringBody(e + rest) == |e| + StringBody(rest)
  {
    if e == [] {
      assert e + rest == rest;
    } else {
      EncodedInBody(e[1..], rest);
      assert (e + rest)[1..] == e[1..] + rest;
    }
  }

  lemma AsciiInBody(e: Bytes, rest: Bytes, c: Byte)
    requires e == [0x5C, c] || (e == [c] && c != 0x22 && c != 0x5C) || (|e| == 2 && e[0] == 0x5C) || SpellsUnit(e, c)
    ensures StringBody(e + rest) == |e| + StringBody(rest)
  {
    if |e| == 2 {
      assert (e + rest)[2..] == rest;
    } else if |e| == 1 {
      EncodedInBody(e, rest);
    } else {
      UnitInBody(e, rest);
    }
  }

  lemma {:induction false} BodyEnds(s: Bytes, f: WriteFlags, h: HexFlags, rest: Bytes)
    ensures StringBody(Body(s, f, h) + ([0x22] + rest)) == |Body(s, f, h)|
  {
    hide ValidAt, EscapeScalar, DecodeHead;
    if s == [] || !ValidAt(s, 0) {
      assert Body(s, f, h) + ([0x22] + rest) == [0x22] + rest;
    } else {
      ValidFits(s, 0);
      var e, more := EscapeScalar(DecodeHead(s), f, h), Body(s[SeqLen(s[0])..], f, h);
      assert Body(s, f, h) == e + more;
      hide Body, StringBody;
      BodyEnds(s[SeqLen(s[0])..], f, h, rest);
      hide *;
      PointInBody(DecodeHead(s), f, h, more + ([0x22] + rest));
      assert e + more + ([0x22] + rest) == e + (more + ([0x22] + rest));
    }
  }

  lemma StringReads(s: Bytes, f: WriteFlags, h: HexFlags, rest: Bytes)
    requires WellFormed(s)
    ensures ReadString(Quoted(s, f, h) + rest) == Some((s, rest))
  {
    hide WellFormed, Body, StringBody, ReadQuoted;
    var body, t := Body(s, f, h), Quoted(s, f, h) + rest;
    BodyEnds(s, f, h, rest);
    QuotedReadsBack(s, f, h);
    assert t[1..] == body + ([0x22] + rest);
    assert t[..|body| + 2] == Quoted(s, f, h) && t[|body| + 2..] == rest;
  }

  // ---------------------------------------------------------------- documents, read back

  function Gap(level: nat, st: Style): Bytes {
    if st.pretty then NewlineIndent(level) else []
  }

  lemma GapIsBlank(level: nat, st: Style)
    ensures Blanks(Gap(level, st))
  {
  }

  /** No value's text begins with white space or with what ends a container. */
  lemma PrintBegins(v: Value, level: nat, st: Style)
    requires Grammatical(v)
    ensures Print(v, level, st) != []
    ensures var c := Print(v, level, st)[0]; !Blank(c) && c != 0x5D && c != 0x7D
  {
    if v.Num? {
      NumberBytes(v.lexeme);
    }
    hide IsNumber, Body, PrintItems, PrintMembers, Trail, NumberRun;
  }

  /** The text from the end of the k-th element on, given what follows the last. */
  function AfterItem(items: seq<Value>, k: nat, level: nat, st: Style, tail: Bytes): Bytes
    requires k <= |items|
    decreases |items| - k
  {
    if k == |items| then tail
    else [COMMA] + (Gap(level, st) + (Print(items[k], level, st) + AfterItem(items, k + 1, level, st, tail)))
  }

  lemma {:induction false} ItemsJoin(items: seq<Value>, k: nat, level: nat, st: Style, tail: Bytes)
    requires 0 < k <= |items|
    ensures PrintItems(items, |items|, level, st) + tail
         == PrintItems(items, k, level, st) + AfterItem(items, k, level, st, tail)
    decreases |items| - k
  {
    if k < |items| {
      ItemsJoin(items, k + 1, level, st, tail);
      hide Print, AfterItem, NewlineIndent;
      ItemsGrow([], items, k, level, st);
      JoinStep(PrintItems(items, k, level, st), Lead(k, level, st), Gap(level, st), Print(items[k], level, st),
               AfterItem(items, k + 1, level, st, tail), PrintItems(items, k + 1, level, st));
      AfterOne(items, k, level, st, tail);
    }
  }

  lemma AfterOne(items: seq<Value>, k: nat, level: nat, st: Style, tail: Bytes)
    requires k < |items|
    ensures AfterItem(items, k, level, st, tail)
         == [COMMA] + (Gap(level, st) + (Print(items[k], level, st) + AfterItem(items, k + 1, level, st, tail)))
  {
    hide Print, Gap;
  }

  lemma JoinStep(before: Bytes, lead: Bytes, gap: Bytes, piece: Bytes, after: Bytes, grown: Bytes)
    requires lead == [COMMA] + gap && [] + before + (lead + piece) == [] + grown
    ensures before + ([COMMA] + (gap + (piece + after))) == grown + after
  {
    assert [] + grown == grown;
    assert [] + before + (lead + piece) == before + ([COMMA] + gap + piece);
  }

  /** The opening of a non-empty array, split at its first element. */
  lemma ItemsBegin(items: seq<Value>, level: nat, st: Style, tail: Bytes)
    requires items != []
    ensures PrintItems(items, |items|, level, st) + tail
         == Gap(level, st) + (Print(items[0], level, st) + AfterItem(items, 1, level, st, tail))
  {
    hide *;
    ItemsJoin(items, 1, level, st, tail);
    FirstItem(items, level, st);
    ConcatAssociates(Gap(level, st), Print(items[0], level, st), AfterItem(items, 1, level, st, tail));
  }

  lemma FirstItem(items: seq<Value>, level: nat, st: Style)
    requires items != []
    ensures PrintItems(items, 1, level, st) == Gap(level, st) + Print(items[0], level, st)
  {
    hide Print, NewlineIndent;
    assert PrintItems(items, 0, level, st) == [];
    assert PrintItems(items, 1, level, st)
        == PrintItems(items, 0, level, st) + Lead(0, level, st) + Print(items[0], level, st);
  }

  lemma FirstMember(members: seq<Entry<Value>>, level: nat, st: Style)
    requires members != []
    ensures PrintMembers(members, 1, level, st) == Gap(level, st) + MemberText(members[0], level, st)
  {
    hide Print, KeyText, NewlineIndent;
    assert PrintMembers(members, 0, level, st) == [];
    assert PrintMembers(members, 1, level, st)
        == PrintMembers(members, 0, level, st) + Lead(0, level, st) + KeyText(members[0].key, st)
           + Print(members[0].value, level, st);
  }

  function AfterMember(members: seq<Entry<Value>>, k: nat, level: nat, st: Style, tail: Bytes): Bytes
    requires k <= |members|
    decreases |members| - k
  {
    if k == |members| then tail
    else [COMMA] + (Gap(level, st) + (MemberText(members[k], level, st) + AfterMember(members, k + 1, level, st, tail)))
  }

  function MemberText(m: Entry<Value>, level: nat, st: Style): Bytes {
    KeyText(m.key, st) + Print(m.value, level, st)
  }

  lemma MembersStep(members: seq<Entry<Value>>, k: nat, level: nat, st: Style)
    requires k < |members|
    ensures [] + PrintMembers(members, k, level, st) + (Lead(k, level, st) + MemberText(members[k], level, st))
         == [] + PrintMembers(members, k + 1, level, st)
  {
    hide Print, KeyText, Lead, PrintMembers;
    MembersGrow([], members, k, level, st);
    ConcatAssociates(Lead(k, level, st), KeyText(members[k].key, st), Print(members[k].value, level, st));
  }

  lemma {:induction false} MembersJoin(members: seq<Entry<Value>>, k: nat, level: nat, st: Style, tail: Bytes)
    requires 0 < k <= |members|
    ensures PrintMembers(members, |members|, level, st) + tail
         == PrintMembers(members, k, level, st) + AfterMember(members, k, level, st, tail)
    decreases |members| - k
  {
    if k < |members| {
      MembersJoin(members, k + 1, level, st, tail);
      AfterOneMember(members, k, level, st, tail);
      hide MemberText, AfterMember, NewlineIndent, PrintMembers;
      MembersStep(members, k, level, st);
      JoinStep(PrintMembers(members, k, level, st), Lead(k, level, st), Gap(level, st),
               MemberText(members[k], level, st), AfterMember(members, k + 1, level, st, tail),
               PrintMembers(members, k + 1, level, st));
    }
  }

  lemma AfterOneMember(members: seq<Entry<Value>>, k: nat, level: nat, st: Style, tail: Bytes)
    requires k < |members|
    ensures AfterMember(members, k, level, st, tail)
         == [COMMA] + (Gap(level,
             st) + (MemberText(members[k], level, st) + AfterMember(members, k + 1, level, st, tail)))
  {
    hide MemberText, Gap;
  }

  lemma MembersBegin(members: seq<Entry<Value>>, level: nat, st: Style, tail: Bytes)
    requires members != []
    ensures PrintMembers(members, |members|, level, st) + tail
         == Gap(level, st) + (MemberText(members[0], level, st) + AfterMember(members, 1, level, st, tail))
  {
    hide *;
    MembersJoin(members, 1, level, st, tail);
    FirstMember(members, level, st);
    ConcatAssociates(Gap(level, st), MemberText(members[0], level, st), AfterMember(members, 1, level, st, tail));
  }

  /** What ends an array or an object, before what follows it. */
  function Closing(n: nat, level: nat, st: Style, bracket: Byte, rest: Bytes): Bytes {
    Trail(n, level, st) + ([bracket] + rest)
  }

  lemma ClosingReads(n: nat, level: nat, st: Style, bracket: Byte, rest: Bytes)
    requires !Blank(bracket) && !NumberByte(bracket)
    ensures SkipBlanks(Closing(n, level, st, bracket, rest)) == [bracket] + rest
    ensures Ends(Closing(n, level, st, bracket, rest))
  {
    BlanksSkipped(Trail(n, level, st), [bracket] + rest);
  }

  /** Whatever comes next after an element, it is not part of a number. */
  lemma AfterItemEnds(items: seq<Value>, k: nat, level: nat, st: Style, tail: Bytes)
    requires k <= |items| && Ends(tail)
    ensures Ends(AfterItem(items, k, level, st, tail))
    ensures k < |items| ==> SkipBlanks(AfterItem(items, k, level, st, tail)) == AfterItem(items, k, level, st, tail)
  {
    hide Print, Gap;
  }

  lemma AfterMemberEnds(members: seq<Entry<Value>>, k: nat, level: nat, st: Style, tail: Bytes)
    requires k <= |members| && Ends(tail)
    ensures Ends(AfterMember(members, k, level, st, tail))
    ensures k < |members| ==>
              SkipBlanks(AfterMember(members, k, level, st, tail)) == AfterMember(members, k, level, st, tail)
  {
    hide MemberText, Gap;
  }

  lemma BlanksIgnored(ws: Bytes, t: Bytes)
    requires Blanks(ws) && t != [] && !Blank(t[0])
    ensures ReadValue(ws + t) == ReadValue(t)
  {
    BlanksSkipped(ws, t);
    hide ReadItems, ReadMembers, ReadString, ReadAtom;
    assert SkipBlanks(t) == t;
  }

  /** The text of a document, blanks before it or not, reads as that document, and what follows is left. */
  lemma {:induction false} PrintReads(v: Value, level: nat, st: Style, ws: Bytes, rest: Bytes)
    requires Encodable(v) && Grammatical(v) && Blanks(ws) && Ends(rest)
    ensures ReadValue(ws + (Print(v, level, st) + rest)) == Some((v, rest))
    decreases v, 0
  {
    PrintBegins(v, level, st);
    hide ReadValue, IsNumber, WellFormed, Quoted, PrintItems, PrintMembers, Trail, Blanks, NumberByte;
    assert (Print(v, level, st) + rest)[0] == Print(v, level, st)[0];
    BlanksIgnored(ws, Print(v, level, st) + rest);
    match v
    case Null => WordReads(v, rest);
    case Bool(_) => WordReads(v, rest);
    case Num(lexeme, _) => NumberReads(lexeme, rest);
    case Str(s) => TextReads(s, st, rest);
    case Arr(items) => ArrayReads(items, level, st, rest);
    case Obj(members) => ObjectReads(members, level, st, rest);
  }

  lemma TextReads(s: Bytes, st: Style, rest: Bytes)
    requires WellFormed(s)
    ensures ReadValue(Quoted(s, st.write, st.hex) + rest) == Some((Str(s), rest))
  {
    StringReads(s, st.write, st.hex, rest);
    var t := Quoted(s, st.write, st.hex) + rest;
    assert t[0] == 0x22 && SkipBlanks(t) == t;
    hide Body, ReadString, ReadItems, ReadMembers, ReadAtom;
  }

  lemma ArrayUnfolds(t: Bytes)
    requires t != [] && t[0] == 0x5B
    ensures ReadValue(t)
         == var w := SkipBlanks(t[1..]);
            if w != [] && w[0] == 0x5D then Some((Arr([]), w[1..]))
            else match ReadItems(t[1..])
              case None => None
              case Some((items, rest)) => Some((Arr(items), rest))
  {
    hide ReadItems, ReadMembers, ReadString, ReadAtom;
    assert SkipBlanks(t) == t;
  }

  lemma ObjectUnfolds(t: Bytes)
    requires t != [] && t[0] == 0x7B
    ensures ReadValue(t)
         == var w := SkipBlanks(t[1..]);
            if w != [] && w[0] == 0x7D then Some((Obj([]), w[1..]))
            else match ReadMembers(t[1..])
              case None => None
              case Some((members, rest)) => Some((Obj(members), rest))
  {
    hide ReadItems, ReadMembers, ReadString, ReadAtom;
    assert SkipBlanks(t) == t;
  }

  lemma Bracketed(text: Bytes, open: Byte, body: Bytes, trail: Bytes, close: Byte)
    requires [] + [open] + body + (trail + [close]) == [] + text
    ensures text == [open] + body + trail + [close]
  {
    assert [] + text == text;
  }

  lemma ContainerText(text: Bytes, open: Byte, body: Bytes, trail: Bytes, close: Byte, rest: Bytes)
    requires text == [open] + body + trail + [close]
    ensures text + rest == [open] + (body + (trail + ([close] + rest)))
    ensures (text + rest)[0] == open && (text + rest)[1..] == body + (trail + ([close] + rest))
  {
    assert text + rest == [open] + (body + (trail + ([close] + rest)));
  }

  lemma {:induction false} ArrayReads(items: seq<Value>, level: nat, st: Style, rest: Bytes)
    requires forall k :: 0 <= k < |items| ==> Encodable(items[k]) && Grammatical(items[k])
    ensures ReadValue(Print(Arr(items), level, st) + rest) == Some((Arr(items), rest))
    decreases items, |items| + 1
  {
    hide *;
    var inner, tail := Inner(level, st), Closing(|items|, level, st, RIGHT_BRACKET, rest);
    ArrayIs(items, level, st, rest);
    ClosingReads(|items|, level, st, RIGHT_BRACKET, rest);
    var t := Print(Arr(items), level, st) + rest;
    ArrayUnfolds(t);
    if items == [] {
      NothingInside(items, [], inner, st, tail);
    } else {
      ItemsBegin(items, inner, st, tail);
      GapIsBlank(inner, st);
      BeginsWith(Gap(inner, st), items[0], inner, st, AfterItem(items, 1, inner, st, tail));
      ItemsRead(items, 0, inner, st, Gap(inner, st), tail, rest);
      assert items[0..] == items;
    }
  }

  lemma ArrayIs(items: seq<Value>, level: nat, st: Style, rest: Bytes)
    ensures var t := Print(Arr(items), level, st) + rest;
            && t != [] && t[0] == 0x5B && !Blank(RIGHT_BRACKET) && !NumberByte(RIGHT_BRACKET) && RIGHT_BRACKET == 0x5D
            && t[1..] == PrintItems(items, |items|, Inner(level, st), st)
                         + Closing(|items|, level, st, RIGHT_BRACKET, rest)
  {
    var text := Print(Arr(items), level, st);
    var body, trail := PrintItems(items, |items|, Inner(level, st), st), Trail(|items|, level, st);
    hide Print, PrintItems, Trail, Inner;
    ArrayText([], items, level, st);
    Bracketed(text, LEFT_BRACKET, body, trail, RIGHT_BRACKET);
    ContainerText(text, LEFT_BRACKET, body, trail, RIGHT_BRACKET, rest);
  }

  lemma ObjectIs(members: seq<Entry<Value>>, level: nat, st: Style, rest: Bytes)
    ensures var t := Print(Obj(members), level, st) + rest;
            && t != [] && t[0] == 0x7B && !Blank(RIGHT_BRACE) && !NumberByte(RIGHT_BRACE) && RIGHT_BRACE == 0x7D
            && t[1..] == PrintMembers(members, |members|, Inner(level, st), st)
                         + Closing(|members|, level, st, RIGHT_BRACE, rest)
  {
    var text := Print(Obj(members), level, st);
    var body, trail := PrintMembers(members, |members|, Inner(level, st), st), Trail(|members|, level, st);
    hide Print, PrintMembers, Trail, Inner;
    ObjectText([], members, level, st);
    Bracketed(text, LEFT_BRACE, body, trail, RIGHT_BRACE);
    ContainerText(text, LEFT_BRACE, body, trail, RIGHT_BRACE, rest);
  }

  lemma NothingInside(items: seq<Value>, members: seq<Entry<Value>>, level: nat, st: Style, tail: Bytes)
    ensures PrintItems(items, 0, level, st) + tail == tail && PrintMembers(members, 0, level, st) + tail == tail
  {
  }

  /** Blanks and then a value: what is found after the blanks does not close a container. */
  lemma BeginsWith(ws: Bytes, v: Value, level: nat, st: Style, after: Bytes)
    requires Blanks(ws) && Grammatical(v)
    ensures var w := SkipBlanks(ws + (Print(v, level, st) + after));
            w != [] && w[0] != 0x5D && w[0] != 0x7D
  {
    PrintBegins(v, level, st);
    hide Print, Grammatical, SkipBlanks, Blank;
    var u := Print(v, level, st) + after;
    assert u[0] == Print(v, level, st)[0];
    BlanksSkipped(ws, u);
  }

  lemma ItemsUnfold(t: Bytes, v: Value, rest: Bytes)
    requires ReadValue(t) == Some((v, rest))
    ensures ReadItems(t)
         == var w := SkipBlanks(rest);
            if w == [] then None
            else if w[0] == 0x5D then Some(([v], w[1..]))
            else if w[0] != 0x2C then None
            else match ReadItems(w[1..])
              case None => None
              case Some((items, last)) => Some(([v] + items, last))
  {
    hide ReadValue;
  }

  lemma {:induction false} ItemsRead(items: seq<Value>, k: nat, level: nat, st: Style, ws: Bytes, tail: Bytes,
      rest: Bytes)
    requires forall i :: 0 <= i < |items| ==> Encodable(items[i]) && Grammatical(items[i])
    requires k < |items| && Blanks(ws) && Ends(tail) && SkipBlanks(tail) == [0x5D] + rest
    ensures ReadItems(ws + (Print(items[k], level, st) + AfterItem(items, k + 1, level, st, tail)))
         == Some((items[k..], rest))
    decreases items, |items| - k
  {
    hide *;
    var after := AfterItem(items, k + 1, level, st, tail);
    var t := ws + (Print(items[k], level, st) + after);
    AfterItemEnds(items, k + 1, level, st, tail);
    PrintReads(items[k], level, st, ws, after);
    ItemsUnfold(t, items[k], after);
    if k + 1 == |items| {
      AfterLast(items, [], level, st, tail);
      assert items[k..] == [items[k]];
    } else {
      AfterOne(items, k + 1, level, st, tail);
      GapIsBlank(level, st);
      ItemsRead(items, k + 1, level, st, Gap(level, st), tail, rest);
      assert items[k..] == [items[k]] + items[k + 1..];
      CommaIs();
    }
  }

  lemma CommaIs()
    ensures COMMA == 0x2C && COLON == 0x3A
  {
  }

  lemma AfterLast(items: seq<Value>, members: seq<Entry<Value>>, level: nat, st: Style, tail: Bytes)
    ensures AfterItem(items, |items|, level, st, tail) == tail
    ensures AfterMember(members, |members|, level, st, tail) == tail
  {
  }

  lemma {:induction false} ObjectReads(members: seq<Entry<Value>>, level: nat, st: Style, rest: Bytes)
    requires forall k :: 0 <= k < |members| ==>
               WellFormed(members[k].key) && Encodable(members[k].value) && Grammatical(members[k].value)
    ensures ReadValue(Print(Obj(members), level, st) + rest) == Some((Obj(members), rest))
    decreases members, |members| + 1
  {
    hide *;
    var inner, tail := Inner(level, st), Closing(|members|, level, st, RIGHT_BRACE, rest);
    ObjectIs(members, level, st, rest);
    ClosingReads(|members|, level, st, RIGHT_BRACE, rest);
    var t := Print(Obj(members), level, st) + rest;
    ObjectUnfolds(t);
    if members == [] {
      NothingInside([], members, inner, st, tail);
    } else {
      MembersBegin(members, inner, st, tail);
      GapIsBlank(inner, st);
      BeginsWithName(Gap(inner, st), members[0], inner, st, AfterMember(members, 1, inner, st, tail));
      MembersRead(members, 0, inner, st, Gap(inner, st), tail, rest);
      assert members[0..] == members;
    }
  }

  /** A member's text begins with a quote. */
  lemma BeginsWithName(ws: Bytes, m: Entry<Value>, level: nat, st: Style, after: Bytes)
    requires Blanks(ws)
    ensures var u := MemberText(m, level, st) + after;
            SkipBlanks(ws + u) == u && u != [] && u[0] == 0x22
  {
    var u := MemberText(m, level, st) + after;
    hide Print, SkipBlanks, Body, Blanks;
    assert u[0] == 0x22;
    BlanksSkipped(ws, u);
  }

  /** A key, its colon, and what follows. */
  lemma NameReads(m: Entry<Value>, level: nat, st: Style, ws: Bytes, after: Bytes)
    requires Blanks(ws) && WellFormed(m.key)
    ensures var space: Bytes := if st.pretty then [SPACE] else [];
            ReadName(ws + (MemberText(m, level, st) + after))
                == Some((m.key, space + (Print(m.value, level, st) + after)))
  {
    hide WellFormed, Print, Body, SkipBlanks, Blanks, ReadString;
    var space: Bytes := if st.pretty then [SPACE] else [];
    var q, more := Quoted(m.key, st.write, st.hex), space + (Print(m.value, level, st) + after);
    BeginsWithName(ws, m, level, st, after);
    assert MemberText(m, level, st) + after == q + ([COLON] + more);
    StringReads(m.key, st.write, st.hex, [COLON] + more);
    BlanksSkipped([], [COLON] + more);
    assert [] + ([COLON] + more) == [COLON] + more && ([COLON] + more)[1..] == more;
  }

  lemma SpaceIsBlank(st: Style)
    ensures Blanks(if st.pretty then [SPACE] else [])
  {
  }

  lemma MembersUnfold(t: Bytes, key: Bytes, after: Bytes, v: Value, rest: Bytes)
    requires ReadName(t) == Some((key, after)) && ReadValue(after) == Some((v, rest))
    ensures ReadMembers(t)
         == var w := SkipBlanks(rest);
            if w == [] then None
            else if w[0] == 0x7D then Some(([Entry(key, v)], w[1..]))
            else if w[0] != 0x2C then None
            else match ReadMembers(w[1..])
              case None => None
              case Some((members, last)) => Some(([Entry(key, v)] + members, last))
  {
    hide ReadValue, ReadName;
  }

  lemma {:induction false} MembersRead(members: seq<Entry<Value>>, k: nat, level: nat, st: Style, ws: Bytes,
      tail: Bytes,
                                       rest: Bytes)
    requires forall i :: 0 <= i < |members| ==>
               WellFormed(members[i].key) && Encodable(members[i].value) && Grammatical(members[i].value)
    requires k < |members| && Blanks(ws) && Ends(tail) && SkipBlanks(tail) == [0x7D] + rest
    ensures ReadMembers(ws + (MemberText(members[k], level, st) + AfterMember(members, k + 1, level, st, tail)))
         == Some((members[k..], rest))
    decreases members, |members| - k
  {
    hide *;
    var m, after := members[k], AfterMember(members, k + 1, level, st, tail);
    var space: Bytes := if st.pretty then [SPACE] else [];
    var t := ws + (MemberText(m, level, st) + after);
    AfterMemberEnds(members, k + 1, level, st, tail);
    NameReads(m, level, st, ws, after);
    SpaceIsBlank(st);
    PrintReads(m.value, level, st, space, after);
    MembersUnfold(t, m.key, space + (Print(m.value, level, st) + after), m.value, after);
    assert Entry(m.key, m.value) == m;
    if k + 1 == |members| {
      AfterLast([], members, level, st, tail);
      assert members[k..] == [m];
    } else {
      AfterOneMember(members, k + 1, level, st, tail);
      GapIsBlank(level, st);
      MembersRead(members, k + 1, level, st, Gap(level, st), tail, rest);
      assert members[k..] == [m] + members[k + 1..];
      CommaIs();
    }
  }

  /** Every document with a text is what its text reads as, at any level, compact or pretty, under any flags. */
  lemma PrintedReadsBack(v: Value, level: nat, st: Style)
    requires Encodable(v) && Grammatical(v)
    ensures ReadDocument(Print(v, level, st)) == Some(v)
  {
    PrintReads(v, level, st, [], []);
    hide Print, ReadValue, Encodable, Grammatical;
    assert [] + (Print(v, level, st) + []) == Print(v, level, st);
  }
}
