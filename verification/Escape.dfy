/**
 * JSON string text: the escaping rules of section 7 of RFC 8259 in the choices the writer makes, the
 * reader that undoes them, and the proof that the reader gives back exactly what was written.
 */
module Escape {
  import opened ByteStrings
  import opened Utf8
  import opened Wrappers
  import WordScan

  datatype WriteFlags = WriteFlags(escapeSlashes: bool, escapeUnicode: bool)

  /** JSON_HEX_TAG, JSON_HEX_AMP, JSON_HEX_APOS, JSON_HEX_QUOT. */
  datatype HexFlags = HexFlags(tag: bool, amp: bool, apos: bool, quot: bool)

  const NO_HEX := HexFlags(false, false, false, false)

  const LOWER_U: Byte := 0x75

  // ---------------------------------------------------------------- writing

  function HexDigit(n: nat): Byte
    requires n < 16
  {
    if n < 10 then 0x30 + n else 0x61 + (n - 10)
  }

  function Hex4(n: nat): (r: Bytes)
    requires n < 0x10000
    ensures |r| == 4
  {
    [HexDigit(n / 16 / 16 / 16), HexDigit(n / 16 / 16 % 16), HexDigit(n / 16 % 16), HexDigit(n % 16)]
  }

  /** `\uXXXX` */
  function UnicodeEscape(unit: nat): (r: Bytes)
    requires unit < 0x10000
    ensures |r| == 6
  {
    [BACKSLASH, LOWER_U] + Hex4(unit)
  }

  /** The letter after the backslash in a two-byte escape, if the character has one. */
  function ShortEscape(cp: Scalar, f: WriteFlags): int {
    if cp == 0x08 then 0x62
    else if cp == 0x09 then 0x74
    else if cp == 0x0A then 0x6E
    else if cp == 0x0C then 0x66
    else if cp == 0x0D then 0x72
    else if cp == QUOTE || cp == BACKSLASH then cp
    else if cp == SLASH && f.escapeSlashes then cp
    else -1
  }

  /** The upper-case hex escape a JSON_HEX_* flag asks for, if any. */
  function HexEscape(cp: Scalar, h: HexFlags): Bytes {
    if h.tag && cp == LESS_THAN then [BACKSLASH, LOWER_U, 0x30, 0x30, 0x33, 0x43]
    else if h.tag && cp == GREATER_THAN then [BACKSLASH, LOWER_U, 0x30, 0x30, 0x33, 0x45]
    else if h.amp && cp == AMPERSAND then [BACKSLASH, LOWER_U, 0x30, 0x30, 0x32, 0x36]
    else if h.apos && cp == APOSTROPHE then [BACKSLASH, LOWER_U, 0x30, 0x30, 0x32, 0x37]
    else if h.quot && cp == QUOTE then [BACKSLASH, LOWER_U, 0x30, 0x30, 0x32, 0x32]
    else []
  }

  function EscapeScalar(cp: Scalar, f: WriteFlags, h: HexFlags): (r: Bytes)
    ensures 1 <= |r| <= 12
  {
    if HexEscape(cp, h) != [] then HexEscape(cp, h)
    else if ShortEscape(cp, f) >= 0 then [BACKSLASH, ShortEscape(cp, f)]
    else if cp < 0x20 then UnicodeEscape(cp)
    else if cp < 0x80 || !f.escapeUnicode then Encode(cp)
    else if cp < 0x10000 then UnicodeEscape(cp)
    else UnicodeEscape(0xD800 + (cp - 0x10000) / 1024) + UnicodeEscape(0xDC00 + (cp - 0x10000) % 1024)
  }

  /** The text between the quotes. Only meaningful on well-formed UTF-8; it stops at the first bad byte. */
  function Body(s: Bytes, f: WriteFlags, h: HexFlags): Bytes {
    if s == [] || !ValidAt(s, 0) then []
    else ValidFits(s, 0); EscapeScalar(DecodeHead(s), f, h) + Body(s[SeqLen(s[0])..], f, h)
  }

  function Quoted(s: Bytes, f: WriteFlags, h: HexFlags): Bytes {
    [QUOTE] + Body(s, f, h) + [QUOTE]
  }

  lemma DecodeHeadPrefix(a: Bytes, b: Bytes)
    requires ValidAt(a, 0)
    ensures ValidAt(a + b, 0) && DecodeHead(a + b) == DecodeHead(a)
  {
  }

  /** A single code point on its own. */
  lemma PointBody(t: Bytes, f: WriteFlags, h: HexFlags)
    requires ValidAt(t, 0)
    ensures SeqLen(t[0]) <= |t| && WellFormed(t[..SeqLen(t[0])])
    ensures Body(t[..SeqLen(t[0])], f, h) == EscapeScalar(DecodeHead(t), f, h)
  {
    ValidFits(t, 0);
    var n := SeqLen(t[0]);
    var point := t[..n];
    assert ValidAt(point, 0);
    hide ValidAt, EscapeScalar, DecodeHead;
    assert point + t[n..] == t;
    DecodeHeadPrefix(point, t[n..]);
    assert point[n..] == [];
  }

  /** Writing is compositional at code-point boundaries. */
  lemma {:induction false} BodyAppend(a: Bytes, b: Bytes, f: WriteFlags, h: HexFlags)
    requires WellFormed(a)
    ensures Body(a + b, f, h) == Body(a, f, h) + Body(b, f, h)
  {
    if a == [] {
      assert a + b == b;
    } else {
      var n := SeqLen(a[0]);
      ValidAtPrefix(a, b);
      DecodeHeadPrefix(a, b);
      BodyAppend(a[n..], b, f, h);
      hide ValidAt;
      ConcatAssociates(EscapeScalar(DecodeHead(a), f, h), Body(a[n..], f, h), Body(b, f, h));
    }
  }

  /** Bytes that need no escape stand for themselves. */
  lemma {:induction false} CleanBody(s: Bytes, f: WriteFlags)
    requires WordScan.Clean(s, 0, |s|, f.escapeSlashes)
    ensures WellFormed(s) && Body(s, f, NO_HEX) == s
  {
    if s != [] {
      CleanHead(s, f);
      hide ValidAt, EscapeScalar, DecodeHead, WordScan.ByteNeedsEscape;
      CleanBody(s[1..], f);
      assert s == [s[0]] + s[1..];
    }
  }

  lemma CleanHead(s: Bytes, f: WriteFlags)
    requires s != [] && !WordScan.ByteNeedsEscape(s[0], f.escapeSlashes)
    ensures ValidAt(s, 0) && SeqLen(s[0]) == 1
    ensures EscapeScalar(DecodeHead(s), f, NO_HEX) == [s[0]]
  {
  }

  /** No byte grows more than sixfold. */
  lemma {:induction false} BodySize(s: Bytes, f: WriteFlags)
    ensures |Body(s, f, NO_HEX)| <= 6 * |s|
  {
    if s != [] && ValidAt(s, 0) {
      ValidFits(s, 0);
      BodySize(s[SeqLen(s[0])..], f);
    }
  }

  // ---------------------------------------------------------------- which escapes are chosen

  /** A lower-case hexadecimal digit and what it stands for, in literal bytes. */
  predicate LowerHex(c: Byte, n: nat) {
    (n < 10 && c == 0x30 + n) || (10 <= n < 16 && c == 0x61 + (n - 10))
  }

  /** `e` is a backslash, a `u` and the four lower-case digits of `unit`, in literal bytes. */
  predicate SpellsUnit(e: Bytes, unit: nat) {
    && |e| == 6 && e[0] == 0x5C && e[1] == 0x75
    && LowerHex(e[2], unit / 4096) && LowerHex(e[3], unit / 256 % 16)
    && LowerHex(e[4], unit / 16 % 16) && LowerHex(e[5], unit % 16)
  }

  /** The text of each character below U+0080, in literal bytes. */
  lemma AsciiEscapes(cp: Scalar, f: WriteFlags)
    requires cp < 0x80
    ensures cp == 0x08 ==> EscapeScalar(cp, f, NO_HEX) == [0x5C, 0x62]
    ensures cp == 0x09 ==> EscapeScalar(cp, f, NO_HEX) == [0x5C, 0x74]
    ensures cp == 0x0A ==> EscapeScalar(cp, f, NO_HEX) == [0x5C, 0x6E]
    ensures cp == 0x0C ==> EscapeScalar(cp, f, NO_HEX) == [0x5C, 0x66]
    ensures cp == 0x0D ==> EscapeScalar(cp, f, NO_HEX) == [0x5C, 0x72]
    ensures cp == 0x22 || cp == 0x5C ==> EscapeScalar(cp, f, NO_HEX) == [0x5C, cp]
    ensures cp == 0x2F ==> EscapeScalar(cp, f, NO_HEX) == if f.escapeSlashes then [0x5C, 0x2F] else [0x2F]
    ensures cp < 0x20 && cp != 0x08 && cp != 0x09 && cp != 0x0A && cp != 0x0C && cp != 0x0D ==>
              SpellsUnit(EscapeScalar(cp, f, NO_HEX), cp)
    ensures cp >= 0x20 && cp != 0x22 && cp != 0x5C && cp != 0x2F ==> EscapeScalar(cp, f, NO_HEX) == [cp]
  {
  }

  /** Other characters stand for themselves, or are spelled as one code unit or a surrogate pair. */
  lemma UnicodeEscapes(cp: Scalar, f: WriteFlags)
    requires cp >= 0x80
    ensures !f.escapeUnicode ==> EscapeScalar(cp, f, NO_HEX) == Encode(cp)
    ensures f.escapeUnicode && cp < 0x10000 ==> SpellsUnit(EscapeScalar(cp, f, NO_HEX), cp)
    ensures f.escapeUnicode && cp >= 0x10000 ==>
      var e := EscapeScalar(cp, f, NO_HEX);
      && |e| == 12 && SpellsUnit(e[..6], 0xD7C0 + cp / 0x400) && SpellsUnit(e[6..], 0xDC00 + cp % 0x400)
  {
    hide SpellsUnit, Encode, UnicodeEscape;
    if cp < 0x10000 {
      SpelledUnit(cp);
    } else {
      var hi, lo := 0xD800 + (cp - 0x10000) / 1024, 0xDC00 + (cp - 0x10000) % 1024;
      SpelledUnit(hi);
      SpelledUnit(lo);
      assert (UnicodeEscape(hi) + UnicodeEscape(lo))[..6] == UnicodeEscape(hi);
      assert (UnicodeEscape(hi) + UnicodeEscape(lo))[6..] == UnicodeEscape(lo);
    }
  }

  lemma HighScalarIsHighBytes(cp: Scalar)
    requires cp >= 0x80
    ensures forall k :: 0 <= k < |Encode(cp)| ==> Encode(cp)[k] >= 0x80
  {
  }

  lemma SpelledUnit(unit: nat)
    requires unit < 0x10000
    ensures SpellsUnit(UnicodeEscape(unit), unit)
  {
    assert unit / 16 / 16 / 16 == unit / 4096 && unit / 16 / 16 == unit / 256;
  }

  /** What each JSON_HEX_* flag asks for, in literal bytes. */
  lemma HexTable(cp: Scalar, h: HexFlags)
    ensures cp == 0x3C ==> HexEscape(cp, h) == if h.tag then [0x5C, 0x75, 0x30, 0x30, 0x33, 0x43] else []
    ensures cp == 0x3E ==> HexEscape(cp, h) == if h.tag then [0x5C, 0x75, 0x30, 0x30, 0x33, 0x45] else []
    ensures cp == 0x26 ==> HexEscape(cp, h) == if h.amp then [0x5C, 0x75, 0x30, 0x30, 0x32, 0x36] else []
    ensures cp == 0x27 ==> HexEscape(cp, h) == if h.apos then [0x5C, 0x75, 0x30, 0x30, 0x32, 0x37] else []
    ensures cp == 0x22 ==> HexEscape(cp, h) == if h.quot then [0x5C, 0x75, 0x30, 0x30, 0x32, 0x32] else []
    ensures cp !in {0x3C, 0x3E, 0x26, 0x27, 0x22} ==> HexEscape(cp, h) == []
    ensures HexEscape(cp, h) == [] ==> forall f :: EscapeScalar(cp, f, h) == EscapeScalar(cp, f, NO_HEX)
    ensures HexEscape(cp, h) != [] ==> forall f :: EscapeScalar(cp, f, h) == HexEscape(cp, h)
  {
    hide ShortEscape, UnicodeEscape, Encode;
  }

  /** Between well-formed strings, a character's text stands where the character stood. */
  lemma BodyAround(a: Bytes, cp: Scalar, b: Bytes, f: WriteFlags, h: HexFlags)
    requires WellFormed(a)
    ensures Body(a + Encode(cp) + b, f, h) == Body(a, f, h) + EscapeScalar(cp, f, h) + Body(b, f, h)
  {
    var e := Encode(cp);
    EncodedIsValid(cp, []);
    assert e + [] == e;
    EncodedIsWellFormed([cp]);
    EncodeIsInjective(cp, DecodeHead(e));
    assert e[|e|..] == [];
    assert EncodeAll([cp]) == e;
    assert Body(e, f, h) == EscapeScalar(cp, f, h);
    hide WellFormed, Body, ValidAt, EscapeScalar, DecodeHead, Encode;
    assert a + e + b == a + (e + b);
    BodyAppend(a, e + b, f, h);
    BodyAppend(e, b, f, h);
    ConcatAssociates(Body(a, f, h), EscapeScalar(cp, f, h), Body(b, f, h));
  }

  /** JSON_UNESCAPED_UNICODE and JSON_UNESCAPED_SLASHES: nothing is escaped that need not be. */
  lemma {:induction false} UnescapedBody(s: Bytes)
    requires WellFormed(s) && forall k :: 0 <= k < |s| ==> s[k] >= 0x20 && s[k] != 0x22 && s[k] != 0x5C
    ensures Body(s, WriteFlags(false, false), NO_HEX) == s
  {
    if s != [] {
      hide ValidAt, EscapeScalar, DecodeHead;
      var n := SeqLen(s[0]);
      ValidFits(s, 0);
      PlainPoint(s);
      UnescapedBody(s[n..]);
      assert s == s[..n] + s[n..];
    }
  }

  lemma PlainPoint(s: Bytes)
    requires ValidAt(s, 0) && s[0] >= 0x20 && s[0] != 0x22 && s[0] != 0x5C
    ensures SeqLen(s[0]) <= |s|
    ensures EscapeScalar(DecodeHead(s), WriteFlags(false, false), NO_HEX) == s[..SeqLen(s[0])]
  {
    ValidFits(s, 0);
    var cp: Scalar := DecodeHead(s);
    assert cp < 0x80 ==> cp == s[0];
    if cp < 0x80 {
      AsciiEscapes(cp, WriteFlags(false, false));
    } else {
      UnicodeEscapes(cp, WriteFlags(false, false));
    }
    hide EscapeScalar;
  }

  /** Without JSON_UNESCAPED_UNICODE the text is ASCII. */
  lemma {:induction false} EscapedBodyIsAscii(s: Bytes, f: WriteFlags, h: HexFlags)
    requires f.escapeUnicode
    ensures forall k :: 0 <= k < |Body(s, f, h)| ==> Body(s, f, h)[k] < 0x80
  {
    if s != [] && ValidAt(s, 0) {
      ValidFits(s, 0);
      PointIsAscii(DecodeHead(s), f, h);
      hide ValidAt, EscapeScalar, DecodeHead;
      EscapedBodyIsAscii(s[SeqLen(s[0])..], f, h);
    }
  }

  lemma PointIsAscii(cp: Scalar, f: WriteFlags, h: HexFlags)
    requires f.escapeUnicode
    ensures forall k :: 0 <= k < |EscapeScalar(cp, f, h)| ==> EscapeScalar(cp, f, h)[k] < 0x80
  {
  }

  // ---------------------------------------------------------------- reading, in the literal bytes of the RFC

  function HexValue(c: int): int {
    if 0x30 <= c <= 0x39 then c - 0x30
    else if 0x41 <= c <= 0x46 then c - 0x41 + 10
    else if 0x61 <= c <= 0x66 then c - 0x61 + 10
    else -1
  }

  /** The code unit of a `\uXXXX` that begins at `i`, or -1. */
  function ReadUnit(t: Bytes, i: nat): int {
    var a, b, c, d := HexValue(At(t, i + 2)), HexValue(At(t, i + 3)), HexValue(At(t, i + 4)), HexValue(At(t, i + 5));
    if At(t, i) == 0x5C && At(t, i + 1) == 0x75 && a >= 0 && b >= 0 && c >= 0 && d >= 0
    then ((a * 16 + b) * 16 + c) * 16 + d
    else -1
  }

  function ReadShort(c: int): int {
    if c == 0x62 then 0x08
    else if c == 0x74 then 0x09
    else if c == 0x6E then 0x0A
    else if c == 0x66 then 0x0C
    else if c == 0x72 then 0x0D
    else if c == 0x22 || c == 0x5C || c == 0x2F then c
    else -1
  }

  /** One character of a JSON string body: its scalar value and how many bytes spell it. */
  function ReadPoint(t: Bytes): (r: Option<(Scalar, nat)>)
    ensures r.Some? ==> 0 < r.value.1 <= |t|
  {
    if t == [] || t[0] < 0x20 || t[0] == 0x22 then None
    else if t[0] != 0x5C then
      if ValidAt(t, 0) then ValidFits(t, 0); Some((DecodeHead(t), SeqLen(t[0]))) else None
    else if ReadShort(At(t, 1)) >= 0 then Some((ReadShort(t[1]), 2))
    else
      var hi := ReadUnit(t, 0);
      if hi < 0 || 0xDC00 <= hi <= 0xDFFF then None
      else if hi < 0xD800 || 0xE000 <= hi <= 0xFFFF then Some((hi, 6))
      else
        var lo := ReadUnit(t, 6);
        if 0xD800 <= hi <= 0xDBFF && 0xDC00 <= lo <= 0xDFFF
        then Some((0x10000 + (hi - 0xD800) * 1024 + (lo - 0xDC00), 12))
        else None
  }

  function ReadBody(t: Bytes): Option<seq<Scalar>> {
    if t == [] then Some([])
    else match ReadPoint(t)
      case None => None
      case Some((cp, n)) =>
        match ReadBody(t[n..])
        case None => None
        case Some(cps) => Some([cp] + cps)
  }

  /** What a quoted JSON string denotes, as UTF-8. */
  function ReadQuoted(t: Bytes): Option<Bytes> {
    if |t| < 2 || t[0] != 0x22 || t[|t| - 1] != 0x22 then None
    else match ReadBody(t[1..|t| - 1])
      case None => None
      case Some(cps) => Some(EncodeAll(cps))
  }

  lemma HexRoundTrip(n: nat)
    requires n < 16
    ensures HexValue(HexDigit(n)) == n
  {
  }

  lemma ReadsUnit(unit: nat, before: Bytes, rest: Bytes)
    requires unit < 0x10000
    ensures ReadUnit(before + UnicodeEscape(unit) + rest, |before|) == unit
  {
    var t := before + UnicodeEscape(unit) + rest;
    var i := |before|;
    var a, b, c, d := unit / 16 / 16 / 16, unit / 16 / 16 % 16, unit / 16 % 16, unit % 16;
    HexRoundTrip(a); HexRoundTrip(b); HexRoundTrip(c); HexRoundTrip(d);
    assert At(t, i) == UnicodeEscape(unit)[0] && At(t, i + 1) == UnicodeEscape(unit)[1];
    assert At(t, i + 2) == UnicodeEscape(unit)[2] && At(t, i + 3) == UnicodeEscape(unit)[3];
    assert At(t, i + 4) == UnicodeEscape(unit)[4] && At(t, i + 5) == UnicodeEscape(unit)[5];
    assert unit / 16 / 16 == a * 16 + b && unit / 16 == (a * 16 + b) * 16 + c;
  }

  lemma EncodeIsInjective(a: Scalar, b: Scalar)
    requires Encode(a) == Encode(b)
    ensures a == b
  {
    if a < 0x80 {
    } else if a < 0x800 {
    } else if a < 0x10000 {
    } else {
    }
  }

  lemma HexReadsBack(cp: Scalar, h: HexFlags, rest: Bytes)
    requires HexEscape(cp, h) != []
    ensures |HexEscape(cp, h)| == 6
    ensures ReadPoint(HexEscape(cp, h) + rest) == Some((cp, 6))
  {
    var e := HexEscape(cp, h);
    var t := e + rest;
    assert t[..6] == e;
    assert At(t, 1) == e[1] && At(t, 2) == e[2] && At(t, 3) == e[3] && At(t, 4) == e[4] && At(t, 5) == e[5];
    hide ValidAt, HexEscape;
  }

  lemma ShortReadsBack(cp: Scalar, f: WriteFlags, rest: Bytes)
    requires ShortEscape(cp, f) >= 0
    ensures ReadPoint([BACKSLASH, ShortEscape(cp, f)] + rest) == Some((cp, 2))
  {
    hide ValidAt, ReadUnit;
  }

  lemma UnitReadsBack(cp: Scalar, rest: Bytes)
    requires cp < 0x10000
    ensures ReadPoint(UnicodeEscape(cp) + rest) == Some((cp, 6))
  {
    var t := UnicodeEscape(cp) + rest;
    assert t == [] + UnicodeEscape(cp) + rest;
    ReadsUnit(cp, [], rest);
    assert t[0] == UnicodeEscape(cp)[0] && t[1] == UnicodeEscape(cp)[1];
    hide ValidAt, ReadUnit, Hex4;
  }

  lemma PairReadsBack(cp: Scalar, rest: Bytes)
    requires cp >= 0x10000
    ensures var hi, lo := 0xD800 + (cp - 0x10000) / 1024, 0xDC00 + (cp - 0x10000) % 1024;
      hi < 0x10000 && lo < 0x10000
      && ReadPoint(UnicodeEscape(hi) + UnicodeEscape(lo) + rest) == Some((cp, 12))
  {
    var hi, lo := 0xD800 + (cp - 0x10000) / 1024, 0xDC00 + (cp - 0x10000) % 1024;
    var t := UnicodeEscape(hi) + UnicodeEscape(lo) + rest;
    ReadsUnit(hi, [], UnicodeEscape(lo) + rest);
    assert t == [] + UnicodeEscape(hi) + (UnicodeEscape(lo) + rest);
    ReadsUnit(lo, UnicodeEscape(hi), rest);
    assert t[0] == UnicodeEscape(hi)[0] && t[1] == UnicodeEscape(hi)[1];
    hide ValidAt, ReadUnit, Hex4;
  }

  lemma RawReadsBack(cp: Scalar, rest: Bytes)
    requires cp >= 0x20 && cp != QUOTE && cp != BACKSLASH
    ensures ReadPoint(Encode(cp) + rest) == Some((cp, |Encode(cp)|))
  {
    var t := Encode(cp) + rest;
    EncodedIsValid(cp, rest);
    assert t[..|Encode(cp)|] == Encode(cp);
    EncodeIsInjective(cp, DecodeHead(t));
    hide ValidAt, ReadUnit;
  }

  /** Each written character reads back as itself, whatever follows it. */
  lemma PointRoundTrip(cp: Scalar, f: WriteFlags, h: HexFlags, rest: Bytes)
    ensures ReadPoint(EscapeScalar(cp, f, h) + rest) == Some((cp, |EscapeScalar(cp, f, h)|))
  {
    hide ReadPoint, UnicodeEscape, Encode, HexEscape;
    if HexEscape(cp, h) != [] {
      HexReadsBack(cp, h, rest);
    } else if ShortEscape(cp, f) >= 0 {
      ShortReadsBack(cp, f, rest);
    } else if cp < 0x20 {
      UnitReadsBack(cp, rest);
    } else if cp < 0x80 || !f.escapeUnicode {
      RawReadsBack(cp, rest);
    } else if cp < 0x10000 {
      UnitReadsBack(cp, rest);
    } else {
      PairReadsBack(cp, rest);
    }
  }

  lemma {:induction false} BodyReadsBack(s: Bytes, f: WriteFlags, h: HexFlags)
    requires WellFormed(s)
    ensures ReadBody(Body(s, f, h)) == Some(DecodeAll(s))
  {
    if s != [] {
      var n := SeqLen(s[0]);
      var e, rest := EscapeScalar(DecodeHead(s), f, h), Body(s[n..], f, h);
      PointRoundTrip(DecodeHead(s), f, h, rest);
      BodyReadsBack(s[n..], f, h);
      assert (e + rest)[|e|..] == rest;
    }
  }

  /** Writing and reading: the quoted form of a string, under any flags, denotes that string. */
  lemma QuotedReadsBack(s: Bytes, f: WriteFlags, h: HexFlags)
    requires WellFormed(s)
    ensures ReadQuoted(Quoted(s, f, h)) == Some(s)
  {
    var t := Quoted(s, f, h);
    assert t[1..|t| - 1] == Body(s, f, h);
    BodyReadsBack(s, f, h);
  }
}
